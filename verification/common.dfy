/**
 * Shared vocabulary of the kernel model: optional values (a C null pointer),
 * the machine integer ranges of a 32-bit freestanding target, C strings,
 * and decimal rendering, which several formatters of the kernel share.
 */
module Common {

  /** `None` stands for a C null pointer or an absent value. */
  datatype Option<+T> = None | Some(value: T)

  type byte = x: int | 0 <= x < 0x100
  type u16 = x: int | 0 <= x < 0x1_0000
  type u32 = x: int | 0 <= x < 0x1_0000_0000

  const U32_MOD: int := 0x1_0000_0000
  const INT_MIN: int := -0x8000_0000
  const INT_MAX: int := 0x7FFF_FFFF

  /** A value of C type `int` on the 32-bit target. */
  predicate IsInt(x: int) {
    INT_MIN <= x <= INT_MAX
  }

  /** A C `char` is modelled by a Dafny char whose code is the byte's unsigned value. */
  predicate IsChar8(c: char) {
    c as int < 0x100
  }

  /**
   * The characters of a C string before its terminating NUL: no NUL inside,
   * every code an 8-bit value.
   */
  predicate IsCStr(s: seq<char>) {
    forall i | 0 <= i < |s| :: s[i] != '\0' && IsChar8(s[i])
  }

  function Min(a: nat, b: nat): nat {
    if a <= b then a else b
  }

  /** The `n` bytes of memory from address `addr` on. */
  function Bytes(ram: nat -> byte, addr: nat, n: nat): (b: seq<byte>)
    ensures |b| == n
  {
    seq(n, k requires 0 <= k < n => ram(addr + k))
  }

  predicate IsDigit(c: char) {
    '0' <= c <= '9'
  }

  predicate AllDigits(s: seq<char>) {
    forall i | 0 <= i < |s| :: IsDigit(s[i])
  }

  /** The character `'0' + d`. */
  function DigitChar(d: nat): (c: char)
    requires d < 10
    ensures IsDigit(c) && c as int - '0' as int == d
  {
    (d + '0' as int) as char
  }

  /**
   * The decimal representation of `n`, most significant digit first:
   * "0" for zero and no leading zero otherwise.
   */
  function Decimal(n: nat): (s: seq<char>)
    ensures 1 <= |s| && AllDigits(s)
    ensures s[0] == '0' <==> n == 0
    ensures n < 10 <==> |s| == 1
  {
    if n < 10 then [DigitChar(n)] else Decimal(n / 10) + [DigitChar(n % 10)]
  }

  /** The number a string of decimal digits denotes. */
  function DecimalValue(s: seq<char>): nat
    requires AllDigits(s)
  {
    if s == [] then 0 else 10 * DecimalValue(s[..|s| - 1]) + (s[|s| - 1] as int - '0' as int)
  }

  /** Reading back the rendered digits gives the number again. */
  lemma {:induction false} DecimalRoundTrip(n: nat)
    ensures DecimalValue(Decimal(n)) == n
  {
    if n >= 10 {
      DecimalRoundTrip(n / 10);
      var s := Decimal(n);
      assert s[..|s| - 1] == Decimal(n / 10);
    }
  }

  /** Two numbers with the same rendering are equal: the rendering is injective. */
  lemma DecimalInjective(m: nat, n: nat)
    requires Decimal(m) == Decimal(n)
    ensures m == n
  {
    DecimalRoundTrip(m);
    DecimalRoundTrip(n);
  }

  /** The C-style decimal text of a signed value: '-' then the digits of its magnitude. */
  function SignedDecimal(x: int): (s: seq<char>)
    ensures 1 <= |s|
    ensures s[0] == '-' <==> x < 0
    ensures x < 0 ==> s[1..] == Decimal(-x)
    ensures x >= 0 ==> s == Decimal(x)
    ensures IsCStr(s)
  {
    if x < 0 then ['-'] + Decimal(-x) else Decimal(x)
  }

  /** The elements of `s` in the opposite order. */
  function Reverse<T>(s: seq<T>): (r: seq<T>)
    ensures |r| == |s|
    ensures forall i | 0 <= i < |s| :: r[i] == s[|s| - 1 - i]
  {
    if s == [] then [] else Reverse(s[1..]) + [s[0]]
  }

  /** Reversing a sequence with one more element in front puts that element last. */
  lemma ReverseCons<T>(x: T, s: seq<T>)
    ensures Reverse([x] + s) == Reverse(s) + [x]
  {
    assert ([x] + s)[1..] == s;
  }

  /** Reversing a sequence with one more element at the end puts that element first. */
  lemma ReverseSnoc<T>(s: seq<T>, x: T)
    ensures Reverse(s + [x]) == [x] + Reverse(s)
  {
    assert forall i | 0 <= i <= |s| :: Reverse(s + [x])[i] == ([x] + Reverse(s))[i];
  }

  /** Reversing twice gives the sequence back. */
  lemma ReverseReverse<T>(s: seq<T>)
    ensures Reverse(Reverse(s)) == s
  {
    assert forall i | 0 <= i < |s| :: Reverse(Reverse(s))[i] == s[i];
  }

  /**
   * The digits of `n` least significant first, as a loop of `% 10` and
   * `/ 10` produces them; empty for zero.
   */
  function DigitsReversed(n: nat): seq<char>
  {
    if n == 0 then [] else [DigitChar(n % 10)] + DigitsReversed(n / 10)
  }

  /** For a positive number the division loop yields exactly the decimal text, backwards. */
  lemma {:induction false} DigitsReversedDecimal(n: nat)
    requires n > 0
    ensures DigitsReversed(n) == Reverse(Decimal(n))
  {
    if n >= 10 {
      DigitsReversedDecimal(n / 10);
      var d := DigitChar(n % 10);
      assert Decimal(n) == Decimal(n / 10) + [d];
      var r := Reverse(Decimal(n));
      assert r == [d] + Reverse(Decimal(n / 10)) by {
        assert r[0] == d;
        assert forall i | 1 <= i < |r| :: r[i] == Reverse(Decimal(n / 10))[i - 1];
      }
    } else {
      assert DigitsReversed(n / 10) == [];
    }
  }

  /** Reading the division loop's digits (and a trailing '-') backwards gives the signed text. */
  lemma SignedDigitsReversed(x: int)
    requires x != 0
    ensures x > 0 ==> Reverse(SignedDecimal(x)) == DigitsReversed(x)
    ensures x < 0 ==> Reverse(SignedDecimal(x)) == DigitsReversed(-x) + ['-']
  {
    if x > 0 {
      DigitsReversedDecimal(x);
    } else {
      DigitsReversedDecimal(-x);
      var t := SignedDecimal(x);
      assert t == ['-'] + Decimal(-x);
      assert forall k | 0 <= k < |t| - 1 :: Reverse(t)[k] == Reverse(Decimal(-x))[k];
    }
  }

  /** A slice of a slice is a slice of the whole. */
  lemma SliceOfSlice<T>(s: seq<T>, i: nat, j: nat, k: nat, l: nat)
    requires i <= j <= |s| && k <= l <= j - i
    ensures s[i..j][k..l] == s[i + k..i + l]
  {
    assert |s[i..j][k..l]| == |s[i + k..i + l]|;
    forall t | 0 <= t < l - k
      ensures s[i..j][k..l][t] == s[i + k..i + l][t]
    {
      assert s[i..j][k..l][t] == s[i..j][k + t] == s[i + k + t];
    }
  }

  /** Two sequences that agree from `i` on agree from any later `j` on. */
  lemma SameFrom<T>(a: seq<T>, b: seq<T>, i: nat, j: nat)
    requires i <= j <= |a| == |b| && a[i..] == b[i..]
    ensures a[j..] == b[j..]
  {
    assert a[j..] == a[i..][j - i..];
    assert b[j..] == b[i..][j - i..];
  }

  /**
   * The two-index in-place reversal of the first `len` cells (`start` from
   * the front, `end` from the back, swapping until they meet); a negative or
   * zero length changes nothing.
   */
  method ReverseInPlace(a: array<char>, len: int)
    requires len <= a.Length
    modifies a
    ensures len <= 0 ==> a[..] == old(a[..])
    ensures len >= 0 ==> a[..len] == Reverse(old(a[..len])) && a[len..] == old(a[len..])
  {
    var start := 0;
    var end := len - 1;
    while start < end
      invariant 0 <= start && start + end == len - 1
      invariant len >= 0 ==> start <= end + 2
      invariant len < 0 ==> start == 0
      invariant forall k | 0 <= k < start :: a[k] == old(a[len - 1 - k])
      invariant forall k | end < k < len && 0 <= k :: a[k] == old(a[len - 1 - k])
      invariant forall k | start <= k <= end :: a[k] == old(a[k])
      invariant forall k | len <= k < a.Length && 0 <= k :: a[k] == old(a[k])
    {
      a[start], a[end] := a[end], a[start];
      start := start + 1;
      end := end - 1;
    }
  }
}
