/**
 * What the printf-style formatters of both drafts share: the variadic
 * arguments as values, the text a format renders to (with a mark for the
 * point where the C code would have undefined behaviour), the bounded
 * output they leave in the destination buffer, and the two digit loops of
 * their `%d` conversions.
 */
module Formatting {
  import opened Common

  /**
   * One variadic argument: a `const char*` (`None` for null; the characters
   * before its terminator otherwise), an `int`, or a `size_t`.
   */
  datatype Arg = Str(s: Option<seq<char>>) | Int(i: int) | Size(n: nat)

  /** Every string argument that is not null holds C string characters. */
  predicate ArgsAreCStrs(args: seq<Arg>) {
    forall i | 0 <= i < |args| :: args[i].Str? && args[i].s.Some? ==> IsCStr(args[i].s.value)
  }

  /**
   * The text a format produces, in full; `defined` is false when the C code
   * would reach undefined behaviour (a missing or mistyped argument, a
   * negated `INT_MIN`, a read past the format's terminator) right after
   * producing `text`.
   */
  datatype Rendering = Rendering(text: seq<char>, defined: bool)

  const Undefined: Rendering := Rendering([], false)

  function Prepend(t: seq<char>, r: Rendering): (p: Rendering)
    ensures |p.text| == |t| + |r.text|
  {
    Rendering(t + r.text, r.defined)
  }

  /**
   * A bounded formatter stops once `size - 1` characters are out, so it only
   * reaches the undefined point when the text before it is shorter.
   */
  predicate Fits(r: Rendering, size: nat) {
    r.defined || |r.text| >= size - 1
  }

  /**
   * The destination after a bounded formatter: the rendered text cut at
   * `size - 1` characters, then a NUL, the cells after it untouched, and the
   * count of characters as the result.
   */
  predicate Printed(now: seq<char>, before: seq<char>, full: seq<char>, size: nat, r: int)
    requires 1 <= size <= |now| == |before|
  {
    var n := Min(|full|, size - 1);
    r == n && now[..n] == full[..n] && now[n] == '\0' && now[n + 1..] == before[n + 1..]
  }

  /**
   * The cells before `pos'` hold the `pos` cells written before plus `t`,
   * cut at `size - 1`; `pos'` is where that cut ends; nothing from `pos'` on
   * was touched.
   */
  predicate Clipped(now: seq<char>, before: seq<char>, pos: nat, t: seq<char>, size: nat, pos': nat)
    requires 1 <= size && pos <= |before| == |now|
  {
    pos' == Min(pos + |t|, size - 1) && pos' <= |now|
    && now[..pos'] == (before[..pos] + t)[..pos'] && now[pos'..] == before[pos'..]
  }

  /**
   * The digit loop of `%d`, which stores the remainder by 10 and divides
   * until the value is 0 or the buffer is full: the decimal digits of `n`, least significant first (a single '0'
   * for zero). The `cap` guard never cuts the digits short.
   */
  method DigitsInto(buf: array<char>, n: nat, cap: nat) returns (len: nat)
    requires |Decimal(n)| <= cap <= buf.Length
    modifies buf
    ensures len == |Decimal(n)| && Reverse(buf[..len]) == Decimal(n)
  {
    var v := n;
    buf[0] := DigitChar(v % 10);
    len := 1;
    v := v / 10;
    FirstDigit(buf[..len], n);
    if n == 0 {
      return;
    }
    while v != 0 && len < cap
      invariant 1 <= len <= cap
      invariant buf[..len] + DigitsReversed(v) == DigitsReversed(n)
    {
      buf[len] := DigitChar(v % 10);
      DigitStep(buf[..len], buf[..len + 1], v);
      len := len + 1;
      v := v / 10;
    }
    DigitsDone(buf[..len], v, n, cap);
  }

  /** The first digit, written before the loop's test: for zero it is the whole text. */
  lemma FirstDigit(written: seq<char>, n: nat)
    requires written == [DigitChar(n % 10)]
    ensures n == 0 ==> |written| == |Decimal(n)| && Reverse(written) == Decimal(n)
    ensures n != 0 ==> written + DigitsReversed(n / 10) == DigitsReversed(n)
  {
    if n == 0 {
      assert Reverse(written) == written;
    }
  }

  /** One more digit written moves it from the pending digits to the written ones. */
  lemma DigitStep(written: seq<char>, next: seq<char>, v: nat)
    requires v != 0 && next == written + [DigitChar(v % 10)]
    ensures written + DigitsReversed(v) == next + DigitsReversed(v / 10)
  {
  }

  /** When the digit loop stops, every digit is written: the cap is never the reason it stops. */
  lemma DigitsDone(written: seq<char>, v: nat, n: nat, cap: nat)
    requires n > 0 && |Decimal(n)| <= cap && written + DigitsReversed(v) == DigitsReversed(n)
    requires v == 0 || |written| >= cap
    ensures |written| == |Decimal(n)| && Reverse(written) == Decimal(n)
  {
    DigitsReversedDecimal(n);
    if v != 0 {
      assert false;
    }
    assert written == Reverse(Decimal(n));
    ReverseReverse(Decimal(n));
  }

  /**
   * The copy-out loop, which moves digits from the end of the buffer while
   * there is room before the terminator: the first `len` cells of `buf` in reverse order, appended
   * and cut at `size - 1`.
   */
  method PutReversed(str: array<char>, pos: nat, size: nat, buf: array<char>, len: nat) returns (pos': nat)
    requires pos < size <= str.Length && len <= buf.Length && str != buf
    modifies str
    ensures Clipped(str[..], old(str[..]), pos, Reverse(buf[..len]), size, pos')
  {
    ghost var t := Reverse(buf[..len]);
    var n := len;
    pos' := pos;
    while n > 0 && pos' < size - 1
      invariant n <= len && pos' - pos == len - n && pos' <= size - 1
      invariant str[..pos'] == old(str[..pos]) + t[..len - n]
      invariant str[pos'..] == old(str[pos'..])
    {
      n := n - 1;
      str[pos'] := buf[n];
      assert t[..len - n] == t[..len - n - 1] + [buf[n]];
      pos' := pos' + 1;
    }
    assert t[..len - n] == (old(str[..pos]) + t)[pos..pos'];
  }

  /**
   * The `%d` conversion both bounded formatters share: '-' (unguarded, as
   * there is room for one character when a conversion starts) for a
   * negative value, then the magnitude's digits through `DigitsInto` with a
   * local 32-character buffer and `PutReversed`.
   */
  method PutSigned(str: array<char>, pos: nat, size: nat, num: int, cap: nat) returns (pos': nat)
    requires pos < size - 1 && size <= str.Length
    requires IsInt(num) && num != INT_MIN && 10 <= cap <= 32
    modifies str
    ensures Clipped(str[..], old(str[..]), pos, SignedDecimal(num), size, pos')
  {
    var n := num;
    pos' := pos;
    if n < 0 {
      str[pos'] := '-';
      pos' := pos' + 1;
      n := -n;
    }
    ghost var mid := str[..];
    ghost var sign := if num < 0 then ['-'] else [];
    assert mid[..pos'] == old(str[..pos]) + sign && mid[pos'..] == old(str[pos'..]);
    pos' := PutMagnitude(str, pos', size, n, cap);
    ClippedThen(old(str[..]), mid, str[..], pos, sign, Decimal(n), size, pos');
  }

  /** The digits half of `%d`: a nonnegative value's decimal text, clipped. */
  method PutMagnitude(str: array<char>, pos: nat, size: nat, n: nat, cap: nat) returns (pos': nat)
    requires pos < size <= str.Length && n < U32_MOD && 10 <= cap <= 32
    modifies str
    ensures Clipped(str[..], old(str[..]), pos, Decimal(n), size, pos')
  {
    DecimalWidth(n);
    var buf := new char[32];
    var len := DigitsInto(buf, n, cap);
    pos' := PutReversed(str, pos, size, buf, len);
  }

  /** Writing `t1` in full and then `t2` clipped is writing `t1 + t2` clipped. */
  lemma ClippedThen(before: seq<char>, mid: seq<char>, now: seq<char>, pos: nat, t1: seq<char>, t2: seq<char>,
                    size: nat, pos': nat)
    requires pos + |t1| < size && pos + |t1| <= |before| == |mid| == |now|
    requires mid[..pos + |t1|] == before[..pos] + t1 && mid[pos + |t1|..] == before[pos + |t1|..]
    requires Clipped(now, mid, pos + |t1|, t2, size, pos')
    ensures Clipped(now, before, pos, t1 + t2, size, pos')
  {
    assert before[..pos] + (t1 + t2) == mid[..pos + |t1|] + t2;
  }

  /** A 32-bit magnitude has at most ten decimal digits. */
  lemma DecimalWidth(n: nat)
    requires n < U32_MOD
    ensures |Decimal(n)| <= 10
  {
    assert Pow10(10) == 10_000_000_000;
    DecimalAtMost(n, 10);
  }

  function Pow10(e: nat): nat {
    if e == 0 then 1 else 10 * Pow10(e - 1)
  }

  /** A number below `10^e` (with `e >= 1`) has at most `e` digits. */
  lemma {:induction false} DecimalAtMost(n: nat, e: nat)
    requires 1 <= e && n < Pow10(e)
    ensures |Decimal(n)| <= e
  {
    if n >= 10 {
      assert Pow10(1) == 10;
      DecimalAtMost(n / 10, e - 1);
    }
  }

  /**
   * One conversion of a bounded formatter's loop: the text so far was `A`
   * and the rest renders to `t` then `rest`; once `t` is written clipped,
   * the cells written are a prefix of the full text, and unless the limit
   * was reached they are `A + t` with `rest` still to come.
   */
  lemma Advance(full: Rendering, a: seq<char>, t: seq<char>, rest: Rendering,
                before: seq<char>, now: seq<char>, pos: nat, size: nat, pos': nat)
    requires 1 <= size && pos == |a| && pos <= |before| == |now|
    requires before[..pos] == a && full == Prepend(a, Prepend(t, rest))
    requires Clipped(now, before, pos, t, size, pos')
    ensures pos' <= |full.text| && now[..pos'] == full.text[..pos']
    ensures pos' < size - 1 ==> full == Prepend(now[..pos'], rest)
  {
    assert full.text == (a + t) + rest.text;
    if pos' < size - 1 {
      assert now[..pos'] == a + t;
    }
  }
}
