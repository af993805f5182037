/**
 * The first draft's formatted output: a bounded `vsnprintf` (the release
 * draft's `release/kernel/stdio.cpp` carries the same function, character
 * for character), `itoa` in bases 2 to 36 with C's truncating division,
 * and an unbounded `sprintf` that formats integers through `itoa`. The
 * in-place `reverse` that `itoa` ends with is `Common.ReverseInPlace`.
 */
module KernelStdio {
  import opened Common
  import opened CStrings
  import opened Formatting

  /** What `%s` prints for a string argument: its characters, or "(null)" for a null pointer. */
  function StrText(s: Option<seq<char>>): seq<char> {
    if s.Some? then s.value else "(null)"
  }

  /**
   * The text this `vsnprintf` renders, in full: ordinary characters are
   * copied; `%s` copies a string argument, "(null)" for a null one; `%d`
   * writes an `int` as '-' and the digits of its magnitude; any other
   * character after '%' is written itself, so "%%" gives '%'; a '%' at the
   * very end stops the output. A missing or mistyped argument and `INT_MIN`
   * make the rest undefined.
   */
  function Render(format: seq<char>, args: seq<Arg>): Rendering
    decreases |format|
  {
    if format == [] then Rendering([], true)
    else if format[0] != '%' then Prepend([format[0]], Render(format[1..], args))
    else if |format| == 1 then Rendering([], true)
    else if format[1] == 's' then
      if args != [] && args[0].Str? then Prepend(StrText(args[0].s), Render(format[2..], args[1..]))
      else Undefined
    else if format[1] == 'd' then
      if args != [] && args[0].Int? && IsInt(args[0].i) && args[0].i != INT_MIN
      then Prepend(SignedDecimal(args[0].i), Render(format[2..], args[1..]))
      else Undefined
    else Prepend([format[1]], Render(format[2..], args))
  }

  /** A format without '%' renders as itself, whatever the arguments. */
  lemma {:induction false} PlainText(format: seq<char>, args: seq<Arg>)
    requires '%' !in format
    ensures Render(format, args) == Rendering(format, true)
    decreases |format|
  {
    if format != [] {
      PlainText(format[1..], args);
      assert format == [format[0]] + format[1..];
    }
  }

  /** Any character other than 's' and 'd' after '%' is printed literally and uses no argument. */
  lemma LiteralConversion(c: char, rest: seq<char>, args: seq<Arg>)
    requires c != 's' && c != 'd'
    ensures Render(['%', c] + rest, args) == Prepend([c], Render(rest, args))
  {
    assert (['%', c] + rest)[2..] == rest;
  }

  /** A '%' ending the format is dropped: the output is that of the format without it. */
  lemma {:induction false} TrailingPercent(format: seq<char>, args: seq<Arg>)
    requires '%' !in format
    ensures Render(format + ['%'], args) == Rendering(format, true)
    decreases |format|
  {
    if format == [] {
      assert [] + ['%'] == ['%'];
    } else {
      TrailingPercent(format[1..], args);
      assert (format + ['%'])[1..] == format[1..] + ['%'];
      assert format == [format[0]] + format[1..];
    }
  }

  /**
   * The `%s` conversion: `strlen` of the argument, cut so that at most
   * `size - 1` characters are out, then copied with `memcpy`.
   */
  method PutClipped(str: array<char>, pos: nat, size: nat, s: seq<char>) returns (pos': nat)
    requires pos < size <= str.Length
    modifies str
    ensures Clipped(str[..], old(str[..]), pos, s, size, pos')
  {
    var len := |s|;
    if pos + len >= size - 1 {
      len := size - pos - 1;
    }
    for j := 0 to len
      invariant str[..pos + j] == old(str[..pos]) + s[..j] && str[pos + j..] == old(str[pos + j..])
    {
      str[pos + j] := s[j];
      assert s[..j + 1] == s[..j] + [s[j]];
    }
    pos' := pos + len;
    assert s[..len] == (old(str[..pos]) + s)[pos..pos'];
  }

  /**
   * `vsnprintf` (and `snprintf`, which only gathers its arguments for it):
   * -1 for a null buffer, a null format or size 0, with nothing written;
   * otherwise the rendered text cut at `size - 1` characters,
   * NUL-terminated, with its length returned.
   */
  method Vsnprintf(str: array?<char>, size: nat, format: Option<seq<char>>, args: seq<Arg>) returns (r: int)
    requires str != null ==> size <= str.Length
    requires format.Some? ==> IsCStr(format.value)
    requires ArgsAreCStrs(args)
    requires str != null && format.Some? && size > 0 ==> Fits(Render(format.value, args), size)
    modifies str
    ensures str == null || format.None? || size == 0 ==> r == -1
    ensures str != null && (format.None? || size == 0) ==> str[..] == old(str[..])
    ensures str != null && format.Some? && size > 0 ==>
      Printed(str[..], old(str[..]), Render(format.value, args).text, size, r)
  {
    if str == null || format.None? || size == 0 {
      return -1;
    }
    var fmt := format.value;
    ghost var full := Render(fmt, args);
    var written: nat, i: nat, k: nat := 0, 0, 0;
    while i < |fmt| && written < size - 1
      invariant i <= |fmt| && k <= |args| && written <= size - 1
      invariant written <= |full.text| && str[..written] == full.text[..written]
      invariant written < size - 1 ==> full == Prepend(str[..written], Render(fmt[i..], args[k..]))
      invariant str[written..] == old(str[written..])
      decreases |fmt| - i
    {
      i, k, written := Conversion(str, size, fmt, args, i, k, written, full);
    }
    str[written] := '\0';
    r := written;
  }

  /**
   * What one turn of `vsnprintf`'s loop achieves, from cells `before` to
   * cells `now`: the format and output positions advance, what is out is
   * the start of the full text, and until the output is full the rest of
   * the text is what the rest of the format renders; no cell from the new
   * output position on has changed.
   */
  predicate Stepped(now: seq<char>, before: seq<char>, size: nat, format: seq<char>, args: seq<Arg>, full: Rendering,
                    i: nat, k: nat, pos: nat, i': nat, k': nat, pos': nat)
    requires |now| == |before|
  {
    i < i' <= |format| && k' <= |args| && pos <= pos' <= size - 1 && pos' <= |now|
    && pos' <= |full.text| && now[..pos'] == full.text[..pos']
    && (pos' < size - 1 ==> full == Prepend(now[..pos'], Render(format[i'..], args[k'..])))
    && now[pos'..] == before[pos'..]
  }

  /** One turn of `vsnprintf`'s loop: a plain character, or what follows a '%'. */
  method Conversion(str: array<char>, size: nat, format: seq<char>, args: seq<Arg>, i: nat, k: nat, pos: nat,
                    ghost full: Rendering) returns (i': nat, k': nat, pos': nat)
    requires size <= str.Length && ArgsAreCStrs(args) && Fits(full, size)
    requires i < |format| && k <= |args| && pos < size - 1
    requires full == Prepend(str[..pos], Render(format[i..], args[k..]))
    modifies str
    ensures Stepped(str[..], old(str[..]), size, format, args, full, i, k, pos, i', k', pos')
  {
    if format[i] != '%' {
      ghost var before := str[..];
      ghost var a := str[..pos];
      str[pos] := format[i];
      assert format[i..][1..] == format[i + 1..];
      Advance(full, a, [format[i]], Render(format[i + 1..], args[k..]), before, str[..], pos, size, pos + 1);
      return i + 1, k, pos + 1;
    }
    i', k', pos' := Directive(str, size, format, args, i, k, pos, full);
  }

  /** The turn at a '%': the stop at a trailing '%', `%s`, `%d`, or the next character printed as it is. */
  method Directive(str: array<char>, size: nat, format: seq<char>, args: seq<Arg>, i: nat, k: nat, pos: nat,
                   ghost full: Rendering) returns (i': nat, k': nat, pos': nat)
    requires size <= str.Length && ArgsAreCStrs(args) && Fits(full, size)
    requires i < |format| && format[i] == '%' && k <= |args| && pos < size - 1
    requires full == Prepend(str[..pos], Render(format[i..], args[k..]))
    modifies str
    ensures Stepped(str[..], old(str[..]), size, format, args, full, i, k, pos, i', k', pos')
  {
    ghost var before := str[..];
    ghost var a := str[..pos];
    Unfold(format, args, i, k);
    if i + 1 == |format| {
      assert str[..pos] == full.text;
      return |format|, k, pos;
    }
    var c := format[i + 1];
    if c == 's' {
      pos' := PutClipped(str, pos, size, StrText(args[k].s));
      Advance(full, a, StrText(args[k].s), Render(format[i + 2..], args[k + 1..]), before, str[..], pos, size, pos');
      return i + 2, k + 1, pos';
    } else if c == 'd' {
      pos' := PutSigned(str, pos, size, args[k].i, 31);
      Advance(full, a, SignedDecimal(args[k].i), Render(format[i + 2..], args[k + 1..]), before, str[..], pos, size, pos');
      return i + 2, k + 1, pos';
    }
    str[pos] := c;
    Advance(full, a, [c], Render(format[i + 2..], args[k..]), before, str[..], pos, size, pos + 1);
    return i + 2, k, pos + 1;
  }

  /** The rendering from a '%', case by case, in terms of the rest of the format and of the arguments. */
  lemma Unfold(format: seq<char>, args: seq<Arg>, i: nat, k: nat)
    requires i < |format| && format[i] == '%' && k <= |args|
    ensures var r := Render(format[i..], args[k..]);
      && (i + 1 == |format| ==> r == Rendering([], true))
      && (i + 1 < |format| && format[i + 1] == 's' ==>
            r == if k < |args| && args[k].Str?
                 then Prepend(StrText(args[k].s), Render(format[i + 2..], args[k + 1..])) else Undefined)
      && (i + 1 < |format| && format[i + 1] == 'd' ==>
            r == if k < |args| && args[k].Int? && IsInt(args[k].i) && args[k].i != INT_MIN
                 then Prepend(SignedDecimal(args[k].i), Render(format[i + 2..], args[k + 1..])) else Undefined)
      && (i + 1 < |format| && format[i + 1] != 's' && format[i + 1] != 'd' ==>
            r == Prepend([format[i + 1]], Render(format[i + 2..], args[k..])))
  {
    var f := format[i..];
    if i + 1 < |format| {
      assert f[2..] == format[i + 2..];
      if k < |args| {
        assert args[k..][1..] == args[k + 1..];
      }
    }
  }

  /**
   * The quotient of a nonnegative `m` by a positive `b`, counted by
   * repeated subtraction (so that the digit functions stay in linear
   * arithmetic; `QuotRem` shows it is the usual quotient).
   */
  function Quot(m: nat, b: nat): nat
    requires b > 0
    decreases m
  {
    if m < b then 0 else 1 + Quot(m - b, b)
  }

  /** The remainder of a nonnegative `m` by a positive `b`, by repeated subtraction. */
  function Rem(m: nat, b: nat): (r: nat)
    requires b > 0
    ensures r < b
    decreases m
  {
    if m < b then m else Rem(m - b, b)
  }

  /** Quotient and remainder put the dividend back together. */
  lemma {:induction false} QuotRem(m: nat, b: nat)
    requires b > 0
    ensures m == b * Quot(m, b) + Rem(m, b)
    decreases m
  {
    if m >= b {
      QuotRem(m - b, b);
      assert b * (1 + Quot(m - b, b)) == b + b * Quot(m - b, b);
    }
  }

  /** By ten, they are Dafny's (Euclidean) `/` and `%`, which agree with C's on nonnegative values. */
  lemma {:induction false} QuotRemTen(m: nat)
    ensures Quot(m, 10) == m / 10 && Rem(m, 10) == m % 10
    decreases m
  {
    if m >= 10 {
      QuotRemTen(m - 10);
    }
  }

  /** C's `a / b` for a positive divisor: the quotient truncated toward zero. */
  function CQuot(a: int, b: int): int
    requires b > 0
  {
    if a >= 0 then Quot(a, b) else -(Quot(-a, b) as int)
  }

  /** C's `a % b` for a positive divisor: the remainder takes the sign of `a`. */
  function CRem(a: int, b: int): (r: int)
    requires b > 0
    ensures a >= 0 ==> 0 <= r < b
    ensures a < 0 ==> -b < r <= 0
  {
    if a >= 0 then Rem(a, b) else -(Rem(-a, b) as int)
  }

  /**
   * C's division: the quotient and the remainder put the dividend back
   * together, and the remainder is smaller than the divisor and has the
   * sign of the dividend (the two facts that fix C's truncating division).
   */
  lemma CDivision(a: int, b: int)
    requires b > 0
    ensures a == b * CQuot(a, b) + CRem(a, b)
    ensures Abs(CRem(a, b)) < b && (a >= 0 ==> CRem(a, b) >= 0) && (a < 0 ==> CRem(a, b) <= 0)
  {
    QuotRem(Abs(a), b);
    if a < 0 {
      assert b * CQuot(a, b) == -(b * Quot(-a, b));
    }
  }

  function Abs(a: int): nat {
    if a >= 0 then a else -a
  }

  /** The character `itoa` stores for a remainder: a lowercase letter from 10 on, else a digit offset from '0'; any remainder in base at most 36. */
  function DigitOf(rem: int): (c: char)
    requires -36 < rem < 36
    ensures 0 <= rem < 10 ==> c == DigitChar(rem)
    ensures c != '\0' && IsChar8(c)
  {
    if rem > 9 then (rem - 10 + 'a' as int) as char else (rem + '0' as int) as char
  }

  /** The digits `itoa`'s loop stores, least significant first, until the value reaches zero. */
  function LowDigits(n: int, base: int): seq<char>
    requires 2 <= base <= 36
    decreases Abs(n)
  {
    if n == 0 then [] else QuotientShrinks(n, base); [DigitOf(CRem(n, base))] + LowDigits(CQuot(n, base), base)
  }

  /** The same digits most significant first, as they read once reversed. */
  function HighDigits(n: int, base: int): seq<char>
    requires 2 <= base <= 36
    decreases Abs(n)
  {
    if n == 0 then [] else QuotientShrinks(n, base); HighDigits(CQuot(n, base), base) + [DigitOf(CRem(n, base))]
  }

  /** Each turn of the digit loop brings the value strictly closer to zero. */
  lemma QuotientShrinks(a: int, b: int)
    requires b >= 2 && a != 0
    ensures Abs(CQuot(a, b)) < Abs(a)
  {
    QuotLess(Abs(a), b);
  }

  lemma {:induction false} QuotLess(m: nat, b: nat)
    requires m > 0 && b >= 2
    ensures Quot(m, b) < m
    decreases m
  {
    if m >= b && m - b > 0 {
      QuotLess(m - b, b);
    }
  }

  /** Reversing the stored digits puts them most significant first. */
  lemma {:induction false} LowDigitsReversed(n: int, base: int)
    requires 2 <= base <= 36
    ensures Reverse(LowDigits(n, base)) == HighDigits(n, base)
    decreases Abs(n)
  {
    if n != 0 {
      QuotientShrinks(n, base);
      var q := CQuot(n, base);
      var d := DigitOf(CRem(n, base));
      LowDigitsReversed(q, base);
      ReverseCons(d, LowDigits(q, base));
    }
  }

  /**
   * The string `itoa` leaves: "0" for zero; for a negative value in base 10,
   * '-' and the digits of its magnitude; otherwise the digits of the value
   * as the loop produced them (for a negative value in another base, those
   * of its negative remainders).
   */
  function ItoaText(num: int, base: int): seq<char>
    requires 2 <= base <= 36
  {
    if num == 0 then ['0']
    else if num < 0 && base == 10 then ['-'] + HighDigits(-num, base)
    else HighDigits(num, base)
  }

  /** In base 10 the digits of a positive value are its decimal text. */
  lemma {:induction false} HighDigitsDecimal(n: nat)
    requires n > 0
    ensures HighDigits(n, 10) == Decimal(n)
    decreases n
  {
    QuotRemTen(n);
    if n >= 10 {
      HighDigitsDecimal(n / 10);
    } else {
      assert HighDigits(n / 10, 10) == [];
    }
  }

  /** In base 10, `itoa` writes the C decimal text of the value. */
  lemma ItoaDecimal(num: int)
    requires IsInt(num) && num != INT_MIN
    ensures ItoaText(num, 10) == SignedDecimal(num)
  {
    if num > 0 {
      HighDigitsDecimal(num);
    } else if num < 0 {
      HighDigitsDecimal(-num);
    }
  }

  /** The value of a digit character, '0'-'9' then 'a'-'z'. */
  function DigitValue(c: char): int {
    if c >= 'a' then c as int - 'a' as int + 10 else c as int - '0' as int
  }

  /** The number a string of base-`base` digits denotes, most significant first. */
  function ValueIn(s: seq<char>, base: int): int {
    if s == [] then 0 else ValueIn(s[..|s| - 1], base) * base + DigitValue(s[|s| - 1])
  }

  /** For a positive value, reading `itoa`'s text back in the same base gives the value. */
  lemma ItoaRoundTrip(num: int, base: int)
    requires 2 <= base <= 36 && num > 0
    ensures ValueIn(ItoaText(num, base), base) == num
  {
    HighDigitsValue(num, base);
  }

  lemma {:induction false} HighDigitsValue(n: nat, base: int)
    requires 2 <= base <= 36
    ensures ValueIn(HighDigits(n, base), base) == n
    decreases n
  {
    if n > 0 {
      QuotientShrinks(n, base);
      var q, r := Quot(n, base), Rem(n, base);
      QuotRem(n, base);
      HighDigitsValue(q, base);
      var p := HighDigits(q, base);
      assert HighDigits(n, base) == p + [DigitOf(r)];
      ValueSnoc(p, DigitOf(r), base);
      assert DigitValue(DigitOf(r)) == r;
      ScaleAndAdd(ValueIn(p, base), q, base, r, n);
    }
  }

  /** One more digit at the end multiplies the value by the base and adds the digit. */
  lemma ValueSnoc(p: seq<char>, c: char, base: int)
    ensures ValueIn(p + [c], base) == ValueIn(p, base) * base + DigitValue(c)
  {
    assert (p + [c])[..|p|] == p;
  }

  /** Replacing equals by equals under a multiplication, kept apart from the sequence reasoning. */
  lemma ScaleAndAdd(v: int, q: int, b: int, r: int, n: int)
    requires v == q && n == b * q + r
    ensures v * b + r == n
  {
  }

  /** Every character is a digit of the base: its value lies in 0 to `base - 1`. */
  predicate AllDigitsIn(s: seq<char>, base: int) {
    forall i | 0 <= i < |s| :: 0 <= DigitValue(s[i]) < base
  }

  /** The digits of a nonnegative value are digits of the base. */
  lemma {:induction false} HighDigitsInBase(n: nat, base: int)
    requires 2 <= base <= 36
    ensures AllDigitsIn(HighDigits(n, base), base)
    decreases n
  {
    if n > 0 {
      QuotientShrinks(n, base);
      HighDigitsInBase(Quot(n, base), base);
      var r := Rem(n, base);
      assert DigitValue(DigitOf(r)) == r;
    }
  }

  /**
   * As written, a negative value in a base other than 10 keeps its sign
   * through the loop, so the remainders are negative and the "digits" fall
   * below '0': -1 in base 16 comes out as "/", which is no digit and reads
   * back as -1.
   */
  lemma ItoaNegativeNonDecimal()
    ensures ItoaText(-1, 16) == ['/']
    ensures !AllDigitsIn(ItoaText(-1, 16), 16) && ValueIn(ItoaText(-1, 16), 16) == -1
  {
    assert Quot(1, 16) == 0 && Rem(1, 16) == 1;
    assert HighDigits(0, 16) == [];
    assert DigitValue('/') == -1;
    assert ['/'][..0] == [];
    assert ValueIn(['/'], 16) == ValueIn([], 16) * 16 + DigitValue('/');
  }

  /**
   * `itoa` as the conventional contract has it: a negative value in a base
   * other than 10 is written as its 32-bit two's-complement pattern, read
   * unsigned; everything else as `ItoaText`.
   */
  function UnsignedItoaText(num: int, base: int): (t: seq<char>)
    requires IsInt(num) && 2 <= base <= 36
    ensures num >= 0 || base == 10 ==> t == ItoaText(num, base)
  {
    if num < 0 && base != 10 then HighDigits(num + U32_MOD, base) else ItoaText(num, base)
  }

  /**
   * Outside base 10 the corrected text consists of digits of the base and
   * reads back as the value's unsigned 32-bit pattern.
   */
  lemma UnsignedItoaRoundTrip(num: int, base: int)
    requires IsInt(num) && 2 <= base <= 36 && base != 10 && num != 0
    ensures AllDigitsIn(UnsignedItoaText(num, base), base)
    ensures ValueIn(UnsignedItoaText(num, base), base) == num % U32_MOD
  {
    var m := num % U32_MOD;
    assert m == (if num < 0 then num + U32_MOD else num);
    HighDigitsInBase(m, base);
    HighDigitsValue(m, base);
  }

  /**
   * `itoa`: the digits stored least significant first with C's `%` and
   * `/`, then '-' for a negative base-10 value, the terminator, and the
   * in-place reversal; the buffer then holds `ItoaText` and a NUL.
   */
  method Itoa(num: int, str: array<char>, base: int)
    requires 2 <= base <= 36 && !(num == INT_MIN && base == 10)
    requires |ItoaText(num, base)| < str.Length
    modifies str
    ensures var t := ItoaText(num, base);
      str[..|t|] == t && str[|t|] == '\0' && str[|t| + 1..] == old(str[|t| + 1..])
  {
    if num == 0 {
      str[0] := '0';
      str[1] := '\0';
      return;
    }
    ItoaNonzero(num, str, base);
  }

  /** `itoa` past its zero check: the digit loop, the sign, the terminator and the reversal. */
  method ItoaNonzero(num: int, str: array<char>, base: int)
    requires 2 <= base <= 36 && !(num == INT_MIN && base == 10) && num != 0
    requires |ItoaText(num, base)| < str.Length
    modifies str
    ensures var t := ItoaText(num, base);
      str[..|t|] == t && str[|t|] == '\0' && str[|t| + 1..] == old(str[|t| + 1..])
  {
    var negative := num < 0 && base == 10;
    var n := if negative then -num else num;
    ghost var sign: seq<char> := if negative then ['-'] else [];
    ItoaReversed(num, base);
    ghost var s0 := str[..];
    var i := StoreDigits(str, n, base);
    ghost var s1 := str[..];
    Finish(str, i, negative, sign);
    Assemble(s0, s1, str[..], LowDigits(n, base), sign, ItoaText(num, base));
  }

  /**
   * The buffer states of `itoa`: digits stored over `s0` give `s1`; sign,
   * terminator and reversal give `s2`, which then holds the text and a NUL
   * over the rest of `s0`.
   */
  lemma Assemble(s0: seq<char>, s1: seq<char>, s2: seq<char>, digits: seq<char>, sign: seq<char>, t: seq<char>)
    requires |s0| == |s1| == |s2| && t == Reverse(digits + sign) && |t| < |s0|
    requires s1[..|digits|] == digits && s1[|digits|..] == s0[|digits|..]
    requires s2[..|t|] == Reverse(s1[..|digits|] + sign) && s2[|t|] == '\0' && s2[|t| + 1..] == s1[|t| + 1..]
    ensures s2[..|t|] == t && s2[|t|] == '\0' && s2[|t| + 1..] == s0[|t| + 1..]
  {
    var i := |digits|;
    assert s1[|t| + 1..] == s1[i..][|t| + 1 - i..];
    assert s0[|t| + 1..] == s0[i..][|t| + 1 - i..];
  }

  /** For a nonzero value, `itoa`'s text is its stored digits and sign, reversed. */
  lemma ItoaReversed(num: int, base: int)
    requires 2 <= base <= 36 && num != 0
    ensures var negative := num < 0 && base == 10;
      ItoaText(num, base) == Reverse(LowDigits(if negative then -num else num, base) + (if negative then ['-'] else []))
  {
    if num < 0 && base == 10 {
      LowDigitsReversed(-num, base);
      ReverseSnoc(LowDigits(-num, base), '-');
    } else {
      LowDigitsReversed(num, base);
      assert LowDigits(num, base) + [] == LowDigits(num, base);
    }
  }

  /**
   * The end of `itoa`: '-' after the digits of a negative base-10 value,
   * the terminator, and the reversal of the characters before it.
   */
  method Finish(str: array<char>, i: nat, negative: bool, ghost sign: seq<char>)
    requires sign == (if negative then ['-'] else []) && i + |sign| < str.Length
    modifies str
    ensures var stored := old(str[..i]) + sign;
      && str[..|stored|] == Reverse(stored) && str[|stored|] == '\0'
      && str[|stored| + 1..] == old(str[|stored| + 1..])
  {
    ghost var stored := old(str[..i]) + sign;
    var len := i;
    if negative {
      str[len] := '-';
      len := len + 1;
    }
    assert str[..len] == stored && str[len + 1..] == old(str[len + 1..]);
    str[len] := '\0';
    ghost var terminated := str[..];
    ReverseInPlace(str, len);
    Reversed(terminated, str[..], len);
  }

  /** What reversing the first `len` cells keeps: the cell at `len` and everything after it. */
  lemma Reversed(before: seq<char>, after: seq<char>, len: nat)
    requires len < |before| == |after| && after[len..] == before[len..]
    ensures after[len] == before[len] && after[len + 1..] == before[len + 1..]
  {
    assert after[len] == after[len..][0];
    assert after[len + 1..] == after[len..][1..];
    assert before[len + 1..] == before[len..][1..];
  }

  /**
   * `itoa`'s loop, which stores the digit of the remainder and divides by
   * the base until the value is 0: the digits of `n`, least significant first.
   */
  method StoreDigits(str: array<char>, n: int, base: int) returns (i: nat)
    requires 2 <= base <= 36 && |LowDigits(n, base)| <= str.Length
    modifies str
    ensures i == |LowDigits(n, base)| && str[..i] == LowDigits(n, base) && str[i..] == old(str[i..])
  {
    ghost var digits := LowDigits(n, base);
    var v := n;
    i := 0;
    while v != 0
      invariant i <= |digits| && LowDigits(v, base) == digits[i..]
      invariant str[..i] == digits[..i] && str[i..] == old(str[i..])
      decreases Abs(v)
    {
      LowDigitsStep(v, base);
      var rem := CRem(v, base);
      ghost var prev := str[..];
      str[i] := if rem > 9 then (rem - 10 + 'a' as int) as char else (rem + '0' as int) as char;
      Stored(prev, str[..], i);
      i := i + 1;
      v := CQuot(v, base);
    }
  }

  /** A store at cell `i` leaves the cells after it as they were. */
  lemma Stored(before: seq<char>, after: seq<char>, i: nat)
    requires i < |before| == |after| && after == before[i := after[i]]
    ensures after[i + 1..] == before[i + 1..] && after[..i] == before[..i]
  {
  }

  /** One turn of the digit loop: the next stored digit, and the rest from the quotient. */
  lemma LowDigitsStep(v: int, base: int)
    requires 2 <= base <= 36 && v != 0
    ensures LowDigits(v, base) == [DigitOf(CRem(v, base))] + LowDigits(CQuot(v, base), base)
    ensures Abs(CQuot(v, base)) < Abs(v)
  {
    QuotientShrinks(v, base);
  }

  /**
   * The text this `sprintf` writes, in full: ordinary characters copied;
   * `%d` and `%i` through `itoa` in base 10; `%s` a string argument; `%c`
   * an `int` argument's low byte; "%%" a '%'; any other character after '%'
   * both characters. A null `%s`, a missing or mistyped argument, `INT_MIN`
   * and a '%' at the very end (which copies the terminator and reads past
   * it) make the rest undefined.
   */
  function SprintfRender(format: seq<char>, args: seq<Arg>): Rendering
    decreases |format|
  {
    if format == [] then Rendering([], true)
    else if format[0] != '%' then Prepend([format[0]], SprintfRender(format[1..], args))
    else if |format| == 1 then Undefined
    else if format[1] == 'd' || format[1] == 'i' then
      if args != [] && args[0].Int? && IsInt(args[0].i) && args[0].i != INT_MIN
      then Prepend(ItoaText(args[0].i, 10), SprintfRender(format[2..], args[1..]))
      else Undefined
    else if format[1] == 's' then
      if args != [] && args[0].Str? && args[0].s.Some?
      then Prepend(args[0].s.value, SprintfRender(format[2..], args[1..]))
      else Undefined
    else if format[1] == 'c' then
      if args != [] && args[0].Int? && IsInt(args[0].i)
      then Prepend([(args[0].i % 0x100) as char], SprintfRender(format[2..], args[1..]))
      else Undefined
    else if format[1] == '%' then Prepend(['%'], SprintfRender(format[2..], args))
    else Prepend(['%', format[1]], SprintfRender(format[2..], args))
  }

  /**
   * Where both are defined, `sprintf` and `vsnprintf` with room to spare
   * agree on formats whose conversions are only `%d` and `%s` with non-null
   * strings.
   */
  lemma {:induction false} SprintfMatchesVsnprintf(format: seq<char>, args: seq<Arg>)
    requires SprintfRender(format, args).defined
    requires forall j | 0 <= j < |format| :: format[j] == '%' ==> j + 1 < |format| && format[j + 1] in {'d', 's'}
    ensures Render(format, args) == SprintfRender(format, args)
    decreases |format|
  {
    if format != [] {
      if format[0] != '%' {
        SprintfMatchesVsnprintf(format[1..], args);
      } else {
        assert format[1] in {'d', 's'};
        var rest := format[2..];
        assert forall j | 0 <= j < |rest| :: rest[j] == format[j + 2];
        if format[1] == 'd' {
          ItoaDecimal(args[0].i);
        }
        SprintfMatchesVsnprintf(rest, args[1..]);
      }
    }
  }

  /**
   * `sprintf`: the whole rendered text and a NUL, with no bound but the
   * buffer the caller provides; the count of characters is returned.
   */
  method Sprintf(str: array<char>, format: seq<char>, args: seq<Arg>) returns (r: int)
    requires IsCStr(format) && ArgsAreCStrs(args)
    requires SprintfRender(format, args).defined && |SprintfRender(format, args).text| < str.Length
    modifies str
    ensures var t := SprintfRender(format, args).text;
      r == |t| && str[..|t|] == t && str[|t|] == '\0' && str[|t| + 1..] == old(str[|t| + 1..])
  {
    ghost var full := SprintfRender(format, args).text;
    var written: nat, i: nat, k: nat := 0, 0, 0;
    while i < |format|
      invariant i <= |format| && k <= |args| && written <= |full|
      invariant SprintfRender(format, args) == Prepend(str[..written], SprintfRender(format[i..], args[k..]))
      invariant str[written..] == old(str[written..])
      decreases |format| - i
    {
      i, k, written := SprintfStep(str, format, args, i, k, written, SprintfRender(format, args));
    }
    str[written] := '\0';
    r := written;
  }

  /** One turn of `sprintf`'s loop: a plain character or one conversion, written in full. */
  method SprintfStep(str: array<char>, format: seq<char>, args: seq<Arg>, i: nat, k: nat, pos: nat,
                     ghost full: Rendering) returns (i': nat, k': nat, pos': nat)
    requires full.defined && |full.text| < str.Length && ArgsAreCStrs(args)
    requires i < |format| && k <= |args| && pos <= |full.text|
    requires full == Prepend(str[..pos], SprintfRender(format[i..], args[k..]))
    modifies str
    ensures i < i' <= |format| && k' <= |args| && pos <= pos' <= |full.text|
    ensures full == Prepend(str[..pos'], SprintfRender(format[i'..], args[k'..]))
    ensures str[pos'..] == old(str[pos'..])
  {
    ghost var a := str[..pos];
    if format[i] != '%' {
      str[pos] := format[i];
      assert format[i..][1..] == format[i + 1..];
      assert str[..pos + 1] == a + [format[i]];
      return i + 1, k, pos + 1;
    }
    i', k', pos' := SprintfConversion(str, format, args, i, k, pos, full);
  }

  /** A conversion of `sprintf`, from the '%' to the character after it. */
  method SprintfConversion(str: array<char>, format: seq<char>, args: seq<Arg>, i: nat, k: nat, pos: nat,
                           ghost full: Rendering) returns (i': nat, k': nat, pos': nat)
    requires full.defined && |full.text| < str.Length && ArgsAreCStrs(args)
    requires i < |format| && format[i] == '%' && k <= |args| && pos <= |full.text|
    requires full == Prepend(str[..pos], SprintfRender(format[i..], args[k..]))
    modifies str
    ensures i < i' <= |format| && k' <= |args| && pos <= pos' <= |full.text|
    ensures full == Prepend(str[..pos'], SprintfRender(format[i'..], args[k'..]))
    ensures str[pos'..] == old(str[pos'..])
  {
    ghost var a := str[..pos];
    SprintfUnfold(format, args, i, k);
    var c := format[i + 1];
    ghost var t: seq<char>;
    i' := i + 2;
    if c == 'd' || c == 'i' {
      ItoaDecimal(args[k].i);
      t := SignedDecimal(args[k].i);
      pos' := PutItoa(str, pos, args[k].i);
      k' := k + 1;
    } else if c == 's' {
      t := args[k].s.value;
      pos' := PutAll(str, pos, args[k].s.value);
      k' := k + 1;
    } else if c == 'c' {
      t := [(args[k].i % 0x100) as char];
      str[pos] := (args[k].i % 0x100) as char;
      pos', k' := pos + 1, k + 1;
    } else if c == '%' {
      t := ['%'];
      str[pos] := '%';
      pos', k' := pos + 1, k;
    } else {
      t := ['%', c];
      str[pos] := '%';
      str[pos + 1] := c;
      pos', k' := pos + 2, k;
    }
    assert str[..pos'] == a + t;
    Shift(full, a, t, SprintfRender(format[i'..], args[k'..]), str[..pos']);
  }

  /** Once `t` follows `a` in the buffer, the rest of the rendering is what remains to be written. */
  lemma Shift(full: Rendering, a: seq<char>, t: seq<char>, rest: Rendering, now: seq<char>)
    requires full == Prepend(a, Prepend(t, rest)) && now == a + t
    ensures full == Prepend(now, rest) && |now| <= |full.text|
  {
    assert a + (t + rest.text) == (a + t) + rest.text;
  }

  /** The rendering from a '%', case by case, in terms of the rest of the format and of the arguments. */
  lemma SprintfUnfold(format: seq<char>, args: seq<Arg>, i: nat, k: nat)
    requires i < |format| && format[i] == '%' && k <= |args|
    ensures var r := SprintfRender(format[i..], args[k..]);
      && (i + 1 == |format| ==> r == Undefined)
      && (i + 1 < |format| && format[i + 1] in {'d', 'i'} ==>
            r == if k < |args| && args[k].Int? && IsInt(args[k].i) && args[k].i != INT_MIN
                 then Prepend(ItoaText(args[k].i, 10), SprintfRender(format[i + 2..], args[k + 1..])) else Undefined)
      && (i + 1 < |format| && format[i + 1] == 's' ==>
            r == if k < |args| && args[k].Str? && args[k].s.Some?
                 then Prepend(args[k].s.value, SprintfRender(format[i + 2..], args[k + 1..])) else Undefined)
      && (i + 1 < |format| && format[i + 1] == 'c' ==>
            r == if k < |args| && args[k].Int? && IsInt(args[k].i)
                 then Prepend([(args[k].i % 0x100) as char], SprintfRender(format[i + 2..], args[k + 1..]))
                 else Undefined)
      && (i + 1 < |format| && format[i + 1] == '%' ==> r == Prepend(['%'], SprintfRender(format[i + 2..], args[k..])))
      && (i + 1 < |format| && format[i + 1] !in {'d', 'i', 's', 'c', '%'} ==>
            r == Prepend(['%', format[i + 1]], SprintfRender(format[i + 2..], args[k..])))
  {
    var f := format[i..];
    if i + 1 < |format| {
      assert f[2..] == format[i + 2..];
      if k < |args| {
        assert args[k..][1..] == args[k + 1..];
      }
    }
  }

  /** An `int`'s decimal text takes at most eleven characters, sign included. */
  lemma SignedWidth(num: int)
    requires IsInt(num)
    ensures |SignedDecimal(num)| <= 11
  {
    DecimalWidth(Abs(num));
    if num < 0 {
      assert SignedDecimal(num) == ['-'] + Decimal(-num);
    }
  }

  /** `%d` and `%i`: `itoa` into a local 32-character buffer, then its string appended. */
  method PutItoa(str: array<char>, pos: nat, num: int) returns (pos': nat)
    requires IsInt(num) && num != INT_MIN && pos + |SignedDecimal(num)| < str.Length
    modifies str
    ensures pos' == pos + |SignedDecimal(num)|
    ensures str[..pos'] == old(str[..pos]) + SignedDecimal(num) && str[pos'..] == old(str[pos'..])
  {
    var numBuffer := new char[32];
    ghost var t := SignedDecimal(num);
    SignedWidth(num);
    ItoaDecimal(num);
    Itoa(num, numBuffer, 10);
    assert numBuffer[..|t|] == t && numBuffer[|t|] == '\0';
    pos' := PutString(str, pos, numBuffer, t);
  }

  /** The copy of `itoa`'s number buffer up to its terminator: the buffer's string appended. */
  method PutString(str: array<char>, pos: nat, buf: array<char>, ghost t: seq<char>) returns (pos': nat)
    requires |t| < buf.Length && buf[..|t|] == t && buf[|t|] == '\0' && IsCStr(t)
    requires pos + |t| < str.Length && str != buf
    modifies str
    ensures pos' == pos + |t| && str[..pos'] == old(str[..pos]) + t && str[pos'..] == old(str[pos'..])
  {
    var p := 0;
    while buf[p] != '\0'
      invariant p <= |t| && str[..pos + p] == old(str[..pos]) + t[..p] && str[pos + p..] == old(str[pos + p..])
      decreases |t| - p
    {
      str[pos + p] := buf[p];
      assert t[..p + 1] == t[..p] + [buf[p]];
      p := p + 1;
    }
    assert t[..p] == t;
    pos' := pos + p;
  }

  /** The `%s` copy loop of `sprintf`: a string argument appended whole, with no bound. */
  method PutAll(str: array<char>, pos: nat, s: seq<char>) returns (pos': nat)
    requires pos + |s| < str.Length
    modifies str
    ensures pos' == pos + |s| && str[..pos'] == old(str[..pos]) + s && str[pos'..] == old(str[pos'..])
  {
    for j := 0 to |s|
      invariant str[..pos + j] == old(str[..pos]) + s[..j] && str[pos + j..] == old(str[pos + j..])
    {
      str[pos + j] := s[j];
      assert s[..j + 1] == s[..j] + [s[j]];
    }
    assert s[..|s|] == s;
    pos' := pos + |s|;
  }
}
