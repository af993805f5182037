/**
 * The release draft's string library: byte copies and fills over raw
 * memory, bounded string copy, control-character test and a small
 * `vsnprintf` with `%s`, `%d` and `%zu`. (`strlen` and `strcmp` are the
 * same loops as the first draft's and live in `CStrings`.)
 *
 * Raw memory is an array of bytes and a C string buffer an array of
 * characters; a pointer is the array plus an offset where the routine
 * allows its two operands to overlap.
 */
module ReleaseString {
  import opened Common
  import opened CStrings
  import opened Formatting

  /** `memcpy`: the first `n` bytes of `src` into `dest`; distinct buffers (overlap is undefined). */
  method Memcpy(dest: array<byte>, src: array<byte>, n: nat)
    requires n <= dest.Length && n <= src.Length && dest != src
    modifies dest
    ensures dest[..n] == src[..n] && dest[n..] == old(dest[n..])
  {
    for i := 0 to n
      invariant dest[..i] == src[..i] && dest[i..] == old(dest[i..])
    {
      dest[i] := src[i];
      assert dest[..i + 1] == dest[..i] + [src[i]];
    }
  }

  /**
   * `memmove` within one buffer: the `n` bytes at `src` end up at `dest`
   * as they were before the call, however the two ranges overlap (copying
   * forwards when `dest` is below `src`, backwards otherwise); bytes outside
   * the destination range keep their values.
   */
  method Memmove(buf: array<byte>, dest: nat, src: nat, n: nat)
    requires dest + n <= buf.Length && src + n <= buf.Length
    modifies buf
    ensures buf[dest..dest + n] == old(buf[src..src + n])
    ensures buf[..dest] == old(buf[..dest]) && buf[dest + n..] == old(buf[dest + n..])
  {
    if dest < src {
      for i := 0 to n
        invariant forall j | dest <= j < dest + i :: buf[j] == old(buf[j - dest + src])
        invariant forall j | 0 <= j < buf.Length && !(dest <= j < dest + i) :: buf[j] == old(buf[j])
      {
        buf[dest + i] := buf[src + i];
      }
    } else {
      var i := n;
      while i > 0
        invariant 0 <= i <= n
        invariant forall j | dest + i <= j < dest + n :: buf[j] == old(buf[j - dest + src])
        invariant forall j | 0 <= j < buf.Length && !(dest + i <= j < dest + n) :: buf[j] == old(buf[j])
      {
        buf[dest + i - 1] := buf[src + i - 1];
        i := i - 1;
      }
    }
  }

  /** `memset`: `n` bytes set to `(uint8_t)val`, the low byte of the value; the rest kept. */
  method Memset(dest: array<byte>, val: int, n: nat)
    requires n <= dest.Length
    modifies dest
    ensures forall i | 0 <= i < n :: dest[i] == val % 0x100
    ensures dest[n..] == old(dest[n..])
  {
    for i := 0 to n
      invariant forall j | 0 <= j < i :: dest[j] == val % 0x100
      invariant dest[i..] == old(dest[i..])
    {
      dest[i] := val % 0x100;
    }
  }

  /**
   * `strncpy`: exactly `n` cells of `dest` written, the source string cut at
   * `n` and then NUL padding; the destination is a terminated copy exactly
   * when the source is shorter than `n` (see `CStrings.PaddedTerminated`).
   */
  method Strncpy(dest: array<char>, src: array<char>, n: nat)
    requires n <= dest.Length && dest != src && '\0' in src[..]
    modifies dest
    ensures dest[..n] == Padded(CString(src[..]), n)
    ensures dest[n..] == old(dest[n..])
  {
    ghost var s := CString(src[..]);
    var i := 0;
    while i < n && src[i] != '\0'
      invariant i <= n && i <= |s| && dest[..i] == s[..i] && dest[n..] == old(dest[n..])
    {
      dest[i] := src[i];
      assert dest[..i + 1] == dest[..i] + [s[i]];
      i := i + 1;
    }
    ghost var copied := i;
    assert copied == Min(|s|, n);
    while i < n
      invariant copied <= i <= n && dest[..copied] == s[..copied] && dest[n..] == old(dest[n..])
      invariant forall j | copied <= j < i :: dest[j] == '\0'
    {
      dest[i] := '\0';
      i := i + 1;
    }
    assert forall j | 0 <= j < n :: dest[..n][j] == Padded(s, n)[j];
  }

  /** `iscntrl`: the C control characters, 0 to 31 and DEL. */
  function Iscntrl(c: int): bool {
    (0 <= c < 32) || c == 127
  }

  /** The control characters are exactly the 7-bit codes that are not printable (space to '~'). */
  lemma ControlIsNotPrintable(c: int)
    ensures Iscntrl(c) <==> 0 <= c < 128 && !(' ' as int <= c <= '~' as int)
  {
  }

  /**
   * The text this `vsnprintf` renders, in full: ordinary characters are
   * copied; `%s` copies a string argument; `%d` writes an `int` as '-' and
   * the digits of its magnitude; `%z` skips the next character (the 'u')
   * and writes a `size_t` in decimal; any other conversion character, '%'
   * included, writes nothing and uses no argument. A '%' or "%z" at the very
   * end reads past the terminator, as do a null `%s`, a missing or mistyped
   * argument and `INT_MIN`: those make the rest undefined.
   */
  function Render(format: seq<char>, args: seq<Arg>): Rendering
    decreases |format|
  {
    if format == [] then Rendering([], true)
    else if format[0] != '%' then Prepend([format[0]], Render(format[1..], args))
    else if |format| == 1 then Undefined
    else if format[1] == 's' then
      if args != [] && args[0].Str? && args[0].s.Some? then Prepend(args[0].s.value, Render(format[2..], args[1..]))
      else Undefined
    else if format[1] == 'd' then
      if args != [] && args[0].Int? && IsInt(args[0].i) && args[0].i != INT_MIN
      then Prepend(SignedDecimal(args[0].i), Render(format[2..], args[1..]))
      else Undefined
    else if format[1] == 'z' then
      if |format| > 2 && args != [] && args[0].Size? && args[0].n < U32_MOD
      then Prepend(Decimal(args[0].n), Render(format[3..], args[1..]))
      else Undefined
    else Render(format[2..], args)
  }

  /** A format without '%' renders as itself, whatever the arguments. */
  lemma {:induction false} PlainText(format: seq<char>, args: seq<Arg>)
    requires '%' !in format
    ensures Render(format, args) == Rendering(format, true)
    decreases |format|
  {
    if format != [] {
      PlainText(format[1..], args);
      assert format == [format[0]] + format[1..];
    }
  }

  /** "%%" and any other unknown conversion print nothing and consume no argument. */
  lemma {:induction false} UnknownConversionSilent(c: char, rest: seq<char>, args: seq<Arg>)
    requires c !in {'s', 'd', 'z'}
    ensures Render(['%', c] + rest, args) == Render(rest, args)
  {
    assert (['%', c] + rest)[2..] == rest;
  }

  /** The `%s` loop: characters of the argument while any remain and there is room. */
  method PutChars(str: array<char>, pos: nat, size: nat, s: seq<char>) returns (pos': nat)
    requires pos < size <= str.Length
    modifies str
    ensures Clipped(str[..], old(str[..]), pos, s, size, pos')
  {
    var j := 0;
    pos' := pos;
    while j < |s| && pos' < size - 1
      invariant j <= |s| && pos' == pos + j && pos' <= size - 1
      invariant str[..pos'] == old(str[..pos]) + s[..j] && str[pos'..] == old(str[pos'..])
    {
      str[pos'] := s[j];
      assert s[..j + 1] == s[..j] + [s[j]];
      pos', j := pos' + 1, j + 1;
    }
    assert s[..j] == (old(str[..pos]) + s)[pos..pos'];
  }

  /**
   * `vsnprintf` (and `snprintf`, which only gathers its arguments for it):
   * size 0 writes nothing and returns 0; otherwise the rendered text cut at
   * `size - 1` characters, NUL-terminated, with its length returned.
   */
  method Vsnprintf(str: array<char>, size: nat, format: seq<char>, args: seq<Arg>) returns (r: int)
    requires size <= str.Length && IsCStr(format) && ArgsAreCStrs(args)
    requires size > 0 ==> Fits(Render(format, args), size)
    modifies str
    ensures size == 0 ==> r == 0 && str[..] == old(str[..])
    ensures size > 0 ==> Printed(str[..], old(str[..]), Render(format, args).text, size, r)
  {
    if size == 0 {
      return 0;
    }
    ghost var full := Render(format, args);
    var pos: nat, i: nat, k: nat := 0, 0, 0;
    while i < |format| && pos < size - 1
      invariant i <= |format| && k <= |args| && pos <= size - 1
      invariant pos <= |full.text| && str[..pos] == full.text[..pos]
      invariant pos < size - 1 ==> full == Prepend(str[..pos], Render(format[i..], args[k..]))
      invariant str[pos..] == old(str[pos..])
      decreases |format| - i
    {
      i, k, pos := Conversion(str, size, format, args, i, k, pos, full);
    }
    str[pos] := '\0';
    r := pos;
  }

  /** One turn of `vsnprintf`'s loop: a plain character, or one conversion. */
  method Conversion(str: array<char>, size: nat, format: seq<char>, args: seq<Arg>, i: nat, k: nat, pos: nat,
                    ghost full: Rendering) returns (i': nat, k': nat, pos': nat)
    requires size <= str.Length && ArgsAreCStrs(args) && Fits(full, size)
    requires i < |format| && k <= |args| && pos < size - 1
    requires full == Prepend(str[..pos], Render(format[i..], args[k..]))
    modifies str
    ensures i < i' <= |format| && k' <= |args| && pos <= pos' <= size - 1
    ensures pos' <= |full.text| && str[..pos'] == full.text[..pos']
    ensures pos' < size - 1 ==> full == Prepend(str[..pos'], Render(format[i'..], args[k'..]))
    ensures str[pos'..] == old(str[pos'..])
  {
    ghost var before := str[..];
    ghost var a := str[..pos];
    if format[i] != '%' {
      str[pos] := format[i];
      assert format[i..][1..] == format[i + 1..];
      Advance(full, a, [format[i]], Render(format[i + 1..], args[k..]), before, str[..], pos, size, pos + 1);
      return i + 1, k, pos + 1;
    }
    i', k', pos' := Directive(str, size, format, args, i, k, pos, full);
  }

  /** The turn of `vsnprintf`'s loop at a '%': `%s`, `%d`, `%zu`, or a silently skipped conversion. */
  method Directive(str: array<char>, size: nat, format: seq<char>, args: seq<Arg>, i: nat, k: nat, pos: nat,
                   ghost full: Rendering) returns (i': nat, k': nat, pos': nat)
    requires size <= str.Length && ArgsAreCStrs(args) && Fits(full, size)
    requires i < |format| && format[i] == '%' && k <= |args| && pos < size - 1
    requires full == Prepend(str[..pos], Render(format[i..], args[k..]))
    modifies str
    ensures i < i' <= |format| && k' <= |args| && pos <= pos' <= size - 1
    ensures pos' <= |full.text| && str[..pos'] == full.text[..pos']
    ensures pos' < size - 1 ==> full == Prepend(str[..pos'], Render(format[i'..], args[k'..]))
    ensures str[pos'..] == old(str[pos'..])
  {
    ghost var before := str[..];
    ghost var a := str[..pos];
    Unfold(format, args, i, k);
    var c := format[i + 1];
    if c == 's' {
      pos' := PutChars(str, pos, size, args[k].s.value);
      Advance(full, a, args[k].s.value, Render(format[i + 2..], args[k + 1..]), before, str[..], pos, size, pos');
      return i + 2, k + 1, pos';
    } else if c == 'd' {
      pos' := PutSigned(str, pos, size, args[k].i, 32);
      Advance(full, a, SignedDecimal(args[k].i), Render(format[i + 2..], args[k + 1..]), before, str[..], pos, size, pos');
      return i + 2, k + 1, pos';
    } else if c == 'z' {
      pos' := PutMagnitude(str, pos, size, args[k].n, 32);
      Advance(full, a, Decimal(args[k].n), Render(format[i + 3..], args[k + 1..]), before, str[..], pos, size, pos');
      return i + 3, k + 1, pos';
    }
    return i + 2, k, pos;
  }

  /**
   * What the rendering from a '%' is, case by case, in terms of the rest of
   * the format and of the arguments (a trailing '%' or a missing or unusable
   * argument being the undefined cases).
   */
  lemma Unfold(format: seq<char>, args: seq<Arg>, i: nat, k: nat)
    requires i < |format| && format[i] == '%' && k <= |args|
    ensures var r := Render(format[i..], args[k..]);
      && (i + 1 == |format| ==> r == Undefined)
      && (i + 1 < |format| && format[i + 1] == 's' ==>
            r == if k < |args| && args[k].Str? && args[k].s.Some?
                 then Prepend(args[k].s.value, Render(format[i + 2..], args[k + 1..])) else Undefined)
      && (i + 1 < |format| && format[i + 1] == 'd' ==>
            r == if k < |args| && args[k].Int? && IsInt(args[k].i) && args[k].i != INT_MIN
                 then Prepend(SignedDecimal(args[k].i), Render(format[i + 2..], args[k + 1..])) else Undefined)
      && (i + 1 < |format| && format[i + 1] == 'z' ==>
            r == if i + 2 < |format| && k < |args| && args[k].Size? && args[k].n < U32_MOD
                 then Prepend(Decimal(args[k].n), Render(format[i + 3..], args[k + 1..])) else Undefined)
      && (i + 1 < |format| && format[i + 1] !in {'s', 'd', 'z'} ==> r == Render(format[i + 2..], args[k..]))
  {
    var f := format[i..];
    if i + 1 < |format| {
      assert f[2..] == format[i + 2..];
      if i + 2 < |format| {
        assert f[3..] == format[i + 3..];
      }
      if k < |args| {
        assert args[k..][1..] == args[k + 1..];
      }
    }
  }
}
