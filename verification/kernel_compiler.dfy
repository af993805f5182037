/**
 * The first draft's toy assembler: `tokenize_line` turns one line of text
 * into an `Instruction` (only `nop`, `push N` and `ret` are recognised;
 * blank lines and `#`/`;` comments are no-ops), and `compile_code` splits a
 * source into lines, tokenizes each, and copies the instruction records into
 * a freshly allocated binary. The allocator is a collaborator whose answer
 * (grant or refuse a nonzero request) is a parameter; a zero-byte request
 * is refused, as both drafts' allocators do.
 */
module KernelCompiler {
  import opened Common
  import opened CStrings
  import opened TextLines

  const OP_NOP: byte := 0x00
  const OP_PUSH: byte := 0x01
  const OP_POP: byte := 0x02
  const OP_ADD: byte := 0x03
  const OP_SUB: byte := 0x04
  const OP_MUL: byte := 0x05
  const OP_DIV: byte := 0x06
  const OP_RET: byte := 0x07
  const OP_INT: byte := 0x08

  /** `struct Instruction`: an opcode, four operand bytes and the count of operands in use. */
  datatype Instruction = Instruction(opcode: byte, operands: seq<byte>, operandCount: byte)

  /** The record `tokenize_line` starts from, and what a no-op line leaves. */
  const Nop: Instruction := Instruction(OP_NOP, [0, 0, 0, 0], 0)

  predicate IsBlank(c: char) {
    c == ' ' || c == '\t'
  }

  /** The number of spaces and tabs the text starts with. */
  function BlankRun(s: seq<char>): (n: nat)
    ensures n <= |s| && (n == |s| || !IsBlank(s[n]))
    ensures forall i | 0 <= i < n :: IsBlank(s[i])
  {
    if s != [] && IsBlank(s[0]) then 1 + BlankRun(s[1..]) else 0
  }

  /** A run of `m` blanks followed by a non-blank (or the end) is the blank run. */
  lemma BlankRunIs(s: seq<char>, m: nat)
    requires m <= |s| && (m == |s| || !IsBlank(s[m]))
    requires forall i | 0 <= i < m :: IsBlank(s[i])
    ensures BlankRun(s) == m
  {
  }

  /** The text after its leading spaces and tabs. */
  function SkipBlanks(s: seq<char>): seq<char> {
    s[BlankRun(s)..]
  }

  /** The number of decimal digits the text starts with. */
  function DigitRun(s: seq<char>): (n: nat)
    ensures n <= |s| && (n == |s| || !IsDigit(s[n]))
    ensures forall i | 0 <= i < n :: IsDigit(s[i])
  {
    if s != [] && IsDigit(s[0]) then 1 + DigitRun(s[1..]) else 0
  }

  /** A run of `m` digits followed by a non-digit (or the end) is the digit run. */
  lemma DigitRunIs(s: seq<char>, m: nat)
    requires m <= |s| && (m == |s| || !IsDigit(s[m]))
    requires forall i | 0 <= i < m :: IsDigit(s[i])
    ensures DigitRun(s) == m
  {
  }

  /** The longest run of decimal digits the text starts with. */
  function LeadingDigits(s: seq<char>): (d: seq<char>)
    ensures AllDigits(d)
  {
    s[..DigitRun(s)]
  }

  predicate StartsWith(s: seq<char>, word: seq<char>) {
    |word| <= |s| && s[..|word|] == word
  }

  /**
   * What `tokenize_line` makes of a line's text: after leading blanks, an
   * empty line or a comment is a no-op; "nop" and "ret" at the start give
   * those opcodes; "push" gives `OP_PUSH` with one operand, the decimal
   * digits after further blanks taken modulo 256 (the operand is a
   * `uint8_t`); anything else is rejected.
   */
  function Tokenize(text: seq<char>): Option<Instruction> {
    TokenizeWord(SkipBlanks(text))
  }

  /** The same, for a text that no longer starts with blanks. */
  function TokenizeWord(t: seq<char>): Option<Instruction> {
    if t == [] || t[0] == '#' || t[0] == ';' then Some(Nop)
    else if StartsWith(t, "nop") then Some(Nop)
    else if StartsWith(t, "push") then Some(Instruction(OP_PUSH, [Operand(t[4..]), 0, 0, 0], 1))
    else if StartsWith(t, "ret") then Some(Instruction(OP_RET, [0, 0, 0, 0], 0))
    else None
  }

  /** The operand of `push`: the decimal digits after blanks, as a byte. */
  function Operand(s: seq<char>): byte {
    DecimalValue(LeadingDigits(SkipBlanks(s))) % 0x100
  }

  /** `push` followed by a number's decimal text pushes that number modulo 256. */
  lemma PushNumber(n: nat, rest: seq<char>)
    requires rest == [] || !IsDigit(rest[0])
    ensures Tokenize(" push " + Decimal(n) + rest) == Some(Instruction(OP_PUSH, [n % 0x100, 0, 0, 0], 1))
  {
    var d := Decimal(n);
    var s := "push" + ([' '] + (d + rest));
    assert " push " + d + rest == [' '] + s;
    SkipOne(' ', s);
    PushDigits(s, d, rest);
    DecimalRoundTrip(n);
  }

  /** `push`, a blank and a run of digits: the operand is the digits' value as a byte. */
  lemma PushDigits(s: seq<char>, d: seq<char>, rest: seq<char>)
    requires s == "push" + ([' '] + (d + rest))
    requires d != [] && AllDigits(d) && (rest == [] || !IsDigit(rest[0]))
    ensures TokenizeWord(s) == Some(Instruction(OP_PUSH, [DecimalValue(d) % 0x100, 0, 0, 0], 1))
  {
    assert s[4..] == [' '] + (d + rest);
    PushWord(s);
    SkipOne(' ', d + rest);
    LeadingDigitsOf(d, rest);
  }

  /** A text starting with `push` takes the `push` branch. */
  lemma PushWord(t: seq<char>)
    requires StartsWith(t, "push")
    ensures TokenizeWord(t) == Some(Instruction(OP_PUSH, [Operand(t[4..]), 0, 0, 0], 1))
  {
    assert t[0] == 'p';
  }

  /** One blank before a text that does not start with one is skipped. */
  lemma SkipOne(c: char, s: seq<char>)
    requires IsBlank(c) && (s == [] || !IsBlank(s[0]))
    ensures SkipBlanks([c] + s) == s
  {
    BlankRunIs([c] + s, 1);
  }

  /** A run of digits followed by a non-digit is read up to the non-digit. */
  lemma LeadingDigitsOf(d: seq<char>, rest: seq<char>)
    requires AllDigits(d) && (rest == [] || !IsDigit(rest[0]))
    ensures LeadingDigits(d + rest) == d
  {
    DigitRunIs(d + rest, |d|);
  }

  /** Every line whose first character after blanks opens a comment is a no-op, whatever follows. */
  lemma CommentIsNop(blanks: seq<char>, c: char, rest: seq<char>)
    requires forall i | 0 <= i < |blanks| :: IsBlank(blanks[i])
    requires c == '#' || c == ';'
    ensures Tokenize(blanks + [c] + rest) == Some(Nop)
  {
    var text := blanks + [c] + rest;
    assert text[|blanks|] == c;
    assert forall i | 0 <= i < |blanks| :: text[i] == blanks[i];
    BlankRunIs(text, |blanks|);
  }

  /** `(10 * (x mod 256) + d) mod 256` is `(10 * x + d) mod 256`: the `uint8_t` accumulator keeps the low byte. */
  lemma AccumulateLowByte(x: nat, d: nat)
    ensures (10 * (x % 0x100) + d) % 0x100 == (10 * x + d) % 0x100
  {
    var q := x / 0x100;
    assert 10 * x + d == 0x100 * (10 * q) + (10 * (x % 0x100) + d);
    ShiftMod(10 * q, 10 * (x % 0x100) + d);
  }

  lemma ShiftMod(k: nat, y: nat)
    ensures (0x100 * k + y) % 0x100 == y % 0x100
  {
  }

  /**
   * `tokenize_line` on a NUL-terminated line buffer: the record is reset to
   * a no-op first, then filled as `Tokenize` says; a rejected line returns
   * false and leaves the reset record.
   */
  method TokenizeLine(line: array<char>) returns (ok: bool, instr: Instruction)
    requires '\0' in line[..]
    ensures ok <==> Tokenize(CString(line[..])).Some?
    ensures ok ==> instr == Tokenize(CString(line[..])).value
    ensures !ok ==> instr == Nop
  {
    ghost var text := CString(line[..]);
    var p := SkipBlankChars(line, 0);
    assert text[0..] == text;
    ok, instr := TokenizeAt(line, p);
  }

  /** The branches of `tokenize_line` after the leading blanks, at index `p`. */
  method TokenizeAt(line: array<char>, p: nat) returns (ok: bool, instr: Instruction)
    requires '\0' in line[..] && p <= |CString(line[..])|
    ensures ok <==> TokenizeWord(CString(line[..])[p..]).Some?
    ensures ok ==> instr == TokenizeWord(CString(line[..])[p..]).value
    ensures !ok ==> instr == Nop
  {
    ghost var t := CString(line[..])[p..];
    instr := Nop;
    assert t == [] <==> line[p] == '\0';
    assert t != [] ==> t[0] == line[p];
    if line[p] == '\0' || line[p] == '#' || line[p] == ';' {
      return true, instr;
    }
    var isNop := Matches(line, p, "nop");
    if isNop {
      return true, Instruction(OP_NOP, instr.operands, instr.operandCount);
    }
    var isPush := Matches(line, p, "push");
    if isPush {
      var operand := PushOperand(line, p);
      return true, Instruction(OP_PUSH, [operand, 0, 0, 0], 1);
    }
    var isRet := Matches(line, p, "ret");
    if isRet {
      return true, Instruction(OP_RET, instr.operands, instr.operandCount);
    }
    return false, instr;
  }

  /** The `push` branch: skip the word and the blanks after it, then read the digits. */
  method PushOperand(line: array<char>, p: nat) returns (operand: byte)
    requires '\0' in line[..] && p + 4 <= |CString(line[..])|
    ensures operand == Operand(CString(line[..])[p..][4..])
  {
    ghost var text := CString(line[..]);
    assert text[p..][4..] == text[p + 4..];
    var q := SkipBlankChars(line, p + 4);
    assert text[q..] == SkipBlanks(text[p + 4..]);
    operand := ReadOperand(line, q);
  }

  /** The skip over spaces and tabs: the index of the text after the blanks from `p`. */
  method SkipBlankChars(line: array<char>, p: nat) returns (q: nat)
    requires '\0' in line[..] && p <= |CString(line[..])|
    ensures q == p + BlankRun(CString(line[..])[p..])
  {
    ghost var text := CString(line[..]);
    q := p;
    while line[q] == ' ' || line[q] == '\t'
      invariant p <= q <= |text| && forall i | p <= i < q :: IsBlank(text[i])
      decreases |text| - q
    {
      q := q + 1;
    }
    BlankRunIs(text[p..], q - p);
  }

  /**
   * `memcmp(line, word, |word|) == 0` as this draft's `memcmp` runs it: it
   * stops at the first difference, so it never reads past the terminator.
   */
  method Matches(line: array<char>, p: nat, word: seq<char>) returns (b: bool)
    requires '\0' in line[..] && p <= |CString(line[..])| && IsCStr(word)
    ensures b <==> StartsWith(CString(line[..])[p..], word)
  {
    ghost var text := CString(line[..]);
    var j := 0;
    while j < |word| && line[p + j] == word[j]
      invariant j <= |word| && p + j <= |text| && line[p..p + j] == word[..j]
      decreases |word| - j
    {
      assert text[p + j] == word[j];
      j := j + 1;
    }
    b := j == |word|;
    if b {
      assert text[p..][..|word|] == line[p..p + |word|];
    } else if p + |word| <= |text| {
      assert text[p..][..|word|][j] == line[p + j];
    }
  }

  /** The operand loop: the digits from `q` accumulated into a byte, each step `v * 10 + digit`. */
  method ReadOperand(line: array<char>, q: nat) returns (v: byte)
    requires '\0' in line[..] && q <= |CString(line[..])|
    ensures v == DecimalValue(LeadingDigits(CString(line[..])[q..])) % 0x100
  {
    ghost var text := CString(line[..]);
    v := 0;
    var p := q;
    while '0' <= line[p] <= '9'
      invariant q <= p <= |text| && AllDigits(text[q..p])
      invariant v == DecimalValue(text[q..p]) % 0x100
      decreases |text| - p
    {
      DigitStep(text, q, p);
      v := (v * 10 + (line[p] as int - '0' as int)) % 0x100;
      p := p + 1;
    }
    assert p < |text| ==> text[p] == line[p];
    OperandEnds(text, q, p);
  }

  /** The run stops at the first character that is not a digit, or at the end: it is the leading digits. */
  lemma OperandEnds(text: seq<char>, q: nat, p: nat)
    requires q <= p <= |text| && AllDigits(text[q..p]) && (p == |text| || !IsDigit(text[p]))
    ensures LeadingDigits(text[q..]) == text[q..p]
  {
    var rest := text[q..];
    assert rest[..p - q] == text[q..p];
    assert forall i | 0 <= i < p - q :: IsDigit(rest[i]) by {
      forall i | 0 <= i < p - q
        ensures IsDigit(rest[i])
      {
        assert rest[i] == text[q..p][i];
      }
    }
    DigitRunIs(rest, p - q);
  }

  /** One more digit: the byte accumulator follows the value of the longer run. */
  lemma DigitStep(s: seq<char>, q: nat, p: nat)
    requires q <= p < |s| && AllDigits(s[q..p]) && IsDigit(s[p])
    ensures AllDigits(s[q..p + 1])
    ensures DecimalValue(s[q..p + 1]) % 0x100 ==
      (10 * (DecimalValue(s[q..p]) % 0x100) + (s[p] as int - '0' as int)) % 0x100
  {
    assert s[q..p + 1][..p - q] == s[q..p];
    AccumulateLowByte(DecimalValue(s[q..p]), s[p] as int - '0' as int);
  }

  /**
   * The lines `compile_code` hands to the tokenizer, as written: a line ends
   * at a '\n' or at the last character of the source, the text between the
   * previous end and that position (so an unterminated last line loses its
   * final character), cut to 255 characters.
   */
  function Lines(src: seq<char>): seq<seq<char>> {
    SplitFrom(src, 0, 0)
  }

  function SplitFrom(src: seq<char>, lineStart: nat, current: nat): (lines: seq<seq<char>>)
    requires lineStart <= current <= |src|
    ensures |lines| <= |src| - current
    decreases |src| - current
  {
    if current == |src| then []
    else if src[current] == '\n' || current == |src| - 1 then
      [Clip(src[lineStart..current])] + SplitFrom(src, current + 1, current + 1)
    else SplitFrom(src, lineStart, current + 1)
  }

  /** The first 255 characters: what fits in the 256-byte line buffer with its terminator. */
  function Clip(s: seq<char>): (r: seq<char>)
    ensures |r| <= 255 && |r| <= |s| && r == s[..|r|] && (|s| <= 255 ==> r == s)
  {
    if |s| > 255 then s[..255] else s
  }

  /** Each line tokenized in order, or `None` as soon as one is rejected. */
  function TokenizeAll(texts: seq<seq<char>>): (r: Option<seq<Instruction>>)
    ensures r.Some? ==> |r.value| == |texts|
  {
    if texts == [] then Some([]) else Cons(Tokenize(texts[0]), TokenizeAll(texts[1..]))
  }

  /** The text the tokenizer sees in a line: up to its first NUL. */
  function LineText(line: seq<char>): seq<char> {
    CString(line + ['\0'])
  }

  function Texts(lines: seq<seq<char>>): (r: seq<seq<char>>)
    ensures |r| == |lines|
    ensures forall i | 0 <= i < |lines| :: r[i] == LineText(lines[i])
  {
    if lines == [] then [] else [LineText(lines[0])] + Texts(lines[1..])
  }

  /** The bytes `memcpy` copies out of an `Instruction` record: opcode, four operands, count. */
  function EncodeOne(i: Instruction): seq<byte> {
    [i.opcode] + i.operands + [i.operandCount]
  }

  /** Every record has its four operand bytes, as the C struct does. */
  predicate FourOperands(instrs: seq<Instruction>) {
    forall k | 0 <= k < |instrs| :: |instrs[k].operands| == 4
  }

  /** The binary: the records back to back, in line order. */
  function Encode(instrs: seq<Instruction>): (b: seq<byte>)
    requires FourOperands(instrs)
    ensures |b| == 6 * |instrs|
  {
    if instrs == [] then [] else EncodeOne(instrs[0]) + Encode(instrs[1..])
  }

  /** Reading records back from a binary, six bytes each. */
  function Decode(b: seq<byte>): (d: seq<Instruction>)
    requires |b| % 6 == 0
    ensures 6 * |d| == |b|
    decreases |b|
  {
    if b == [] then [] else [Instruction(b[0], b[1..5], b[5])] + Decode(b[6..])
  }

  /** The binary holds the instructions: decoding it gives them back. */
  lemma {:induction false} DecodeEncode(instrs: seq<Instruction>)
    requires FourOperands(instrs)
    ensures Decode(Encode(instrs)) == instrs
  {
    if instrs != [] {
      var b := Encode(instrs);
      assert b == EncodeOne(instrs[0]) + Encode(instrs[1..]);
      assert b[6..] == Encode(instrs[1..]);
      DecodeEncode(instrs[1..]);
      assert b[1..5] == instrs[0].operands;
    }
  }

  /** Every record the tokenizer produces has its four operand bytes. */
  lemma TokenizedWellFormed(texts: seq<seq<char>>)
    requires TokenizeAll(texts).Some?
    ensures forall k | 0 <= k < |texts| :: |TokenizeAll(texts).value[k].operands| == 4
  {
    var r := TokenizeAll(texts).value;
    forall k | 0 <= k < |texts|
      ensures |r[k].operands| == 4
    {
      TokenizeAllAt(texts, k);
    }
  }

  /** The `k`-th record is the tokenization of the `k`-th line. */
  lemma {:induction false} TokenizeAllAt(texts: seq<seq<char>>, k: nat)
    requires TokenizeAll(texts).Some? && k < |texts|
    ensures Tokenize(texts[k]) == Some(TokenizeAll(texts).value[k])
  {
    if k > 0 {
      TokenizeAllAt(texts[1..], k - 1);
    }
  }

  /** `struct CompileResult`, with the error message as the C string in its buffer. */
  datatype CompileResult = CompileResult(success: bool, message: seq<char>, binary: Option<seq<byte>>, binarySize: nat)

  /** The messages as the `memcpy` calls copy them: 40, 18, 40 and 21 characters of the literals. */
  const ALLOCATION_FAILED: seq<char> := "Failed to allocate memory for compilation"[..40]
  const INVALID_INSTRUCTION: seq<char> := "Invalid instruction"[..18]
  const BINARY_FAILED: seq<char> := "Failed to allocate memory for final binary"[..40]
  const COMPILED: seq<char> := "Compilation successful"[..21]

  /**
   * What `compile_code` returns: the instruction array is refused (it is
   * zero bytes for an empty source); the first rejected line fails with the
   * invalid-instruction message; the binary is refused (its size stays
   * set); or success with the binary holding the records in line order.
   */
  function Compile(src: seq<char>, arrayGranted: bool, binaryGranted: bool): CompileResult {
    Assemble(|src| == 0, Lines(src), arrayGranted, binaryGranted)
  }

  /** The outcome of `compile_code` once the source is split into `lines`. */
  function Assemble(empty: bool, lines: seq<seq<char>>, arrayGranted: bool, binaryGranted: bool): CompileResult {
    if empty || !arrayGranted then CompileResult(false, ALLOCATION_FAILED, None, 0)
    else match TokenizeAll(Texts(lines)) {
      case None => CompileResult(false, INVALID_INSTRUCTION, None, 0)
      case Some(instrs) =>
        TokenizedWellFormed(Texts(lines));
        if |instrs| == 0 || !binaryGranted then
          CompileResult(false, BINARY_FAILED, None, 6 * |instrs|)
        else CompileResult(true, COMPILED, Some(Encode(instrs)), 6 * |instrs|)
    }
  }

  /**
   * A successful compilation holds one record per line, each the
   * tokenization of its line, and `binary_size` is six bytes per record.
   */
  lemma CompileSuccess(src: seq<char>, arrayGranted: bool, binaryGranted: bool)
    requires Compile(src, arrayGranted, binaryGranted).success
    ensures var r := Compile(src, arrayGranted, binaryGranted);
      && r.binary.Some? && r.binarySize == |r.binary.value| == 6 * |Lines(src)|
      && forall k | 0 <= k < |Lines(src)| ::
           Tokenize(LineText(Lines(src)[k])) == Some(Decode(r.binary.value)[k])
  {
    var texts := Texts(Lines(src));
    var instrs := TokenizeAll(texts).value;
    TokenizedWellFormed(texts);
    DecodeEncode(instrs);
    forall k | 0 <= k < |Lines(src)|
      ensures Tokenize(LineText(Lines(src)[k])) == Some(instrs[k])
    {
      TokenizeAllAt(texts, k);
    }
  }

  /** Compilation fails exactly when an allocation is refused or some line is rejected. */
  lemma CompileFailure(src: seq<char>, arrayGranted: bool, binaryGranted: bool)
    ensures !Compile(src, arrayGranted, binaryGranted).success <==>
      |src| == 0 || !arrayGranted || !binaryGranted
      || exists k | 0 <= k < |Lines(src)| :: Tokenize(LineText(Lines(src)[k])).None?
  {
    var texts := Texts(Lines(src));
    if TokenizeAll(texts).Some? {
      forall k | 0 <= k < |Lines(src)|
        ensures Tokenize(LineText(Lines(src)[k])).Some?
      {
        TokenizeAllAt(texts, k);
      }
      if |src| > 0 {
        SplitCovers(src, 0, 0);
      }
    } else {
      var k := FirstRejected(texts);
      assert Tokenize(LineText(Lines(src)[k])).None?;
    }
  }

  /** When the tokenizer rejects the lines, some line is rejected. */
  lemma {:induction false} FirstRejected(texts: seq<seq<char>>) returns (k: nat)
    requires TokenizeAll(texts).None?
    ensures k < |texts| && Tokenize(texts[k]).None?
  {
    if Tokenize(texts[0]).None? {
      k := 0;
    } else {
      var k' := FirstRejected(texts[1..]);
      k := k' + 1;
    }
  }

  /** A nonempty source has at least one line: the last character always ends one. */
  lemma {:induction false} SplitCovers(src: seq<char>, lineStart: nat, current: nat)
    requires lineStart <= current < |src|
    ensures |SplitFrom(src, lineStart, current)| >= 1
    decreases |src| - current
  {
    if !(src[current] == '\n' || current == |src| - 1) {
      SplitCovers(src, lineStart, current + 1);
    }
  }

  /**
   * As written, a source whose last line has no '\n' loses that line's last
   * character: `ret` alone compiles to an invalid-instruction failure,
   * because the tokenizer is handed `re`.
   */
  lemma UnterminatedRetRejected()
    ensures Lines("ret") == ["re"]
    ensures Tokenize("ret") == Some(Instruction(OP_RET, [0, 0, 0, 0], 0))
    ensures Compile("ret", true, true) == CompileResult(false, INVALID_INSTRUCTION, None, 0)
  {
    assert "ret"[0..2] == "re";
    assert SplitFrom("ret", 0, 2) == [Clip("re")] + SplitFrom("ret", 3, 3);
    assert Lines("ret") == SplitFrom("ret", 0, 1) == SplitFrom("ret", 0, 2) == ["re"];
    assert LineText("re") == "re" by {
      CStringOf("re", []);
      assert "re" + ['\0'] == "re" + ['\0'] + [];
    }
    assert BlankRun("re") == 0 && BlankRun("ret") == 0;
    assert SkipBlanks("re") == "re" && SkipBlanks("ret") == "ret";
    assert TokenizeWord("re") == None by {
      assert "re"[0] == 'r';
    }
    assert TokenizeWord("ret") == Some(Instruction(OP_RET, [0, 0, 0, 0], 0)) by {
      assert "ret"[0] == 'r' && "ret"[..3] == "ret";
    }
    assert Texts(["re"]) == ["re"];
  }

  /**
   * The lines as evidently intended are `TextLines.LinesOf`: a line ends at
   * a '\n' and a nonempty tail without one is the last line, whole. On a
   * source whose last line ends in '\n' the lines as written are exactly
   * those, each cut to 255 characters.
   */
  lemma LinesAgreeWhenTerminated(src: seq<char>)
    requires Terminated(src) == src
    ensures Lines(src) == ClipAll(LinesOf(src))
  {
    SplitAgree(src, 0, 0);
    assert src[0..] == src;
  }

  /** `compile_code` as evidently intended: the lines are those of `TextLines.LinesOf`, each cut to 255 characters. */
  function IntendedCompile(src: seq<char>, arrayGranted: bool, binaryGranted: bool): CompileResult {
    Assemble(|src| == 0, ClipAll(LinesOf(src)), arrayGranted, binaryGranted)
  }

  /** As intended, ending the last line with '\n' or not gives the same result. */
  lemma IntendedCompileTerminated(src: seq<char>, arrayGranted: bool, binaryGranted: bool)
    ensures IntendedCompile(Terminated(src), arrayGranted, binaryGranted) == IntendedCompile(src, arrayGranted, binaryGranted)
  {
    LinesOfTerminated(src);
  }

  /** On a source whose last line ends in '\n', the code as written already does what is intended. */
  lemma IntendedAgrees(src: seq<char>, arrayGranted: bool, binaryGranted: bool)
    requires Terminated(src) == src
    ensures IntendedCompile(src, arrayGranted, binaryGranted) == Compile(src, arrayGranted, binaryGranted)
  {
    LinesAgreeWhenTerminated(src);
  }

  /** As intended, `ret` alone compiles to its one record. */
  lemma IntendedRetAccepted()
    ensures IntendedCompile("ret", true, true) == CompileResult(true, COMPILED, Some([OP_RET, 0, 0, 0, 0, 0]), 6)
  {
    LinesAt("ret\n", 3);
    assert "ret\n"[..3] == "ret" && "ret\n"[4..] == [];
    LinesOfTerminated("ret");
    assert LinesOf("ret") == ["ret"];
    assert ClipAll(["ret"]) == ["ret"];
    RetAssembled();
  }

  /** The single line `ret`, with both allocations granted, assembles to one `ret` instruction. */
  lemma RetAssembled()
    ensures Assemble(false, ["ret"], true, true) == CompileResult(true, COMPILED, Some([OP_RET, 0, 0, 0, 0, 0]), 6)
  {
    UnterminatedRetRejected();
    assert LineText("ret") == "ret" by {
      CStringOf("ret", []);
      assert "ret" + ['\0'] == "ret" + ['\0'] + [];
    }
    assert Texts(["ret"]) == ["ret"];
    var ret := Instruction(OP_RET, [0, 0, 0, 0], 0);
    assert TokenizeAll(["ret"]) == Some([ret]) by {
      var texts: seq<seq<char>> := ["ret"];
      assert texts[0] == "ret" && texts[1..] == [];
      assert TokenizeAll(texts) == Cons(Tokenize(texts[0]), TokenizeAll(texts[1..]));
      assert TokenizeAll(texts[1..]) == Some([]);
      assert [ret] + [] == [ret];
    }
    assert Encode([ret]) == [OP_RET, 0, 0, 0, 0, 0] by {
      assert [ret][1..] == [];
      assert EncodeOne(ret) + [] == [OP_RET, 0, 0, 0, 0, 0];
    }
  }

  /** Each line cut to 255 characters. */
  function ClipAll(lines: seq<seq<char>>): (r: seq<seq<char>>)
    ensures |r| == |lines| && forall k | 0 <= k < |lines| :: r[k] == Clip(lines[k])
  {
    if lines == [] then [] else [Clip(lines[0])] + ClipAll(lines[1..])
  }

  lemma {:induction false} SplitAgree(src: seq<char>, lineStart: nat, current: nat)
    requires Terminated(src) == src && lineStart <= current <= |src| && '\n' !in src[lineStart..current]
    ensures SplitFrom(src, lineStart, current) == ClipAll(LinesOf(src[lineStart..]))
    decreases |src| - current, 1
  {
    if current == |src| {
      AgreeAtEnd(src, lineStart);
    } else if src[current] == '\n' {
      AgreeAfterNewline(src, lineStart, current);
    } else {
      AgreeWithinLine(src, lineStart, current);
    }
  }

  /** `SplitAgree` at a '\n': the line ends there, and the rest agrees from just after it. */
  lemma {:induction false} AgreeAfterNewline(src: seq<char>, lineStart: nat, current: nat)
    requires Terminated(src) == src && lineStart <= current < |src| && src[current] == '\n'
    requires '\n' !in src[lineStart..current]
    ensures SplitFrom(src, lineStart, current) == ClipAll(LinesOf(src[lineStart..]))
    decreases |src| - current, 0
  {
    SplitAgree(src, current + 1, current + 1);
    AgreeAtNewline(src, lineStart, current);
  }

  /** `SplitAgree` on a character other than '\n': the line goes on. */
  lemma {:induction false} AgreeWithinLine(src: seq<char>, lineStart: nat, current: nat)
    requires Terminated(src) == src && lineStart <= current < |src| && src[current] != '\n'
    requires '\n' !in src[lineStart..current]
    ensures SplitFrom(src, lineStart, current) == ClipAll(LinesOf(src[lineStart..]))
    decreases |src| - current, 0
  {
    NotLastLine(src, lineStart, current);
    SplitAgree(src, lineStart, current + 1);
  }

  lemma AgreeAtEnd(src: seq<char>, lineStart: nat)
    requires Terminated(src) == src && lineStart <= |src| && '\n' !in src[lineStart..]
    ensures SplitFrom(src, lineStart, |src|) == ClipAll(LinesOf(src[lineStart..]))
  {
    if lineStart < |src| {
      assert src[lineStart..][|src| - 1 - lineStart] == src[|src| - 1];
    }
  }

  lemma AgreeAtNewline(src: seq<char>, lineStart: nat, current: nat)
    requires lineStart <= current < |src| && src[current] == '\n' && '\n' !in src[lineStart..current]
    requires SplitFrom(src, current + 1, current + 1) == ClipAll(LinesOf(src[current + 1..]))
    ensures SplitFrom(src, lineStart, current) == ClipAll(LinesOf(src[lineStart..]))
  {
    var s := src[lineStart..];
    var k := current - lineStart;
    assert s[..k] == src[lineStart..current] && s[k + 1..] == src[current + 1..];
    LinesAt(s, k);
    assert ClipAll([s[..k]] + LinesOf(s[k + 1..]))[1..] == ClipAll(LinesOf(s[k + 1..]));
  }

  lemma NotLastLine(src: seq<char>, lineStart: nat, current: nat)
    requires Terminated(src) == src && lineStart <= current < |src| && src[current] != '\n'
    requires '\n' !in src[lineStart..current]
    ensures SplitFrom(src, lineStart, current) == SplitFrom(src, lineStart, current + 1)
    ensures '\n' !in src[lineStart..current + 1]
  {
    assert src[lineStart..current + 1] == src[lineStart..current] + [src[current]];
  }

  /**
   * `compile_code`: allocate the instruction array, scan the source keeping
   * the start of the current line, tokenize each line from a 256-byte
   * buffer into the array, then allocate the binary and copy the records
   * into it.
   */
  method CompileCode(source: array<char>, length: nat, arrayGranted: bool, binaryGranted: bool)
    returns (result: CompileResult)
    requires length <= source.Length
    ensures result == Compile(source[..length], arrayGranted, binaryGranted)
  {
    if length == 0 || !arrayGranted {
      return CompileResult(false, ALLOCATION_FAILED, None, 0);
    }
    var instructions := new Instruction[length](_ => Nop);
    var ok, count := ScanLines(source, length, instructions);
    ScanTokenizesLines(source[..length], 0, 0);
    if !ok {
      return CompileResult(false, INVALID_INSTRUCTION, None, 0);
    }
    TokenizedWellFormed(Texts(Lines(source[..length])));
    var binarySize := 6 * count;
    if count == 0 || !binaryGranted {
      return CompileResult(false, BINARY_FAILED, None, binarySize);
    }
    var binary := EncodeInto(instructions, count);
    result := CompileResult(true, COMPILED, Some(binary[..]), binarySize);
  }

  /**
   * The scanning loop of `compile_code`: each line end (a '\n' or the last
   * character) hands the line to the tokenizer and stores its record;
   * the first rejected line stops the scan.
   */
  method ScanLines(source: array<char>, length: nat, instructions: array<Instruction>) returns (ok: bool, count: nat)
    requires 0 < length <= source.Length && length <= instructions.Length
    modifies instructions
    ensures ok <==> Scan(source[..length], 0, 0).Some?
    ensures ok ==> count <= instructions.Length && Scan(source[..length], 0, 0).value == instructions[..count]
  {
    ghost var src := source[..length];
    var lineStart, current := 0, 0;
    count := 0;
    ThenEmpty(instructions[..0], Scan(src, 0, 0));
    while current < length
      invariant lineStart <= current <= length && count <= current
      invariant Scan(src, 0, 0) == Then(instructions[..count], Scan(src, lineStart, current))
    {
      if source[current] == '\n' || current == length - 1 {
        ok := StoreLine(source, length, instructions, lineStart, current, count, src, Scan(src, 0, 0));
        if !ok {
          return;
        }
        count := count + 1;
        lineStart := current + 1;
      }
      current := current + 1;
    }
    assert instructions[..count] + [] == instructions[..count];
    ok := true;
  }

  /**
   * A line end in `compile_code`'s scan: the line from `lineStart` is
   * tokenized and, when accepted, its record is stored at `count`; a
   * rejected line makes the whole scan fail.
   */
  method StoreLine(source: array<char>, length: nat, instructions: array<Instruction>, lineStart: nat, current: nat,
                   count: nat, ghost src: seq<char>, ghost total: Option<seq<Instruction>>) returns (ok: bool)
    requires lineStart <= current < length <= source.Length && count <= current && length <= instructions.Length
    requires src == source[..length] && (src[current] == '\n' || current == length - 1)
    requires total == Then(instructions[..count], Scan(src, lineStart, current))
    modifies instructions
    ensures !ok ==> total.None?
    ensures ok ==> total == Then(instructions[..count + 1], Scan(src, current + 1, current + 1))
  {
    ghost var done := instructions[..count];
    var instr;
    ok, instr := NextRecord(source, lineStart, current);
    assert src[lineStart..current] == source[lineStart..current];
    ghost var record := Tokenize(LineText(Clip(src[lineStart..current])));
    LineEndScan(src, lineStart, current);
    StoredRecord(total, done, record, Scan(src, current + 1, current + 1), ok, instr);
    if !ok {
      return;
    }
    Append(instructions, count, instr);
  }

  /** At a line end the scan is this line's record in front of the scan of the lines after it. */
  lemma LineEndScan(src: seq<char>, lineStart: nat, current: nat)
    requires lineStart <= current < |src| && (src[current] == '\n' || current == |src| - 1)
    ensures Scan(src, lineStart, current)
      == Cons(Tokenize(LineText(Clip(src[lineStart..current]))), Scan(src, current + 1, current + 1))
  {
  }

  /** Where the scan is the records so far then this line's record and the rest, the record decides. */
  lemma StoredRecord(total: Option<seq<Instruction>>, done: seq<Instruction>, record: Option<Instruction>,
                     rest: Option<seq<Instruction>>, ok: bool, instr: Instruction)
    requires total == Then(done, Cons(record, rest))
    requires (ok <==> record.Some?) && (ok ==> instr == record.value)
    ensures !ok ==> total.None?
    ensures ok ==> total == Then(done + [instr], rest)
  {
    ThenCons(done, record, rest);
  }

  /** `instructions[count] = instr`: one more record after the first `count`. */
  method Append(instructions: array<Instruction>, count: nat, instr: Instruction)
    requires count < instructions.Length
    modifies instructions
    ensures instructions[..count + 1] == old(instructions[..count]) + [instr]
  {
    instructions[count] := instr;
  }

  /**
   * The scan from `current`, with the line under way starting at
   * `lineStart`: the records of the lines still to end, or `None` once one
   * is rejected.
   */
  function Scan(src: seq<char>, lineStart: nat, current: nat): Option<seq<Instruction>>
    requires lineStart <= current <= |src|
    decreases |src| - current
  {
    if current == |src| then Some([])
    else if src[current] == '\n' || current == |src| - 1 then
      Cons(Tokenize(LineText(Clip(src[lineStart..current]))), Scan(src, current + 1, current + 1))
    else Scan(src, lineStart, current + 1)
  }

  /** The scan tokenizes exactly the lines `Lines` splits off. */
  lemma {:induction false} ScanTokenizesLines(src: seq<char>, lineStart: nat, current: nat)
    requires lineStart <= current <= |src|
    ensures Scan(src, lineStart, current) == TokenizeAll(Texts(SplitFrom(src, lineStart, current)))
    decreases |src| - current
  {
    if current < |src| {
      if src[current] == '\n' || current == |src| - 1 {
        ScanTokenizesLines(src, current + 1, current + 1);
        LineEnds(src, lineStart, current);
      } else {
        ScanTokenizesLines(src, lineStart, current + 1);
      }
    }
  }

  /** At a line end: copy the line out and tokenize it. */
  method NextRecord(source: array<char>, lineStart: nat, current: nat) returns (ok: bool, instr: Instruction)
    requires lineStart <= current <= source.Length
    ensures var r := Tokenize(LineText(Clip(source[lineStart..current])));
      (ok <==> r.Some?) && (ok ==> instr == r.value && |instr.operands| == 4)
  {
    var lineBuffer := CopyLine(source, lineStart, current);
    ok, instr := TokenizeLine(lineBuffer);
  }

  /** The records so far, then those still to come, or `None` if a later line is rejected. */
  function Then(done: seq<Instruction>, rest: Option<seq<Instruction>>): Option<seq<Instruction>> {
    if rest.None? then None else Some(done + rest.value)
  }

  lemma ThenEmpty(done: seq<Instruction>, rest: Option<seq<Instruction>>)
    requires done == []
    ensures Then(done, rest) == rest
  {
    if rest.Some? {
      assert done + rest.value == rest.value;
    }
  }

  /** A record in front of the records to come, or `None` if either is rejected. */
  function Cons(i: Option<Instruction>, rest: Option<seq<Instruction>>): Option<seq<Instruction>> {
    if i.None? || rest.None? then None else Some([i.value] + rest.value)
  }

  lemma ThenCons(done: seq<Instruction>, i: Option<Instruction>, rest: Option<seq<Instruction>>)
    ensures i.None? ==> Then(done, Cons(i, rest)) == None
    ensures i.Some? ==> Then(done, Cons(i, rest)) == Then(done + [i.value], rest)
  {
    if i.Some? && rest.Some? {
      assert done + ([i.value] + rest.value) == (done + [i.value]) + rest.value;
    }
  }

  /** At a line end, the lines from here are this line's record in front of the lines after it. */
  lemma LineEnds(src: seq<char>, lineStart: nat, current: nat)
    requires lineStart <= current < |src| && (src[current] == '\n' || current == |src| - 1)
    ensures TokenizeAll(Texts(SplitFrom(src, lineStart, current))) ==
      Cons(Tokenize(LineText(Clip(src[lineStart..current]))), TokenizeAll(Texts(SplitFrom(src, current + 1, current + 1))))
  {
    var line := Clip(src[lineStart..current]);
    var rest := SplitFrom(src, current + 1, current + 1);
    assert SplitFrom(src, lineStart, current) == [line] + rest;
    var texts := Texts([line] + rest);
    assert texts[0] == LineText(line) && texts[1..] == Texts(rest);
  }

  /**
   * The line buffer: `line_length = current - line_start`, cut to 255,
   * copied into a fresh 256-character buffer and terminated.
   */
  method CopyLine(source: array<char>, lineStart: nat, current: nat) returns (buf: array<char>)
    requires lineStart <= current <= source.Length
    ensures fresh(buf) && '\0' in buf[..]
    ensures CString(buf[..]) == LineText(Clip(source[lineStart..current]))
  {
    var lineLength := current - lineStart;
    if lineLength > 255 {
      lineLength := 255;
    }
    buf := new char[256];
    for j := 0 to lineLength
      invariant buf[..j] == source[lineStart..lineStart + j]
    {
      buf[j] := source[lineStart + j];
    }
    buf[lineLength] := '\0';
    ghost var line := Clip(source[lineStart..current]);
    assert buf[..lineLength] == line;
    SameText(line, buf[lineLength + 1..]);
    assert buf[..] == line + ['\0'] + buf[lineLength + 1..];
  }

  /** A terminator and anything after it do not change the text a buffer holds. */
  lemma SameText(line: seq<char>, after: seq<char>)
    ensures CString(line + ['\0'] + after) == LineText(line)
  {
    var t := CString(line + ['\0']);
    assert t == (line + ['\0'])[..|t|];
    assert line + ['\0'] == t + ['\0'] + (line + ['\0'])[|t| + 1..];
    CStringOf(t, (line + ['\0'])[|t| + 1..] + after);
    assert line + ['\0'] + after == t + ['\0'] + ((line + ['\0'])[|t| + 1..] + after);
  }

  /** `memcpy(result.binary, instructions, binary_size)`: the records' bytes into a fresh binary. */
  method EncodeInto(instructions: array<Instruction>, count: nat) returns (binary: array<byte>)
    requires count <= instructions.Length && FourOperands(instructions[..count])
    ensures fresh(binary) && binary[..] == Encode(instructions[..count])
  {
    binary := new byte[6 * count];
    var base := 0;
    for k := 0 to count
      invariant base == 6 * k && binary[..base] == Encode(instructions[..k])
    {
      StoreRecord(binary, base, instructions[k]);
      EncodeSnoc(instructions[..k], instructions[k]);
      assert instructions[..k + 1] == instructions[..k] + [instructions[k]];
      base := base + 6;
    }
    assert instructions[..count] == instructions[..count];
    assert binary[..] == binary[..base];
  }

  /** One record's six bytes at `base`; the bytes before it are kept. */
  method StoreRecord(binary: array<byte>, base: nat, i: Instruction)
    requires base + 6 <= binary.Length && |i.operands| == 4
    modifies binary
    ensures binary[..base + 6] == old(binary[..base]) + EncodeOne(i)
  {
    binary[base] := i.opcode;
    binary[base + 1] := i.operands[0];
    binary[base + 2] := i.operands[1];
    binary[base + 3] := i.operands[2];
    binary[base + 4] := i.operands[3];
    binary[base + 5] := i.operandCount;
    assert i.operands == [i.operands[0], i.operands[1], i.operands[2], i.operands[3]];
  }

  lemma {:induction false} EncodeSnoc(instrs: seq<Instruction>, i: Instruction)
    requires FourOperands(instrs)
    requires |i.operands| == 4
    ensures Encode(instrs + [i]) == Encode(instrs) + EncodeOne(i)
  {
    if instrs != [] {
      assert (instrs + [i])[1..] == instrs[1..] + [i];
      EncodeSnoc(instrs[1..], i);
    } else {
      assert [] + [i] == [i];
    }
  }
}
