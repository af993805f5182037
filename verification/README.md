# A model of a small x86 kernel in three drafts

The system is a freestanding 32-bit x86 kernel written in C++. Its repository
keeps three drafts side by side:

- `kernel/`: the first draft. It has a VGA text terminal, a linked-list heap,
  a string library, `vsnprintf`, `itoa` and `sprintf`, a PIC and IDT set-up, a
  keyboard driver, a text editor, and a toy assembler ("compiler").
- `release/`: the release draft. It has a first-fit heap over a boot-reported
  memory size, interrupt and keyboard drivers, an in-memory file table, a
  second editor, and a second string library under `release/v1.0.0/`.
- `final-release/`: the final draft. It has the terminal with a separate
  scroll routine, the Multiboot magic check and a third keyboard driver.

This project models the core of each draft in Dafny, one module per source
file. Each draft keeps its own behaviour, because the drafts differ in small
ways: header sizes, rounding, how a line feed scrolls, what `%` followed by an
unknown character prints. Shared modules hold what the drafts have in common:

- `Common`: optional values, machine integers, decimal text.
- `CStrings`: C strings and the identical `strlen` and `strcmp` loops.
- `Vga`: the screen, as 2000 cells plus a cursor.
- `Formatting`: the rendering of a format string and the digit loops of `%d`.
- `TextLines`: text split at `'\n'`.
- `Scancodes`: the scancode tables.
- `Ring`: the circular key buffer.
- `Idt`: gate and PIC vocabulary.

Some source code changes state in place: the terminal, the heaps, the
interrupt controller, the keyboards, the file table and the editors. That code
is modelled as classes with `modifies` clauses. Their methods are proved
against specification functions over sequences.

Some source code loops over buffers: the string routines, the formatters,
`itoa`, and the scanning loops of the editors and the assembler. That code is
modelled as methods with loop invariants over arrays.

Pure computations are modelled as functions, with lemmas about them. Examples:

- colour and cell packing;
- first fit and coalescing;
- scancode translation;
- line splitting;
- rendering a format string.

Hardware is modelled by values:

- VGA memory is an array of 16-bit cells.
- Port output is an appended log of `(port, byte)` writes.
- The PIC mask registers are state that `inb` reads back.
- Physical memory is a map from address to byte.
- The heaps' blocks form a sequence in address order, and a payload pointer is
  a block index.
- Whether `malloc` succeeds, where a caller of the allocator needs that, is a
  boolean parameter.

A C `char` is a Dafny `char` whose code is the byte's unsigned value.

## Model

| member | source | states |
|---|---|---|
| Common.DigitChar | kernel/stdio.cpp:43 | the character `'0' + d` is a decimal digit whose value is `d` |
| Common.Decimal | kernel/stdio.cpp:42-48 | decimal text is non-empty digits; it starts with '0' exactly for zero, and it is one character exactly below 10 |
| Common.DecimalRoundTrip | kernel/stdio.cpp:42-48 | reading the decimal text back gives the number |
| Common.DecimalInjective | kernel/stdio.cpp:42-48 | two numbers with the same decimal text are equal |
| Common.SignedDecimal | kernel/stdio.cpp:37-48 | the text starts with '-' exactly for a negative value, followed by the magnitude's digits; a nonnegative value is its decimal text; the text is a C string |
| Common.Reverse | kernel/stdio.cpp:76-86 | the reversal keeps the length, and element `i` is element `n-1-i` of the input |
| Common.ReverseReverse | kernel/stdio.cpp:76-86 | reversing twice gives the sequence back |
| Common.DigitsReversedDecimal | kernel/stdio.cpp:42-45 | for a positive number, the digits the `% 10` and `/ 10` loop stores are its decimal text reversed |
| Common.SignedDigitsReversed | kernel/stdio.cpp:98-113 | the stored digits, plus a trailing '-' for a negative value, read backwards give the signed decimal text |
| Common.ReverseInPlace | kernel/stdio.cpp:76-86 | `reverse` leaves the first `len` cells reversed and the rest untouched; a length of zero or less changes nothing |
| CStrings.CString | kernel/string.cpp:4-8 | a string is the prefix of the buffer before its first NUL, and the NUL follows it |
| CStrings.CStringOf | release/v1.0.0/kernel/string.cpp:3-7 | a buffer holding NUL-free characters followed by a NUL reads as exactly those characters |
| CStrings.Strlen | kernel/string.cpp:4-8 | `strlen` returns the index of the first NUL, which is the length of the string |
| CStrings.Strcmp | kernel/string.cpp:56-62 | `strcmp` returns the difference of the unsigned codes at the first position where the strings differ or the first one ends |
| CStrings.CompareZeroIff | release/v1.0.0/kernel/string.cpp:52-58 | `strcmp` is 0 if and only if the two strings are equal |
| CStrings.CompareAntisymmetric | release/v1.0.0/kernel/string.cpp:52-58 | swapping the arguments negates the result |
| CStrings.ComparePrefix | release/v1.0.0/kernel/string.cpp:52-58 | a proper prefix compares below the longer string |
| CStrings.Padded | release/v1.0.0/kernel/string.cpp:41-50 | a bounded copy fills exactly `n` cells |
| CStrings.PaddedTerminated | release/v1.0.0/kernel/string.cpp:41-50 | the padded copy contains a NUL if and only if the source is shorter than `n`; it then reads back as the source |
| KernelString.Memset | kernel/string.cpp:10-14 | the first `n` bytes become the low byte of `c`; the rest are kept |
| KernelString.Memmove | kernel/string.cpp:19-30 | the `n` destination bytes become the original source bytes, for any overlap; bytes outside the destination are kept |
| KernelString.Memcmp | kernel/string.cpp:32-41 | the result is 0 if and only if the first `n` bytes agree; otherwise it is the difference at the first differing position |
| KernelString.Strcpy | kernel/string.cpp:43-47 | the string and its terminator are copied; the destination then reads as the same string; later cells are kept |
| KernelString.Strncpy | kernel/string.cpp:49-54 | for a source shorter than `n`: exactly `n` cells hold the string, then NUL padding; later cells are kept |
| KernelString.CopyPhaseCounts | kernel/string.cpp:51 | the first loop copies a source shorter than `n` with its terminator and leaves the counter at the remaining cells; a longer source gets `n` characters and the 32-bit counter wraps to 2^32 - 1 |
| KernelString.StrncpyOverrun | kernel/string.cpp:49-54 | as written, exactly `n` cells are stored if and only if the source is shorter than `n`; otherwise 2^32 - 1 NULs follow the `n` cells, as for `strncpy(dest, "ab", 2)` |
| KernelString.Strchr | kernel/string.cpp:64-67 | the result is the position of the first `(char)c` in the string, the terminator's position for NUL, and null when the character is absent |
| KernelString.Strdup | kernel/string.cpp:69-76 | the result is null exactly when `malloc` fails; otherwise it is a fresh buffer of `strlen + 1` cells that reads as the same string |
| ReleaseString.Memcpy | release/v1.0.0/kernel/string.cpp:9-16 | the first `n` bytes of `dest` equal those of `src`; the rest are kept |
| ReleaseString.Memmove | release/v1.0.0/kernel/string.cpp:18-31 | the `n` destination bytes become the original source bytes, for any overlap; bytes outside the destination are kept |
| ReleaseString.Memset | release/v1.0.0/kernel/string.cpp:33-39 | `n` bytes become the low byte of the value; the rest are kept |
| ReleaseString.Strncpy | release/v1.0.0/kernel/string.cpp:41-50 | exactly `n` cells are written: the source cut at `n`, then NUL padding |
| ReleaseString.ControlIsNotPrintable | release/v1.0.0/kernel/string.cpp:60-62 | `iscntrl` holds if and only if the code is 7-bit and outside the printable range from space to '~' |
| ReleaseString.PlainText | release/v1.0.0/kernel/string.cpp:70-74 | a format without '%' renders as itself |
| ReleaseString.UnknownConversionSilent | release/v1.0.0/kernel/string.cpp:78-123 | '%' followed by anything but 's', 'd' or 'z' prints nothing and uses no argument |
| ReleaseString.PutChars | release/v1.0.0/kernel/string.cpp:79-85 | `%s` appends the argument, cut so that at most `size - 1` characters are out |
| ReleaseString.Vsnprintf | release/v1.0.0/kernel/string.cpp:65-136 | size 0 writes nothing and returns 0; otherwise the rendered text is cut at `size - 1` and NUL-terminated, and its length is returned; `snprintf` (lines 130-136) is the same call with its variadic arguments gathered into `args`, so this contract is also `snprintf`'s |
| ReleaseString.Conversion | release/v1.0.0/kernel/string.cpp:70-124 | one loop turn advances the format, the arguments and the output; what is out is a prefix of the full text |
| ReleaseString.Directive | release/v1.0.0/kernel/string.cpp:76-123 | the turn at a '%' (`%s`, `%d`, `%zu` or a skipped conversion) advances the format, the arguments and the output, and keeps what is out a prefix of the full text |
| ReleaseString.Unfold | release/v1.0.0/kernel/string.cpp:76-123 | the rendering after a '%' is given case by case: `%s`, `%d`, `%zu`, or another character |
| Formatting.DigitsInto | kernel/stdio.cpp:42-45 | the digit loop stores exactly the decimal digits, least significant first, and the cap never cuts them short |
| Formatting.FirstDigit | kernel/stdio.cpp:42-45 | the digit stored before the loop test is the whole text for zero, and the start of the digits otherwise |
| Formatting.DigitStep | kernel/stdio.cpp:42-45 | each turn moves one digit from the pending digits to the stored ones |
| Formatting.DigitsDone | kernel/stdio.cpp:42-45 | when the loop stops, every digit is stored |
| Formatting.PutReversed | kernel/stdio.cpp:47-48 | the copy-out loop appends the stored digits in reverse, cut at `size - 1` |
| Formatting.PutSigned | kernel/stdio.cpp:32-49 | `%d` appends the C decimal text of the value, cut at `size - 1` |
| Formatting.PutMagnitude | release/v1.0.0/kernel/string.cpp:106-120 | `%zu` appends the decimal text of a 32-bit value, cut at `size - 1` |
| Formatting.ClippedThen | kernel/stdio.cpp:37-48 | writing `t1` whole and then `t2` clipped is writing `t1 + t2` clipped |
| Formatting.DecimalWidth | release/v1.0.0/kernel/string.cpp:109-115 | a 32-bit value has at most ten digits, so the 32-character buffer suffices |
| Formatting.Advance | kernel/stdio.cpp:12-56 | after a clipped conversion, the output is a prefix of the full text; below the limit, the rest of the text is what remains to be rendered |
| KernelStdio.PlainText | kernel/stdio.cpp:12-16 | a format without '%' renders as itself |
| KernelStdio.LiteralConversion | kernel/stdio.cpp:51-53 | '%' followed by a character other than 's' or 'd' prints that character and uses no argument |
| KernelStdio.TrailingPercent | kernel/stdio.cpp:18-19 | a '%' that ends the format is dropped |
| KernelStdio.PutClipped | kernel/stdio.cpp:22-31 | `%s` appends the argument cut at `size - 1` |
| KernelStdio.Vsnprintf | kernel/stdio.cpp:6-68 | a null buffer, a null format or size 0 gives -1 and writes nothing; otherwise the rendered text is cut at `size - 1` and NUL-terminated, and its length is returned; `snprintf` (lines 62-68) is the same call with its variadic arguments gathered into `args`, so this contract is also `snprintf`'s; it also stands for the release draft's copy, release/kernel/stdio.cpp:6-68 (`vsnprintf` and `snprintf`), which is the same code |
| KernelStdio.Conversion | kernel/stdio.cpp:12-56 | one loop turn advances the format and the output and keeps the output a prefix of the full text |
| KernelStdio.Directive | kernel/stdio.cpp:18-55 | the turn at a '%' is a stop, `%s`, `%d` or a literal, and it keeps the same loop invariant |
| KernelStdio.Unfold | kernel/stdio.cpp:18-55 | the rendering after a '%' is given case by case |
| KernelStdio.CDivision | kernel/stdio.cpp:104-106 | C's `/` and `%` put the dividend back together; the remainder is smaller than the divisor and has the dividend's sign |
| KernelStdio.QuotRem | kernel/stdio.cpp:104-106 | the subtraction-based quotient and remainder put the dividend back together |
| KernelStdio.QuotRemTen | kernel/stdio.cpp:42-44 | by ten, they are the ordinary `/` and `%` |
| KernelStdio.DigitOf | kernel/stdio.cpp:105 | a remainder of 0 to 9 gives its decimal digit; every result is a non-NUL 8-bit character |
| KernelStdio.QuotientShrinks | kernel/stdio.cpp:103-107 | each turn of the digit loop brings the value strictly closer to zero, so the loop ends |
| KernelStdio.LowDigitsReversed | kernel/stdio.cpp:103-113 | the stored digits reversed are the digits most significant first |
| KernelStdio.HighDigitsDecimal | kernel/stdio.cpp:88-115 | in base 10, the digits of a positive value are its decimal text |
| KernelStdio.ItoaDecimal | kernel/stdio.cpp:88-115 | in base 10, `itoa` writes the C decimal text of every `int` except `INT_MIN` |
| KernelStdio.ItoaRoundTrip | kernel/stdio.cpp:88-115 | for a positive value, reading the text back in the same base gives the value |
| KernelStdio.HighDigitsValue | kernel/stdio.cpp:103-107 | the digits of a nonnegative value read back as that value |
| KernelStdio.HighDigitsInBase | kernel/stdio.cpp:104-105 | every digit of a nonnegative value is a digit of the base |
| KernelStdio.ItoaNegativeNonDecimal | kernel/stdio.cpp:98-107 | as written, -1 in base 16 comes out as "/": not a digit of the base, and it reads back as -1 |
| KernelStdio.UnsignedItoaText | kernel/stdio.cpp:88-115 | the corrected text agrees with `itoa` except for a negative value outside base 10 |
| KernelStdio.UnsignedItoaRoundTrip | kernel/stdio.cpp:88-115 | outside base 10, the corrected text consists of digits of the base and reads back as the value's 32-bit pattern |
| KernelStdio.Itoa | kernel/stdio.cpp:88-115 | the buffer holds the `itoa` text and a NUL; the cells after the NUL are kept |
| KernelStdio.ItoaNonzero | kernel/stdio.cpp:98-114 | past the zero check: the digit loop, the sign, the terminator and the reversal leave the text and a NUL |
| KernelStdio.ItoaReversed | kernel/stdio.cpp:103-113 | for a nonzero value, the text is the stored digits and sign, reversed |
| KernelStdio.Finish | kernel/stdio.cpp:109-113 | the sign, the terminator and the reversal of the stored characters |
| KernelStdio.StoreDigits | kernel/stdio.cpp:103-107 | the loop stores the value's digits, least significant first, and keeps later cells |
| KernelStdio.LowDigitsStep | kernel/stdio.cpp:104-106 | one loop turn stores the digit of C's remainder and continues with C's quotient, which is closer to zero |
| KernelStdio.SprintfMatchesVsnprintf | kernel/stdio.cpp:117-167 | on formats with only `%d` and `%s`, where both are defined, `sprintf` renders the same text as `vsnprintf` |
| KernelStdio.Sprintf | kernel/stdio.cpp:117-167 | the whole rendered text and a NUL are written, and the count is returned |
| KernelStdio.SprintfStep | kernel/stdio.cpp:124-162 | one loop turn writes its part in full and keeps the output a prefix of the full text |
| KernelStdio.SprintfConversion | kernel/stdio.cpp:130-161 | a conversion: `%d` or `%i` through `itoa`, `%s`, `%c`, "%%", or both characters |
| KernelStdio.SprintfUnfold | kernel/stdio.cpp:130-161 | the `sprintf` rendering after a '%' is given case by case |
| KernelStdio.SignedWidth | kernel/stdio.cpp:122 | an `int` takes at most eleven characters, so the 32-character buffer suffices |
| KernelStdio.PutItoa | kernel/stdio.cpp:132-140 | `%d` appends the C decimal text of the value |
| KernelStdio.PutString | kernel/stdio.cpp:136-138 | the `itoa` buffer's string is appended |
| KernelStdio.PutAll | kernel/stdio.cpp:141-147 | a `%s` argument is appended whole |
| Vga.MakeColor | final-release/kernel/kernel.cpp:67-69 | the foreground is the low nibble and the background the high nibble |
| Vga.MakeVgaEntry | final-release/kernel/kernel.cpp:71-75 | the low byte is the character; the high byte is the attribute, or 0xFF for a sign-extended code of 128 or more |
| Vga.Blank | final-release/kernel/kernel.cpp:87 | a blank cell is a space in the given attribute |
| Vga.Cleared | final-release/kernel/kernel.cpp:84-89 | all 2000 cells are blank |
| Vga.Scrolled | final-release/kernel/kernel.cpp:92-106 | each cell gets the cell one row below it, and the bottom row is blank |
| Vga.NewLine | final-release/kernel/kernel.cpp:113-118 | a line feed goes to column 0 of the next row, or scrolls on the last row |
| Vga.PutChar | final-release/kernel/kernel.cpp:112-130 | one character of output keeps the cursor on screen and keeps the attribute |
| Vga.PutAll | final-release/kernel/kernel.cpp:132-136 | characters are output in order and keep the cursor on screen |
| Vga.PutAllSnoc | final-release/kernel/kernel.cpp:132-136 | output of `data` then `c` is output of `data + [c]` |
| Vga.PutLine | final-release/kernel/kernel.cpp:121-124 | output that fits on the row lands in the cells from the cursor on, in order; the cursor ends after it and no other cell changes |
| Vga.Clear | kernel/kernel.cpp:46-53 | every cell is blank in the attribute |
| Vga.ShiftRowsUp | final-release/kernel/kernel.cpp:94-100 | each of the top 24 rows gets the row below it; the bottom row is kept |
| Vga.BlankBottomRow | final-release/kernel/kernel.cpp:103-106 | the bottom row is blanked and the rest kept |
| Vga.ScrollCells | final-release/kernel/kernel.cpp:92-106 | the cells become `Scrolled` of the old cells |
| FinalTerminal.BootPanic | final-release/kernel/kernel.cpp:231-233 | there is a panic message if and only if the magic is not 0x2BADB002, and the message is "Invalid multiboot magic number" |
| FinalTerminal.Terminal.Initialize | final-release/kernel/kernel.cpp:77-90 | the cursor is at home, the attribute is light grey on black, and every cell is blank |
| FinalTerminal.Terminal.Scroll | final-release/kernel/kernel.cpp:92-110 | the cells are scrolled and the row goes up one |
| FinalTerminal.Terminal.Putchar | final-release/kernel/kernel.cpp:112-130 | the screen becomes `PutChar` of the old screen |
| FinalTerminal.Terminal.Write | final-release/kernel/kernel.cpp:132-136 | the screen becomes `PutAll` of the first `size` characters |
| FinalTerminal.Terminal.WriteString | final-release/kernel/kernel.cpp:138-140 | the screen becomes `PutAll` of the string |
| KernelTerminal.Erased | kernel/kernel.cpp:116-123 | the backspace moves the column back one and blanks that cell, leaving the other cells; in column 0 nothing changes |
| KernelTerminal.BackspaceUndoesChar | kernel/kernel.cpp:116-123 | a backspace after a character that did not fill the row restores the cursor and blanks the cell |
| KernelTerminal.BackspaceAfterSpace | kernel/kernel.cpp:116-123 | a backspace after a space gives the screen back if and only if that cell was already blank |
| KernelTerminal.Terminal.Init | kernel/kernel.cpp:36-44 | the cursor is at home, the attribute is light grey on black, and the screen is cleared |
| KernelTerminal.Terminal.Clear | kernel/kernel.cpp:46-53 | every cell is blank in the current attribute |
| KernelTerminal.Terminal.SetColor | kernel/kernel.cpp:63-65 | the attribute changes and the cursor does not |
| KernelTerminal.Terminal.NewLine | kernel/kernel.cpp:95-114 | the screen becomes `Vga.NewLine` of the old screen: the in-place scroll agrees with the final draft's |
| KernelTerminal.Terminal.WriteChar | kernel/kernel.cpp:67-81 | the screen becomes `PutChar` of the old screen |
| KernelTerminal.Terminal.Backspace | kernel/kernel.cpp:116-123 | the screen becomes `Erased` of the old screen |
| KernelTerminal.Terminal.Write | kernel/kernel.cpp:83-87 | the screen becomes `PutAll` of the first `size` characters |
| KernelTerminal.Terminal.WriteString | kernel/kernel.cpp:89-93 | the screen becomes `PutAll` of the string |
| KernelTerminal.GetSize | kernel/kernel.cpp:125-128 | the result is 25 rows of 80 columns, which cover all 2000 cells |
| ReleaseMemory.AlignUp | release/kernel/memory.cpp:12-14 | the result is a multiple of the alignment; it is the least such value not below `x`, or 0 when the 32-bit sum wraps |
| ReleaseMemory.FirstFitFrom | release/kernel/memory.cpp:16-25 | the result is the first block at or after `i` that is free and large enough; no block before it fits; none means no block fits |
| ReleaseMemory.FirstFit | release/kernel/memory.cpp:16-25 | `find_free_block` picks the first free block that is large enough, or none when no block fits |
| ReleaseMemory.RunStart | release/kernel/memory.cpp:37-45 | the backward merge stops at the first block of the free run: every block between is free, and the block before it is not |
| ReleaseMemory.RunEnd | release/kernel/memory.cpp:29-35 | the forward merge stops after the last block of the free run: every block between is free, and the block after it is not |
| ReleaseMemory.MergedSpan | release/kernel/memory.cpp:27-46 | merging a free run removes the right number of blocks and keeps the covered bytes and the free bytes |
| ReleaseMemory.AbsorbForward | release/kernel/memory.cpp:29-35 | one step of the forward loop extends the merged run by the next block |
| ReleaseMemory.AbsorbBackward | release/kernel/memory.cpp:38-45 | one step of the backward loop extends the merged run by the previous block |
| ReleaseMemory.RunEndIs | release/kernel/memory.cpp:29 | the forward loop's exit test holds exactly at the end of the run |
| ReleaseMemory.RunStartIs | release/kernel/memory.cpp:38 | the backward loop's exit test holds exactly at the start of the run |
| ReleaseMemory.SplitSpans | release/kernel/memory.cpp:84-97 | a split leaves a head of exactly the request and a free tail; together they cover the old block |
| ReleaseMemory.WholeSpans | release/kernel/memory.cpp:99-100 | without a split, the whole block leaves the free space |
| ReleaseMemory.CarveSpans | release/kernel/memory.cpp:84-100 | allocation keeps the covered bytes and takes the handed-out block, header included, from the free bytes |
| ReleaseMemory.CarveInvariants | release/kernel/memory.cpp:84-99 | allocation keeps the chain free of adjacent free blocks and 8-aligned |
| ReleaseMemory.CarveProps | release/kernel/memory.cpp:74-103 | allocation: the chain grows by one exactly when the block splits; the block is allocated and at least the request; the bytes and invariants are kept |
| ReleaseMemory.AllocIndex | release/kernel/memory.cpp:74-81 | the block handed out fits the request rounded up to 8 |
| ReleaseMemory.MergedInvariants | release/kernel/memory.cpp:27-46 | merging a whole free run bounded by non-free blocks leaves no two free neighbours |
| ReleaseMemory.MarkFreeSpans | release/kernel/memory.cpp:108-110 | marking a block free adds its bytes and header to the free space |
| ReleaseMemory.CoalesceSpans | release/kernel/memory.cpp:105-113 | `memory_free` keeps the covered bytes and returns the block's bytes to the free space |
| ReleaseMemory.CoalesceInvariants | release/kernel/memory.cpp:105-113 | `memory_free` keeps the chain free of adjacent free blocks and 8-aligned |
| ReleaseMemory.CoalesceProps | release/kernel/memory.cpp:105-113 | `memory_free` keeps the covered bytes and the invariants, and returns the block's bytes to the free space |
| ReleaseMemory.CarveThenCoalesce | release/kernel/memory.cpp:74-113 | freeing a block just handed out restores the chain exactly, split included |
| ReleaseMemory.CarveKeepsOthers | release/kernel/memory.cpp:84-99 | allocation leaves every other block, and its payload address, in place |
| ReleaseMemory.SplitKeepsLater | release/kernel/memory.cpp:85-95 | after a split, a later block moves one place on and keeps the bytes in front of it |
| ReleaseMemory.CarveKeepsAddress | release/kernel/memory.cpp:102 | the payload is handed out at the address of the chosen block |
| ReleaseMemory.MergedKeepsOutside | release/kernel/memory.cpp:27-46 | a block after a merged run keeps its contents and the bytes in front of it |
| ReleaseMemory.CoalesceKeepsUsed | release/kernel/memory.cpp:105-113 | freeing a block leaves every allocated block, and its payload address, in place |
| ReleaseMemory.AddressesIncrease | release/kernel/memory.cpp:85 | payload addresses increase along the chain, and payloads do not overlap |
| ReleaseMemory.PayloadAligned | release/kernel/memory.cpp:78 | in an 8-aligned chain every payload address is a multiple of 8 |
| ReleaseMemory.TotalBytesAligned | release/kernel/memory.cpp:56 | the reported size, a count of KiB times 1024 on 32 bits, is a multiple of 1024 |
| ReleaseMemory.ReallocMoves | release/kernel/memory.cpp:129-139 | on the moving path, the new block stays allocated, large enough and in place after the old block is freed; the old block is where it was when copied |
| ReleaseMemory.HeapStartAligned | release/kernel/memory.cpp:60-61 | aligning 1 MiB to 4096 leaves it unchanged |
| ReleaseMemory.SingleBlock | release/kernel/memory.cpp:63-67 | a single free block satisfies the chain invariants and is all free space |
| ReleaseMemory.FreeAccounting | release/kernel/memory.cpp:100 | adding to the 32-bit counter keeps it equal to the free bytes minus a header, modulo 2^32 |
| ReleaseMemory.InitializeEstablishes | release/kernel/memory.cpp:48-72 | the heap after initialisation satisfies the heap invariant |
| ReleaseMemory.AllocatePreserves | release/kernel/memory.cpp:74-103 | allocation keeps the heap invariant, with the block's bytes taken off the counter |
| ReleaseMemory.FreePreserves | release/kernel/memory.cpp:105-113 | freeing keeps the heap invariant, with the block's bytes added to the counter |
| ReleaseMemory.Heap.constructor | release/kernel/memory.cpp:7-9 | before initialisation there is no heap and both counters are zero |
| ReleaseMemory.Heap.Initialize | release/kernel/memory.cpp:48-72 | the call succeeds if and only if boot information with memory fields is given; on failure nothing changes; on success the region from 1 MiB to the reported size is one free block and the counter is its size |
| ReleaseMemory.Heap.FindFreeBlock | release/kernel/memory.cpp:16-25 | the result is `FirstFit` of the chain |
| ReleaseMemory.Heap.MergeFreeBlocks | release/kernel/memory.cpp:27-46 | the free block is merged with the whole free run around it; the counters and memory are kept |
| ReleaseMemory.Heap.MergeNext | release/kernel/memory.cpp:29-35 | the forward loop merges the block with its free successors up to the end of the run |
| ReleaseMemory.Heap.MergePrevious | release/kernel/memory.cpp:37-45 | the backward loop extends the merge back to the start of the run |
| ReleaseMemory.Heap.Allocate | release/kernel/memory.cpp:74-103 | the result is null for 0 or when nothing fits, with nothing changed; otherwise it is an allocated block of at least the request, the chain is carved and the counter drops by the block and its header |
| ReleaseMemory.Heap.Free | release/kernel/memory.cpp:105-113 | null does nothing; otherwise the chain is coalesced around the block and the counter grows by the block and its header |
| ReleaseMemory.Heap.CopyBytes | release/kernel/memory.cpp:134 | `memcpy` copies `n` bytes, changes no memory outside the `n` destination bytes, and keeps the chain and the counters |
| ReleaseMemory.Heap.Relocate | release/kernel/memory.cpp:129-139 | if allocation fails, null and nothing changes; otherwise the old payload is copied to the new block, no memory outside those copied bytes changes, and the old block is freed |
| ReleaseMemory.Heap.Reallocate | release/kernel/memory.cpp:115-140 | null behaves as allocate; size 0 frees and gives null; a large enough block is kept; otherwise the block is moved, with the old payload copied and no memory outside the copy changed, or null is returned with nothing changed |
| ReleaseMemory.Heap.MemoryGetTotal | release/kernel/memory.cpp:142-144 | once initialised, the reported size is where the chain ends; before, it is 0 |
| ReleaseMemory.Heap.MemoryGetFree | release/kernel/memory.cpp:146-148 | the counter is the free bytes minus one header, wrapped to 32 bits; it is exact while any bytes are free; before initialisation it is 0 |
| KernelMemory.InitialChain | kernel/memory.cpp:17-23 | `memory_init` creates one free block whose header and payload fill the 1 MiB region |
| KernelMemory.FirstFitFrom | kernel/memory.cpp:25-32 | the result is the first free block large enough; no block before it fits; none means no block fits |
| KernelMemory.MergeAll | kernel/memory.cpp:77-86 | the coalescing pass never lengthens the chain and keeps the first block's state |
| KernelMemory.MergeAllSpans | kernel/memory.cpp:77-86 | the pass keeps the covered bytes and the free bytes |
| KernelMemory.MergeAllNoAdjacent | kernel/memory.cpp:77-86 | after the pass, no two neighbouring blocks are free |
| KernelMemory.MergeAllFixed | kernel/memory.cpp:77-86 | the pass leaves a chain with no two free neighbours unchanged |
| KernelMemory.MergeKeepsUsed | kernel/memory.cpp:77-86 | the pass keeps every allocated block and its payload address |
| KernelMemory.CopySize | kernel/memory.cpp:106 | the copy size is the smaller of the two sizes |
| KernelMemory.MallocGives | kernel/memory.cpp:43-68 | `malloc` of a non-zero size always hands out an allocated block of at least the request, and keeps the other blocks |
| KernelMemory.MallocNoAdjacent | kernel/memory.cpp:43-68 | `malloc` keeps the chain free of adjacent free blocks |
| KernelMemory.MallocThenFree | kernel/memory.cpp:43-87 | freeing a block taken from the chain gives the chain back exactly; an appended block stays in the chain |
| KernelMemory.MergeStepAbsorb | kernel/memory.cpp:80-82 | an absorbing step of the loop does not change what the pass produces |
| KernelMemory.MergeStepAdvance | kernel/memory.cpp:83-84 | an advancing step moves a finished block into the prefix |
| KernelMemory.MergeDone | kernel/memory.cpp:79 | at the last block, the pass's result is what the loop has built |
| KernelMemory.AddressesIncrease | kernel/memory.cpp:36 | payloads of distinct blocks do not overlap |
| KernelMemory.ReallocChain | kernel/memory.cpp:99-109 | `malloc` in `realloc` keeps the old block in place and hands out another block; the two payloads do not overlap; freeing the old one keeps the new one in place |
| KernelMemory.SpanSizesOnly | kernel/memory.cpp:36 | chains with the same block sizes cover the same bytes |
| KernelMemory.MemoryGetTotal | kernel/memory.cpp:120-123 | the result is a fixed 64 MiB, larger than the heap region |
| KernelMemory.MemoryGetFree | kernel/memory.cpp:125-127 | the result is always the size of the initial block, whatever was allocated since |
| KernelMemory.KernelHeap.constructor | kernel/memory.cpp:15 | the heap starts uninitialised |
| KernelMemory.KernelHeap.MemoryInit | kernel/memory.cpp:17-23 | the chain becomes the initial chain |
| KernelMemory.KernelHeap.FindFreeBlock | kernel/memory.cpp:25-32 | the result is the first fit, with `last` the block before it, or the final block when none fits |
| KernelMemory.KernelHeap.RequestSpace | kernel/memory.cpp:34-41 | a new allocated block of the request is appended directly after the final block, with no bound check |
| KernelMemory.KernelHeap.Malloc | kernel/memory.cpp:43-68 | the result is null for 0; otherwise the heap is initialised if needed, and the first fit is marked or a block appended; the block is allocated and large enough |
| KernelMemory.KernelHeap.Free | kernel/memory.cpp:70-87 | null does nothing; otherwise the block is marked free and the whole chain coalesced |
| KernelMemory.KernelHeap.Merge | kernel/memory.cpp:77-86 | the loop computes `MergeAll` of the chain |
| KernelMemory.KernelHeap.Memcpy | kernel/memory.cpp:113-118 | `n` bytes are copied; no other byte and no block changes |
| KernelMemory.KernelHeap.ReallocMove | kernel/memory.cpp:99-110 | a new block is allocated and the smaller size copied into it, with no memory outside the copy changed; the old block is freed |
| KernelMemory.KernelHeap.Realloc | kernel/memory.cpp:89-111 | null behaves as `malloc`; size 0 frees and gives null; otherwise the block always moves, the smaller size is copied and no memory outside the copy changes |
| KernelMemory.KernelHeap.MemoryAllocate | kernel/memory.cpp:129-131 | the same contract as `malloc` |
| KernelMemory.KernelHeap.MemoryFree | kernel/memory.cpp:133-135 | the same contract as `free` |
| Idt.MakeGate | release/kernel/interrupts.cpp:37-43 | the gate's two halves give the handler address back; the selector and flags are as given and the zero byte is 0 |
| Idt.TablePointer | release/kernel/interrupts.cpp:70-71 | the limit is one less than 8 times 256 and the base is the table's address |
| Idt.InitialGate | release/kernel/interrupts.cpp:74-84 | vectors 0, 1, 32 and 33 point at their stubs, with the kernel code selector and interrupt-gate flags; every other vector is an all-zero gate |
| Idt.PicRemapSequence | release/kernel/interrupts.cpp:46-66 | the ten writes map IRQ 0-7 to 0x20 and IRQ 8-15 to 0x28, and end by writing the final mask to both data ports |
| ReleaseInterrupts.Outs | release/kernel/interrupts.cpp:48-65 | each port write becomes one trace event, in order |
| ReleaseInterrupts.MaskPort | release/kernel/interrupts.cpp:104 | the master's data port serves exactly the vectors below 40, and the slave's the rest |
| ReleaseInterrupts.Line | release/kernel/interrupts.cpp:106 | the line is below 8, and the PIC's base plus the line gives the vector back |
| ReleaseInterrupts.LineBit | release/kernel/interrupts.cpp:106 | shifting 1 by a line below 8 gives that line's single bit |
| ReleaseInterrupts.UnmaskOnlyLine | release/kernel/interrupts.cpp:99-109 | registering clears exactly the vector's own line and keeps the other seven |
| ReleaseInterrupts.MaskOnlyLine | release/kernel/interrupts.cpp:111-121 | unregistering sets exactly the vector's own line and keeps the other seven |
| ReleaseInterrupts.MaskRoundTrip | release/kernel/interrupts.cpp:99-121 | unregistering undoes registering on a masked line, and registering undoes unregistering on an unmasked one |
| ReleaseInterrupts.IrqRoutingInjective | release/kernel/interrupts.cpp:103-106 | distinct IRQ vectors own distinct pairs of PIC and line |
| ReleaseInterrupts.EoiWrites | release/kernel/interrupts.cpp:126-131 | a non-IRQ vector gets no EOI; an IRQ always ends with the master's EOI, and the slave gets one if and only if the vector is 40 or more |
| ReleaseInterrupts.InterruptController.constructor | release/kernel/interrupts.cpp:21-23 | the static tables start zeroed, and the PIC masks are whatever the firmware left |
| ReleaseInterrupts.InterruptController.WriteMask | release/kernel/interrupts.cpp:107 | an `outb` to a data port is logged and becomes that PIC's mask; the other PIC's mask is kept |
| ReleaseInterrupts.InterruptController.SetGate | release/kernel/interrupts.cpp:37-43 | entry `num` becomes the gate and no other entry changes |
| ReleaseInterrupts.InterruptController.PicInitialize | release/kernel/interrupts.cpp:46-66 | the remapping writes are logged and both PICs end fully masked |
| ReleaseInterrupts.InterruptController.ClearTables | release/kernel/interrupts.cpp:74-75 | every gate and every handler slot is zero |
| ReleaseInterrupts.InterruptController.InstallGates | release/kernel/interrupts.cpp:78-84 | the table becomes the initial gates |
| ReleaseInterrupts.InterruptController.Initialize | release/kernel/interrupts.cpp:68-97 | the pointer, the gates and empty handlers are set and the PICs fully masked; the trace is the remap, then `lidt`, then `sti`; the result is true |
| ReleaseInterrupts.InterruptController.Register | release/kernel/interrupts.cpp:99-109 | the handler is stored; for an IRQ, exactly one write puts the unmasked byte on its PIC, and the other PIC is kept; otherwise nothing is written |
| ReleaseInterrupts.InterruptController.Unregister | release/kernel/interrupts.cpp:111-121 | the slot is cleared; for an IRQ, exactly one write puts the masked byte on its PIC, and the other PIC is kept; otherwise nothing is written |
| ReleaseInterrupts.InterruptController.InterruptHandler | release/kernel/interrupts.cpp:124-137 | the EOIs come first, then a dispatch to the registered handler if there is one; the masks and tables do not change |
| KernelInterrupts.Outs | kernel/interrupts.cpp:89-98 | each port write becomes one trace event, in order |
| KernelInterrupts.IrqEoi | kernel/interrupts.cpp:69-73 | the master always gets the last EOI; the slave gets one if and only if the vector is 40 or more, with no check that the vector is an IRQ |
| KernelInterrupts.IntToString | kernel/interrupts.cpp:129-166 | the buffer holds the signed decimal text and a NUL; later cells are kept |
| KernelInterrupts.WriteZero | kernel/interrupts.cpp:133-137 | zero gives "0" and a NUL |
| KernelInterrupts.WriteSignedReversed | kernel/interrupts.cpp:139-152 | the digits, then '-' for a negative value, are the signed text reversed |
| KernelInterrupts.TerminateReversed | kernel/interrupts.cpp:154-165 | after the NUL and the in-place reversal, the text reads in order |
| KernelInterrupts.WriteDigitsReversed | kernel/interrupts.cpp:144-148 | the division loop stores the digits least significant first |
| KernelInterrupts.InterruptController.constructor | kernel/interrupts.cpp:28-32 | the table is zero, the tick is 0 and nothing has happened |
| KernelInterrupts.InterruptController.SetGate | kernel/interrupts.cpp:35-41 | entry `num` becomes the gate and no other entry changes |
| KernelInterrupts.InterruptController.PicInit | kernel/interrupts.cpp:87-99 | the remapping writes are logged, ending with every line unmasked |
| KernelInterrupts.InterruptController.ClearTable | kernel/interrupts.cpp:108 | every gate is zero |
| KernelInterrupts.InterruptController.InstallGates | kernel/interrupts.cpp:114-119 | the table becomes the initial gates |
| KernelInterrupts.InterruptController.InterruptsInit | kernel/interrupts.cpp:102-126 | the pointer and the gates are set; the trace is the remap with every line unmasked, then `lidt`, then `sti` |
| KernelInterrupts.InterruptController.TimerHandler | kernel/interrupts.cpp:53-56 | the tick advances by one and wraps at 2^32 |
| KernelInterrupts.InterruptController.IrqHandler | kernel/interrupts.cpp:68-84 | the EOIs come first; vector 32 advances the tick, 33 calls the keyboard driver, and anything else does nothing more |
| KernelInterrupts.InterruptController.IsrHandler | kernel/interrupts.cpp:59-66 | a vector below 32 panics with its decimal number, and any other vector is ignored |
| Scancodes.TablesWellFormed | final-release/kernel/keyboard.cpp:32-46 | both tables cover the same 58 make codes |
| Scancodes.LetterKey | final-release/kernel/keyboard.cpp:32-46 | a key gives a lowercase letter in the plain table if and only if it gives an uppercase letter in the shifted table, its capital; no other key gives a letter |
| Scancodes.ModifierKeysGiveNothing | final-release/kernel/keyboard.cpp:32-53 | ctrl, both shifts and alt have no character in either table |
| Scancodes.DigitRow | final-release/kernel/keyboard.cpp:33 | the digit row relates its two tables by case, entry by entry |
| Scancodes.TopLetterRow | final-release/kernel/keyboard.cpp:34 | the top letter row relates its two tables by case, entry by entry |
| Scancodes.HomeRow | final-release/kernel/keyboard.cpp:35 | the home row relates its two tables by case, entry by entry |
| Scancodes.BottomRows | final-release/kernel/keyboard.cpp:36-37 | the bottom rows relate their two tables by case, entry by entry |
| Ring.Next | final-release/kernel/keyboard.cpp:117 | advancing an index modulo the size stays below the size and wraps to 0 after the last slot |
| Ring.Contents | final-release/kernel/keyboard.cpp:106-128 | the held characters, oldest first, number fewer than the size, and each is the slot at its wrapped position |
| Ring.EmptyIff | final-release/kernel/keyboard.cpp:106-108 | the buffer holds nothing if and only if the two indices meet |
| Ring.FullIff | final-release/kernel/keyboard.cpp:110-112 | the end is one behind the start if and only if size - 1 characters are held |
| Ring.PutAppends | final-release/kernel/keyboard.cpp:116-117 | storing at the end and advancing it appends the character |
| Ring.GetRemovesOldest | final-release/kernel/keyboard.cpp:125-126 | reading at the start and advancing it removes exactly the oldest character |
| Ring.WriteFreeSlot | final-release/kernel/keyboard.cpp:116 | writing the free slot leaves the held characters as they were |
| FinalKeyboard.KeyOf | final-release/kernel/keyboard.cpp:159-160 | stripping the release bit gives a key below 0x80 that is the scancode or the scancode minus 0x80 |
| FinalKeyboard.NextModifiers | final-release/kernel/keyboard.cpp:159-183 | ctrl, alt and either shift follow the key (a press sets, a release clears); caps lock flips on its press only; other keys leave the flags alone |
| FinalKeyboard.WithCtrl | final-release/kernel/keyboard.cpp:191-193 | with ctrl held, a lowercase letter becomes the control character 1 to 26; anything else is kept |
| FinalKeyboard.NonCharacterKeys | final-release/kernel/keyboard.cpp:163-186 | modifier keys, releases and keys beyond the tables produce no character |
| FinalKeyboard.CapsLockToggles | final-release/kernel/keyboard.cpp:174-182 | pressing caps lock twice restores the flags, and releasing it changes nothing |
| FinalKeyboard.LetterCase | final-release/kernel/keyboard.cpp:186-188 | without ctrl, a letter key gives its capital if and only if shift and caps lock disagree |
| FinalKeyboard.CtrlLetter | final-release/kernel/keyboard.cpp:186-193 | with ctrl, a letter gives its control character when shift and caps lock agree, and the capital unchanged when they disagree |
| FinalKeyboard.Keyboard.constructor | final-release/kernel/keyboard.cpp:19-29 | the buffer starts empty and no modifier is held |
| FinalKeyboard.Keyboard.IsEmpty | final-release/kernel/keyboard.cpp:106-108 | the buffer is empty if and only if nothing is held |
| FinalKeyboard.Keyboard.IsFull | final-release/kernel/keyboard.cpp:110-112 | the buffer is full if and only if 127 characters are held |
| FinalKeyboard.Keyboard.Put | final-release/kernel/keyboard.cpp:114-119 | a nonzero character is appended unless the buffer is full; otherwise nothing changes |
| FinalKeyboard.Keyboard.Get | final-release/kernel/keyboard.cpp:121-128 | an empty buffer gives NUL and does not change; otherwise the oldest character is returned and removed |
| FinalKeyboard.Keyboard.Clear | final-release/kernel/keyboard.cpp:130-132 | both indices are 0 and nothing is held |
| FinalKeyboard.Keyboard.Getchar | final-release/kernel/keyboard.cpp:151-153 | the same contract as the buffer get |
| FinalKeyboard.Keyboard.Handler | final-release/kernel/keyboard.cpp:155-197 | with no byte waiting nothing changes; otherwise the flags advance by the scancode and the key's character, if any, is put into the buffer |
| FinalKeyboard.Keyboard.PutKey | final-release/kernel/keyboard.cpp:186-196 | a pressed key within the tables is translated and put |
| FinalKeyboard.Keyboard.Translate | final-release/kernel/keyboard.cpp:187-193 | the table lookup and the ctrl mapping give `KeyChar` |
| ReleaseKeyboard.FlipCase | release/kernel/keyboard.cpp:115-117 | flipping bit 5 turns a lowercase letter into its capital and a capital into its lowercase letter |
| ReleaseKeyboard.NextFlags | release/kernel/keyboard.cpp:87-98 | a shift make code sets shift and its break code clears it; the caps lock make code flips caps lock; nothing else touches the flags |
| ReleaseKeyboard.LetterCase | release/kernel/keyboard.cpp:106-117 | a letter key gives its capital if and only if shift and caps lock disagree |
| ReleaseKeyboard.CasedLetter | release/kernel/keyboard.cpp:108-117 | shift picks the table and caps lock flips the case, so the capital comes exactly when the two disagree |
| ReleaseKeyboard.CapsLeavesNonLetters | release/kernel/keyboard.cpp:115-117 | caps lock does not change digits or punctuation |
| ReleaseKeyboard.ReleasesIgnored | release/kernel/keyboard.cpp:100-103 | releases of ordinary keys give no character and change no flag |
| ReleaseKeyboard.Keyboard.constructor | release/kernel/keyboard.cpp:16-20 | the buffer starts empty and both flags clear |
| ReleaseKeyboard.Keyboard.Handler | release/kernel/keyboard.cpp:81-128 | the flags advance by the scancode, and the translated character is queued when it is not NUL and there is room |
| ReleaseKeyboard.Keyboard.Enqueue | release/kernel/keyboard.cpp:119-126 | a nonzero character is stored when the next end is not the start |
| ReleaseKeyboard.Keyboard.Getchar | release/kernel/keyboard.cpp:131-138 | an empty buffer gives NUL; otherwise the oldest character is returned and removed |
| ReleaseKeyboard.Keyboard.Available | release/kernel/keyboard.cpp:141-143 | a character is available if and only if something is held |
| ReleaseKeyboard.Keyboard.ClearBuffer | release/kernel/keyboard.cpp:145-147 | both indices are 0 and nothing is held |
| KernelKeyboard.NextFlags | kernel/keyboard.cpp:73-91 | ctrl and shift follow their make and break codes, the caps lock make code flips caps lock, and every other code leaves the flags alone |
| KernelKeyboard.NonCharacterCodes | kernel/keyboard.cpp:73-101 | flag codes, releases and keys beyond the tables give NUL |
| KernelKeyboard.ReleasesKeepFlags | kernel/keyboard.cpp:94-97 | releases other than those of ctrl and the shifts change no flag |
| KernelKeyboard.LetterCase | kernel/keyboard.cpp:118-125 | without ctrl, a letter gives its capital if and only if shift and caps lock disagree; with ctrl and the two agreeing, it gives 1 to 26 |
| KernelKeyboard.Keyboard.constructor | kernel/keyboard.cpp:18-21 | the flags start cleared |
| KernelKeyboard.Keyboard.Getchar | kernel/keyboard.cpp:67-130 | with no byte waiting, the result is NUL and nothing changes; otherwise the flags advance and the key's character is returned |
| KernelKeyboard.Keyboard.Handler | kernel/keyboard.cpp:132-136 | the pending key changes the flags and its character is dropped |
| KeyboardDrafts.FinalMatchesKernel | final-release/kernel/keyboard.cpp:155-197 | the final and first drafts produce the same character for every scancode |
| KeyboardDrafts.ModifierKeyMatches | final-release/kernel/keyboard.cpp:163-173 | the final draft's modifier keys give NUL in both drafts |
| KeyboardDrafts.FinalFlagsMatchKernel | final-release/kernel/keyboard.cpp:159-183 | the two drafts update ctrl, shift and caps lock alike for every scancode |
| KeyboardDrafts.CapsLockOnDigits | release/kernel/keyboard.cpp:106-117 | with caps lock on and shift up, the '1' key gives '!' in the final draft and '1' in the release draft |
| TextLines.NewlineAt | kernel/editor.cpp:84-86 | the position is the first '\n', or the length when there is none |
| TextLines.NewlineAtIs | kernel/editor.cpp:84-86 | a stretch free of '\n' that ends at a '\n' or at the end locates the first '\n' |
| TextLines.Pieces | kernel/editor.cpp:41-59 | there is always at least one piece, even for an empty text |
| TextLines.FirstPiece | kernel/editor.cpp:81-86 | the first piece runs up to the first '\n' |
| TextLines.LinesJoin | release/kernel/editor.cpp:100-119 | putting a '\n' after each line gives back the text, with a final '\n' added if it lacked one |
| TextLines.LinesOfTerminated | release/kernel/editor.cpp:100-119 | adding the missing final '\n' does not change the lines |
| TextLines.LinesHaveNoNewline | release/kernel/editor.cpp:100-119 | no line holds a '\n' |
| TextLines.TerminatedCons | release/kernel/editor.cpp:100-119 | a '\n' splits a terminated text into the part before it and the terminated rest |
| TextLines.PiecesCount | kernel/editor.cpp:41-48 | there is one piece more than there are '\n's, and no piece holds one |
| TextLines.PiecesInterleave | kernel/editor.cpp:50-59 | putting the '\n's back between the pieces gives the text |
| TextLines.LinesArePieces | release/kernel/editor.cpp:100-119 | the lines are the pieces without the empty one that a final '\n' or an empty text leaves |
| TextLines.LinesAt | release/kernel/editor.cpp:100-119 | where the first '\n' is, the lines and the pieces are the part before it followed by those of the rest |
| KernelEditor.BreakFrom | kernel/editor.cpp:54 | the next '\n' at or after a position, or the length, with no '\n' in between |
| KernelEditor.BreakAt | kernel/editor.cpp:54 | a stretch free of '\n' that ends at a '\n' or at the end locates the next break |
| KernelEditor.BreakFromRest | kernel/editor.cpp:54 | searching from a position is searching the rest of the text |
| KernelEditor.LineStart | kernel/editor.cpp:50-59 | a line start found by hopping over breaks lies within the text |
| KernelEditor.PiecesAt | kernel/editor.cpp:50-59 | hopping over breaks always yields at least one piece |
| KernelEditor.LineStartPieces | kernel/editor.cpp:41-59 | `get_line` finds line k exactly when `get_num_lines` counts more than k lines, and that line runs up to the next '\n' as piece k does |
| KernelEditor.PiecesAtRest | kernel/editor.cpp:50-59 | hopping over breaks finds the same pieces as splitting the rest of the text |
| KernelEditor.Visible | kernel/editor.cpp:83-92 | a row shows nothing of a line no longer than the column offset, else at most the width of the line's characters from the offset on, and all of them when they fit |
| KernelEditor.WelcomeRow | kernel/editor.cpp:68-76 | the banner is written whole, after padding of half the room left on a screen wide enough for it |
| KernelEditor.Row | kernel/editor.cpp:64-94 | a row within the file shows the visible part of its line; a row past the last line shows the banner on an empty buffer a third of the way down, and a '~' otherwise |
| KernelEditor.RowFits | kernel/editor.cpp:83-92 | every row showing text fits the width and holds no '\n' |
| KernelEditor.RowsShowText | kernel/editor.cpp:61-96 | unscrolled, with every line fitting the width, the rows joined by '\n' give back the whole text |
| KernelEditor.TerminatedText | kernel/editor.cpp:142 | with a terminator right after the text and none inside it, the C string is the text |
| KernelEditor.NumLines | kernel/editor.cpp:41-48 | 0 for a null buffer, else the number of pieces, one more than the number of '\n's |
| KernelEditor.NextNewline | kernel/editor.cpp:54 | the next '\n' before the terminator, or nothing |
| KernelEditor.GetLine | kernel/editor.cpp:50-59 | nothing for a null buffer, else the start of the requested line when the text has that many breaks |
| KernelEditor.Editor.constructor | kernel/editor.cpp:27-39 | an empty, unnamed editor on a 24 by 80 screen with the cursor home and no scrolling |
| KernelEditor.Editor.InsertChar | kernel/editor.cpp:127-143 | with both allocations granted, the text gets the character at the cursor, the cursor moves right and the text stays terminated; a refused first allocation changes nothing; a refused growth keeps the text |
| KernelEditor.Editor.GrowAndInsert | kernel/editor.cpp:134-142 | the grown buffer holds the text with the character inserted at the cursor, then the terminator |
| KernelEditor.Editor.InsertedCells | kernel/editor.cpp:138-142 | the shifted cells with the character stored and the terminator added are the text with the character inserted |
| KernelEditor.Editor.ProcessKeypress | kernel/editor.cpp:145-171 | no key changes nothing; Ctrl-Q quits; Ctrl-S hands the text and the file name to `write_file` if there is a name; a printable key is always handled: inserted at the cursor, which moves one right, when both allocations are granted, otherwise the text and cursor are kept; any other key is ignored and leaves the cursor; no key changes the cursor row |
| KernelEditor.Editor.RefreshRows | kernel/editor.cpp:61-96 | one row for each screen row above the status line, each as `Row` gives it |
| KernelEditor.Editor.ScreenRow | kernel/editor.cpp:65-94 | the row for screen row y, as `Row` gives it |
| KernelEditor.Editor.PastEnd | kernel/editor.cpp:67-79 | a row past the last line is the banner or a '~' |
| KernelEditor.Editor.TextRow | kernel/editor.cpp:65-94 | a row over a text, as `Row` gives it |
| KernelEditor.Editor.FileRow | kernel/editor.cpp:81-93 | the row shows the visible part of the file line |
| KernelEditor.Editor.LineRow | kernel/editor.cpp:82-92 | the row shows the visible part of the line up to the next '\n' or the terminator |
| KernelEditor.Editor.ShownPart | kernel/editor.cpp:88-92 | the cells copied for a row are the visible part of its line |
| KernelEditor.Editor.LineLength | kernel/editor.cpp:83-86 | the length up to the next '\n', or up to the terminator on the last line |
| KernelEditor.Editor.Realloc | kernel/editor.cpp:134-136 | the grown block keeps the old cells |
| KernelEditor.Editor.ShiftRight | kernel/editor.cpp:138 | the cells from the cursor move one place right and the cells before the cursor are kept |
| ReleaseFilesystem.FindFrom | release/kernel/filesystem.cpp:24-28 | the first slot at or after a position that is in use and holds the name, or nothing when no such slot exists |
| ReleaseFilesystem.Find | release/kernel/filesystem.cpp:51-57 | the first used slot holding the name, or nothing when none holds it |
| ReleaseFilesystem.FirstUnusedFrom | release/kernel/filesystem.cpp:31-40 | the first unused slot at or after a position, or nothing when all are used |
| ReleaseFilesystem.FirstUnused | release/kernel/filesystem.cpp:31-40 | the lowest-index unused slot, or nothing when the table is full |
| ReleaseFilesystem.FindFromSame | release/kernel/filesystem.cpp:24-28 | lookups agree on two tables where every slot holds the name in both or in neither |
| ReleaseFilesystem.StoredElsewhere | release/kernel/filesystem.cpp:31-40 | changing one slot leaves the contents under every name that slot neither held nor holds |
| ReleaseFilesystem.StoredSameNames | release/kernel/filesystem.cpp:53-54 | changing only one slot's data moves no name |
| ReleaseFilesystem.UsedCountMark | release/kernel/filesystem.cpp:36-37 | marking an unused slot used adds one to the used count |
| ReleaseFilesystem.UsedCountSame | release/kernel/filesystem.cpp:35-37 | tables with the same used flags have the same used count |
| ReleaseFilesystem.UsedCountNone | release/kernel/filesystem.cpp:10-16 | a table with no used slot counts zero |
| ReleaseFilesystem.FileSystem.constructor | release/kernel/filesystem.cpp:7-8 | the static table starts with every slot unused and the counter 0 |
| ReleaseFilesystem.FileSystem.FilesystemInit | release/kernel/filesystem.cpp:10-16 | every slot is marked unused, names and data are kept, and the counter is 0 |
| ReleaseFilesystem.FileSystem.FindFile | release/kernel/filesystem.cpp:51-57 | the lookup loop finds the first used slot holding the name |
| ReleaseFilesystem.FileSystem.CreateFile | release/kernel/filesystem.cpp:18-43 | success if and only if the name is given, shorter than 32 characters, not in use, and the table has room; then the name holds an empty file, the count goes up and every other name keeps its contents; on failure -1 and nothing changes |
| ReleaseFilesystem.FileSystem.Claim | release/kernel/filesystem.cpp:31-39 | the lowest unused slot takes the name and size 0; the count goes up and other names are untouched |
| ReleaseFilesystem.FileSystem.Store | release/kernel/filesystem.cpp:53-54 | the file then holds the first `size` bytes of the data; other names are untouched |
| ReleaseFilesystem.FileSystem.WriteFile | release/kernel/filesystem.cpp:45-74 | success if and only if the name and data are given, the size is at most 4096, and the file exists or can be created; then the name holds the bytes and every other name keeps its contents; on failure -1 and nothing changes |
| ReleaseFilesystem.FileSystem.ReadFile | release/kernel/filesystem.cpp:76-91 | success if and only if the name, buffer and size pointer are given and the file exists; then the bytes and size are those stored; otherwise -1 |
| ReleaseFilesystem.FileSystem.FileExists | release/kernel/filesystem.cpp:124-134 | true if and only if a name is given and some used slot holds it |
| ReleaseEditor.Removed | release/kernel/editor.cpp:67-90 | the text one shorter: the characters before position cursor - 1 are kept and the rest close up |
| ReleaseEditor.DeleteUndoesAppend | release/kernel/editor.cpp:40-90 | with the cursor at the end, a deletion takes back the character just appended |
| ReleaseEditor.RemovedCells | release/kernel/editor.cpp:74-82 | the two copies of a deletion leave the text without the character before the cursor |
| ReleaseEditor.NoBreakIn | release/kernel/editor.cpp:102-105 | a stretch whose every character differs from '\n' holds none |
| ReleaseEditor.Cut | release/kernel/editor.cpp:108-111 | a line cut to the width is a prefix of at most the width, the whole line when it fits |
| ReleaseEditor.Shown | release/kernel/editor.cpp:96-119 | the refresh writes the first screen-rows lines of the text, each cut to the width |
| ReleaseEditor.ShownFits | release/kernel/editor.cpp:100-119 | no more lines than rows are shown, and no shown line is wider than the screen or holds a '\n' |
| ReleaseEditor.ShownComplete | release/kernel/editor.cpp:96-119 | when every line fits the screen, the rows are the text's lines and, each ended by a line break, they give back the text |
| ReleaseEditor.Editor.constructor | release/kernel/editor.cpp:19-29 | an empty, unnamed editor; a zero dimension from the terminal becomes 24 rows or 80 columns, and one row is kept for the status line |
| ReleaseEditor.Editor.InsertChar | release/kernel/editor.cpp:40-65 | granted, the character is appended at the end of the text wherever the cursor is, the buffer is terminated, and the cursor advances, wrapping at the screen width; refused, nothing changes |
| ReleaseEditor.Editor.DeleteChar | release/kernel/editor.cpp:67-90 | with a nonempty text, the cursor past column 0 and the allocation granted, the character before the cursor is removed and the cursor moves back; otherwise nothing changes |
| ReleaseEditor.Editor.ProcessKeypress | release/kernel/editor.cpp:155-194 | Enter appends a line break and moves the cursor to column 0 of the next row even when the allocation is refused; backspace deletes the character before the cursor and moves it back one, or changes nothing; Ctrl-Q quits; Ctrl-S, with both a file name and a buffer, is the call to the `write_file` stub, which stores nothing; a printable key is appended and the cursor advances, wrapping at the width, or nothing changes when the allocation is refused; 0, Ctrl-Q, Ctrl-S and ignored keys keep the cursor |
| ReleaseEditor.Editor.RefreshLines | release/kernel/editor.cpp:92-119 | the lines written are those `Shown` gives, or none for a null buffer |
| ReleaseEditor.Editor.RefreshText | release/kernel/editor.cpp:97-119 | the scan over the text writes exactly the shown lines |
| ReleaseEditor.Editor.ScanRow | release/kernel/editor.cpp:101-118 | one round of the scan keeps its invariant and consumes one line |
| ReleaseEditor.Editor.NextRow | release/kernel/editor.cpp:101-114 | the row is the cut line from the position up to the next '\n' or the end |
| ReleaseEditor.Editor.LineEnd | release/kernel/editor.cpp:102-105 | the end of the line is the next '\n', or the end of the text, with no '\n' before it |
| ReleaseEditor.Editor.CopyRemoved | release/kernel/editor.cpp:70-82 | the new buffer starts with the text without the character before the cursor |
| ReleaseEditor.Editor.CopyInto | release/kernel/editor.cpp:48 | the copied cells land at the destination and every other cell is kept |
| ReleaseEditor.CutAllAt | release/kernel/editor.cpp:108-111 | line k of the cut lines is line k, cut |
| ReleaseEditor.ScanStart | release/kernel/editor.cpp:97-98 | the scan's invariant holds before any line is read |
| ReleaseEditor.RowStep | release/kernel/editor.cpp:101-118 | the scan's invariant is kept past one line |
| ReleaseEditor.LinesStep | release/kernel/editor.cpp:101-117 | the lines consumed, followed by the lines of the rest, are still the text's lines after one more line |
| ReleaseEditor.RefreshDone | release/kernel/editor.cpp:100 | when the scan stops, at the end of the text or of the screen, the rows written are the shown ones |
| ReleaseEditor.NextLine | release/kernel/editor.cpp:101-117 | the lines from a position are the line up to the next '\n' followed by the lines after it |
| KernelCompiler.BlankRun | kernel/compiler.cpp:45 | the count of leading spaces and tabs, stopping at the first other character |
| KernelCompiler.BlankRunIs | kernel/compiler.cpp:45 | a run of blanks followed by a non-blank or the end is the blank run |
| KernelCompiler.DigitRun | kernel/compiler.cpp:60-63 | the count of leading decimal digits, stopping at the first non-digit |
| KernelCompiler.DigitRunIs | kernel/compiler.cpp:60-63 | a run of digits followed by a non-digit or the end is the digit run |
| KernelCompiler.LeadingDigits | kernel/compiler.cpp:60-63 | the leading digits are all digits |
| KernelCompiler.PushNumber | kernel/compiler.cpp:55-64 | `push` then the decimal text of n pushes n modulo 256, with one operand |
| KernelCompiler.PushDigits | kernel/compiler.cpp:55-64 | `push`, a blank and a run of digits give that run's value modulo 256 as the one operand |
| KernelCompiler.PushWord | kernel/compiler.cpp:55-64 | a text starting with `push` takes the push branch |
| KernelCompiler.SkipOne | kernel/compiler.cpp:45 | one blank before a text that does not start with one is skipped |
| KernelCompiler.LeadingDigitsOf | kernel/compiler.cpp:60-63 | digits followed by a non-digit are read up to the non-digit |
| KernelCompiler.CommentIsNop | kernel/compiler.cpp:45-50 | a line whose first character after blanks is '#' or ';' is a no-op, whatever follows |
| KernelCompiler.AccumulateLowByte | kernel/compiler.cpp:61 | accumulating into a byte keeps the low byte of the decimal value |
| KernelCompiler.TokenizeLine | kernel/compiler.cpp:38-72 | true if and only if the line is accepted, and then the record is the tokenization; a rejected line leaves the reset no-op record |
| KernelCompiler.TokenizeAt | kernel/compiler.cpp:53-71 | the branches after the blanks accept exactly the texts the tokenization accepts |
| KernelCompiler.PushOperand | kernel/compiler.cpp:57-63 | the operand is the leading digits after the word and the blanks, as a byte |
| KernelCompiler.SkipBlankChars | kernel/compiler.cpp:45 | the index moves past exactly the blank run |
| KernelCompiler.Matches | kernel/compiler.cpp:53-65 | the comparison succeeds if and only if the text starts with the word |
| KernelCompiler.ReadOperand | kernel/compiler.cpp:59-63 | the accumulated byte is the leading digits' value modulo 256 |
| KernelCompiler.OperandEnds | kernel/compiler.cpp:60-63 | the digit loop stops exactly at the end of the leading digits |
| KernelCompiler.DigitStep | kernel/compiler.cpp:61 | one more digit keeps the byte equal to the longer run's value modulo 256 |
| KernelCompiler.SplitFrom | kernel/compiler.cpp:93-112 | there are never more lines than characters left |
| KernelCompiler.Clip | kernel/compiler.cpp:97-100 | a line is cut to its first 255 characters, whole when it is no longer |
| KernelCompiler.TokenizeAll | kernel/compiler.cpp:102-108 | an accepted source has one record per line |
| KernelCompiler.Texts | kernel/compiler.cpp:99-100 | each line is read up to its first NUL |
| KernelCompiler.Encode | kernel/compiler.cpp:115-124 | the binary is six bytes per record |
| KernelCompiler.Decode | kernel/compiler.cpp:115-124 | a binary of six bytes per record decodes to that many records |
| KernelCompiler.DecodeEncode | kernel/compiler.cpp:115-124 | decoding the binary gives back the records |
| KernelCompiler.TokenizedWellFormed | kernel/compiler.cpp:6-10 | every record produced has its four operand bytes |
| KernelCompiler.TokenizeAllAt | kernel/compiler.cpp:102-108 | record k is the tokenization of line k |
| KernelCompiler.CompileSuccess | kernel/compiler.cpp:74-130 | on success the binary holds one record per line, each the tokenization of its line, and the size is six bytes per record |
| KernelCompiler.CompileFailure | kernel/compiler.cpp:74-130 | compilation fails if and only if the source is empty, an allocation is refused or some line is rejected |
| KernelCompiler.FirstRejected | kernel/compiler.cpp:102-106 | when the lines are rejected, some line is rejected by the tokenizer |
| KernelCompiler.SplitCovers | kernel/compiler.cpp:94 | a nonempty source has at least one line, since its last character always ends one |
| KernelCompiler.UnterminatedRetRejected | kernel/compiler.cpp:94-99 | as written, `ret` without a final '\n' is split into the line `re` and rejected, although `ret` is an accepted line |
| KernelCompiler.LinesAgreeWhenTerminated | kernel/compiler.cpp:93-112 | on a source whose last line ends in '\n', the lines as written are the text's lines, each cut to 255 characters |
| KernelCompiler.IntendedCompileTerminated | kernel/compiler.cpp:93-112 | as intended, ending the last line with '\n' or not gives the same result |
| KernelCompiler.IntendedAgrees | kernel/compiler.cpp:74-130 | on a source whose last line ends in '\n', the intended and the written compilation agree |
| KernelCompiler.IntendedRetAccepted | kernel/compiler.cpp:94-130 | as intended, `ret` alone compiles to its one six-byte record |
| KernelCompiler.ClipAll | kernel/compiler.cpp:97-100 | every line is cut to 255 characters |
| KernelCompiler.SplitAgree | kernel/compiler.cpp:93-112 | the scan from any point within a line agrees with the lines of the rest, on a terminated source |
| KernelCompiler.CompileCode | kernel/compiler.cpp:74-130 | the result is `Compile` of the first `length` characters |
| KernelCompiler.ScanLines | kernel/compiler.cpp:88-112 | the scan succeeds if and only if every line is accepted, and then the array holds the records in order |
| KernelCompiler.StoreLine | kernel/compiler.cpp:95-109 | a line end stores the line's record, or fails the scan when it is rejected |
| KernelCompiler.LineEndScan | kernel/compiler.cpp:94-109 | at a line end the scan is this line's record followed by the scan of the rest |
| KernelCompiler.Append | kernel/compiler.cpp:102 | the array holds one more record after the earlier ones |
| KernelCompiler.ScanTokenizesLines | kernel/compiler.cpp:88-112 | the scan tokenizes exactly the lines the split gives |
| KernelCompiler.NextRecord | kernel/compiler.cpp:96-102 | the record is the tokenization of the line copied out of the source |
| KernelCompiler.LineEnds | kernel/compiler.cpp:94-109 | at a line end, the lines from here are this line followed by those after it |
| KernelCompiler.CopyLine | kernel/compiler.cpp:96-100 | the line buffer holds the line cut to 255 characters, terminated |
| KernelCompiler.SameText | kernel/compiler.cpp:100 | a terminator and what follows it do not change the C string |
| KernelCompiler.EncodeInto | kernel/compiler.cpp:116-124 | the fresh binary holds the records' bytes |
| KernelCompiler.StoreRecord | kernel/compiler.cpp:124 | one record's six bytes are written and earlier bytes are kept |
| KernelCompiler.EncodeSnoc | kernel/compiler.cpp:115-124 | encoding one more record appends its six bytes |

## Left out

- The port instructions themselves (`inb`, `outb`), `lidt`, `sti`, `cli` and `hlt`, and the assembly interrupt stubs are hardware effects. Port writes appear only as entries of the output log, the two PIC masks as state, and loading the table and enabling interrupts as log events.
- `execute_binary` (kernel/compiler.cpp:132-150) jumps into a data buffer as code, which has no meaning in the model.
- `compiler_init` only resets two static variables that `compile_code` never reads, so it has no effect to model.
- The boot and shutdown plumbing is not modelled: `kernel_main`'s loops beyond the magic check, `init_subsystems`, `kernel_init`, `kernel_panic`, and the Ctrl-Q halt loops. The editors' Ctrl-Q gives a `Quit` outcome instead.
- The keyboard's hardware polling is not modelled: `keyboard_wait`, `keyboard_ack`, `keyboard_has_key`, `keyboard_read_scancode`, the `keyboard_initialize`/`keyboard_init` handshakes and the caps-lock LED writes. The byte waiting in the controller is a parameter (`Option<byte>`) of the handlers and of the first draft's `keyboard_getchar`.
- The final draft's modifier getters (final-release/kernel/keyboard.cpp:135-149) only read flags that the model exposes as fields.
- `terminal_movecursor` writes the cursor position to CRT controller ports, so the terminals and editors leave that write out.
- Of `editor_refresh_screen` only the rows of text are modelled. The status line, the `\r\n` output, the welcome line of the release draft and the cursor placement are terminal output.
- `editor_open` in both drafts is not part of this model. It depends on `read_file` overloads that are stubs or missing, on `strdup` and on `free`.
- `free` of the editors' old buffers is not modelled: a replaced buffer is simply dropped.
- The stub `read_file`/`write_file` at release/kernel/filesystem.cpp:93-104 and `list_files` (terminal output) are not part of this model.
- The physical addresses 0x100000 (heap start) and 0xB8000 (VGA memory) are not modelled as such. The heaps are block sequences whose payload addresses are computed from 1 MiB, and VGA memory is an array of 2000 cells passed to the terminal.
- Whether an allocation succeeds is a boolean parameter wherever a caller of `malloc`/`realloc` needs it: the editors, `strdup` and `compile_code`.
- KernelString.Strncpy: only for a source shorter than `n`. For a longer source, the counter wraps below zero and the padding loop writes past the buffer; that case is modelled by counts only, in `KernelString.StrncpyOverrun` (see Findings).
- KernelStdio.Itoa: only for bases 2 to 36, and not for `INT_MIN` in base 10, whose negation overflows. It also requires an output buffer long enough for the text.
- KernelStdio.ItoaNonzero: the same restrictions as KernelStdio.Itoa.
- KernelInterrupts.IntToString: not for `INT_MIN`, whose negation overflows, and only with a buffer long enough for the text.
- KernelStdio.Vsnprintf: only where the output fills the buffer before any undefined step: a missing or mistyped argument, or `INT_MIN` for `%d`. The rendering up to that point is still stated.
- ReleaseString.Vsnprintf: the same restriction, and a trailing lone '%' counts as undefined because the loop then reads past the terminator.
- KernelStdio.Sprintf: only for a format whose rendering is defined and fits the destination, since `sprintf` has no bound.
- ReleaseMemory.Heap.Initialize: a reported memory size below 1 MiB plus one header is excluded. The heap size would then underflow.
- KernelMemory.KernelHeap.Memcpy: only for ranges that do not overlap. The byte-by-byte forward copy is not modelled for overlapping ranges.
- ReleaseString.Memcpy: only for distinct source and destination buffers.
- KernelString.Strcpy: only for distinct source and destination buffers.
- KernelEditor.Editor.RefreshRows: only for a terminated buffer. After a refused `realloc` the first draft can keep a fresh one-byte buffer with no terminator, and `strlen` would then read past it.
- ReleaseEditor.Editor.ProcessKeypress: Ctrl-S is the call to `write_file(const char*, const char*, size_t)` (release/kernel/filesystem.h:25), whose definition (release/kernel/filesystem.cpp:100-104) is a stub that stores nothing and returns 0, so the `Save` outcome records the request and not a stored file; it is not `ReleaseFilesystem.FileSystem.WriteFile`, which models the byte overload. The terminal messages "Exiting editor..." (Ctrl-Q) and "File saved." (Ctrl-S) and the halt loop are not modelled.
- KernelEditor.Editor.ProcessKeypress: the `write_file` that Ctrl-S calls is not part of this model, so the `Save` outcome records the request only; the screen clear and halt loop of Ctrl-Q are not modelled.
- KernelEditor.Editor.InsertChar: the contents of a freshly allocated one-byte buffer are not stated when growing it fails, since `malloc` leaves them unspecified.
- The first draft's `request_space` has no bound against the heap's end. The model keeps appending, as the code does, without checking any memory limit.

## Findings

| source | as written | input that shows it | evidently intended | confidence | as-written member | corrected member |
|---|---|---|---|---|---|---|
| kernel/stdio.cpp:98-107 | a negative value in a base other than 10 keeps its sign, so `num % base` is negative and the stored "digits" fall below '0' | `itoa(-1, buf, 16)` stores "/" | the value's 32-bit two's-complement pattern in that base ("ffffffff") | not executed | KernelStdio.ItoaNegativeNonDecimal | KernelStdio.UnsignedItoaRoundTrip |
| kernel/compiler.cpp:94-97 | the last line ends at the source's last character, but the line length excludes that character, so a final line with no '\n' loses its last character | `compile_code("ret", 3)` fails with the invalid-instruction message, because the tokenizer is handed "re" | the final line is taken whole, so ending it with '\n' or not makes no difference | not executed | KernelCompiler.UnterminatedRetRejected | KernelCompiler.IntendedCompileTerminated |
| kernel/string.cpp:49-54 | the first loop's test decrements the counter even when it is already 0, so with a source of `n` or more characters the 32-bit `size_t` wraps to 2^32 - 1 and the padding loop writes that many NULs past the `n` cells | `strncpy(dest, "ab", 2)` | exactly `n` cells: the source cut at `n`, then NUL padding, as the release draft's `strncpy` (release/v1.0.0/kernel/string.cpp:41-50) does | not executed | KernelString.StrncpyOverrun | ReleaseString.Strncpy |
