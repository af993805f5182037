/**
 * The US-layout translation tables of PS/2 scancode set 1 used by all three
 * keyboard drivers of the kernel; the drafts carry byte-identical copies.
 * Index = make code, value = character (0 where the key produces none).
 */
module Scancodes {

  const RegularMap: seq<char> :=
    ['\0', '\0', '1', '2', '3', '4', '5', '6', '7', '8', '9', '0', '-', '=', 8 as char]
    + ['\t', 'q', 'w', 'e', 'r', 't', 'y', 'u', 'i', 'o', 'p', '[', ']', '\n']
    + ['\0', 'a', 's', 'd', 'f', 'g', 'h', 'j', 'k', 'l', ';', '\'', '`']
    + ['\0', '\\', 'z', 'x', 'c', 'v', 'b', 'n', 'm', ',', '.', '/', '\0']
    + ['*', '\0', ' ']

  const ShiftMap: seq<char> :=
    ['\0', '\0', '!', '@', '#', '$', '%', '^', '&', '*', '(', ')', '_', '+', 8 as char]
    + ['\t', 'Q', 'W', 'E', 'R', 'T', 'Y', 'U', 'I', 'O', 'P', '{', '}', '\n']
    + ['\0', 'A', 'S', 'D', 'F', 'G', 'H', 'J', 'K', 'L', ':', '"', '~']
    + ['\0', '|', 'Z', 'X', 'C', 'V', 'B', 'N', 'M', '<', '>', '?', '\0']
    + ['*', '\0', ' ']

  /** `sizeof(regular_map)`: the tables cover make codes 0x00..0x39. */
  const TableLength: nat := 58

  predicate IsLower(c: char) { 'a' <= c <= 'z' }
  predicate IsUpper(c: char) { 'A' <= c <= 'Z' }

  /** Both tables have the same length. */
  lemma TablesWellFormed()
    ensures |RegularMap| == |ShiftMap| == TableLength
  {
  }

  /**
   * Key `k` is a letter key when the plain table gives a lowercase letter; the shifted
   * table then gives its capital (32 below it), and no other key gives a letter.
   */
  lemma LetterKey(k: nat)
    requires k < TableLength
    ensures IsLower(RegularMap[k]) <==> IsUpper(ShiftMap[k])
    ensures IsLower(RegularMap[k]) ==> ShiftMap[k] as int == RegularMap[k] as int - 32
    ensures !IsUpper(RegularMap[k]) && !IsLower(ShiftMap[k])
  {
    if k < 15 {
      DigitRow(k);
    } else if k < 29 {
      TopLetterRow(k);
    } else if k < 42 {
      HomeRow(k);
    } else {
      BottomRows(k);
    }
  }

  /** Ctrl (0x1D), left shift (0x2A), right shift (0x36) and alt (0x38) have no character in either table. */
  lemma ModifierKeysGiveNothing()
    ensures RegularMap[0x1D] == RegularMap[0x2A] == RegularMap[0x36] == RegularMap[0x38] == '\0'
    ensures ShiftMap[0x1D] == ShiftMap[0x2A] == ShiftMap[0x36] == ShiftMap[0x38] == '\0'
  {
  }

  /** The two tables agree on case at key `k`, as `LetterKey` states it. */
  predicate CaseRelated(k: nat)
    requires k < TableLength
  {
    (IsLower(RegularMap[k]) <==> IsUpper(ShiftMap[k]))
    && (IsLower(RegularMap[k]) ==> ShiftMap[k] as int == RegularMap[k] as int - 32)
    && !IsUpper(RegularMap[k]) && !IsLower(ShiftMap[k])
  }

  // One case per key in each row: each table entry is then a concrete lookup.

  lemma DigitRow(k: nat)
    requires k < 15
    ensures CaseRelated(k)
  {
    assert k == 0 || k == 1 || k == 2 || k == 3 || k == 4 || k == 5 || k == 6 || k == 7 || k == 8 || k == 9 ||
      k == 10 || k == 11 || k == 12 || k == 13 || k == 14;
  }

  lemma TopLetterRow(k: nat)
    requires 15 <= k < 29
    ensures CaseRelated(k)
  {
    assert k == 15 || k == 16 || k == 17 || k == 18 || k == 19 || k == 20 || k == 21 || k == 22 || k == 23 ||
      k == 24 || k == 25 || k == 26 || k == 27 || k == 28;
  }

  lemma HomeRow(k: nat)
    requires 29 <= k < 42
    ensures CaseRelated(k)
  {
    assert k == 29 || k == 30 || k == 31 || k == 32 || k == 33 || k == 34 || k == 35 || k == 36 || k == 37 ||
      k == 38 || k == 39 || k == 40 || k == 41;
  }

  lemma BottomRows(k: nat)
    requires 42 <= k < TableLength
    ensures CaseRelated(k)
  {
    assert k == 42 || k == 43 || k == 44 || k == 45 || k == 46 || k == 47 || k == 48 || k == 49 || k == 50 ||
      k == 51 || k == 52 || k == 53 || k == 54 || k == 55 || k == 56 || k == 57;
  }
}
