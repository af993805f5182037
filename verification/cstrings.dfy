/**
 * C strings held in character buffers, and the routines that both drafts
 * of the string library implement with the same code: `strlen` and
 * `strcmp`. Buffers are arrays indexed from the pointer the routine gets.
 */
module CStrings {
  import opened Common

  /** The characters of a NUL-terminated buffer before its first NUL. */
  function CString(s: seq<char>): (r: seq<char>)
    requires '\0' in s
    ensures |r| < |s| && r == s[..|r|] && s[|r|] == '\0'
    ensures forall i | 0 <= i < |r| :: r[i] != '\0'
  {
    if s[0] == '\0' then [] else [s[0]] + CString(s[1..])
  }

  /** A buffer starting with a string's characters and a NUL holds exactly that string. */
  lemma {:induction false} CStringOf(t: seq<char>, rest: seq<char>)
    requires forall i | 0 <= i < |t| :: t[i] != '\0'
    ensures CString(t + ['\0'] + rest) == t
  {
    var s := t + ['\0'] + rest;
    var r := CString(s);
    assert forall i | 0 <= i < |t| :: s[i] == t[i];
    assert s[|t|] == '\0';
  }

  /** The unsigned value of the character at position `i`, 0 at and past the end (the terminator). */
  function CodeAt(s: seq<char>, i: nat): int {
    if i < |s| then s[i] as int else 0
  }

  /**
   * The value `strcmp` computes for two strings (their characters before the
   * terminator): the difference of the unsigned codes at the first position
   * where the first string has ended or the two differ.
   */
  function Compare(a: seq<char>, b: seq<char>): int
    decreases |a|
  {
    if a == [] || b == [] || a[0] != b[0] then CodeAt(a, 0) - CodeAt(b, 0)
    else Compare(a[1..], b[1..])
  }

  /** `strcmp` gives 0 exactly for equal strings. */
  lemma {:induction false} CompareZeroIff(a: seq<char>, b: seq<char>)
    requires IsCStr(a) && IsCStr(b)
    ensures Compare(a, b) == 0 <==> a == b
    decreases |a|
  {
    if a == [] || b == [] {
      if a != [] { assert a[0] != '\0'; }
      if b != [] { assert b[0] != '\0'; }
    } else if a[0] == b[0] {
      CompareZeroIff(a[1..], b[1..]);
      if a[1..] == b[1..] {
        assert a == [a[0]] + a[1..] && b == [b[0]] + b[1..];
      }
    }
  }

  /** Swapping the arguments negates the result. */
  lemma {:induction false} CompareAntisymmetric(a: seq<char>, b: seq<char>)
    ensures Compare(b, a) == -Compare(a, b)
    decreases |a|
  {
    if !(a == [] || b == [] || a[0] != b[0]) {
      CompareAntisymmetric(a[1..], b[1..]);
    }
  }

  /** A proper prefix sorts first. */
  lemma {:induction false} ComparePrefix(a: seq<char>, b: seq<char>)
    requires IsCStr(b) && |a| < |b| && a == b[..|a|]
    ensures Compare(a, b) < 0
    decreases |a|
  {
    if a != [] {
      assert a[1..] == b[1..][..|a| - 1];
      ComparePrefix(a[1..], b[1..]);
    } else {
      assert b[0] != '\0';
    }
  }

  /**
   * What a bounded copy leaves in `n` destination cells: the string, cut at
   * `n`, then NUL padding up to `n`.
   */
  function Padded(s: seq<char>, n: nat): (r: seq<char>)
    ensures |r| == n
  {
    if |s| >= n then s[..n] else s + seq(n - |s|, _ => '\0')
  }

  /**
   * The padded copy is a terminated string exactly when the source is
   * shorter than `n`, and then it reads back as the source.
   */
  lemma PaddedTerminated(s: seq<char>, n: nat)
    requires IsCStr(s)
    ensures '\0' in Padded(s, n) <==> |s| < n
    ensures |s| < n ==> CString(Padded(s, n)) == s
  {
    var r := Padded(s, n);
    if |s| < n {
      assert r[|s|] == '\0';
      CStringOf(s, seq(n - |s| - 1, _ => '\0'));
      assert r == s + ['\0'] + seq(n - |s| - 1, _ => '\0');
    } else {
      assert forall i | 0 <= i < n :: r[i] == s[i] && r[i] != '\0';
    }
  }

  /** `strlen` (the same loop in both drafts): the index of the first NUL. */
  method Strlen(str: array<char>) returns (len: nat)
    requires '\0' in str[..]
    ensures len == |CString(str[..])|
  {
    len := 0;
    while str[len] != '\0'
      invariant len <= |CString(str[..])|
      invariant str[..len] == CString(str[..])[..len]
      decreases |CString(str[..])| - len
    {
      len := len + 1;
    }
  }

  /**
   * `strcmp` (the same loop in both drafts): advance while the first string
   * goes on and both agree, then subtract the unsigned codes.
   */
  method Strcmp(s1: array<char>, s2: array<char>) returns (r: int)
    requires '\0' in s1[..] && '\0' in s2[..]
    ensures r == Compare(CString(s1[..]), CString(s2[..]))
  {
    ghost var a, b := CString(s1[..]), CString(s2[..]);
    var i := 0;
    while s1[i] != '\0' && s1[i] == s2[i]
      invariant i <= |a| && i <= |b|
      invariant a[..i] == b[..i]
      invariant Compare(a[i..], b[i..]) == Compare(a, b)
      decreases |a| - i
    {
      assert a[i..][1..] == a[i + 1..] && b[i..][1..] == b[i + 1..];
      i := i + 1;
    }
    assert CodeAt(a[i..], 0) == s1[i] as int && CodeAt(b[i..], 0) == s2[i] as int;
    r := s1[i] as int - s2[i] as int;
  }
}
