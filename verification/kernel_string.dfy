/**
 * The first draft's string library, written with walking pointers and
 * count-down loops: fill, overlap-safe move, compare, string copies, search
 * and duplication. (`strlen` and `strcmp` are the same loops as the release
 * draft's and live in `CStrings`; `memcpy` belongs to the heap allocator.)
 */
module KernelString {
  import opened Common
  import opened CStrings

  /** `memset`: `n` bytes set to the low byte of `c`. */
  method Memset(s: array<byte>, c: int, n: nat)
    requires n <= s.Length
    modifies s
    ensures forall i | 0 <= i < n :: s[i] == c % 0x100
    ensures s[n..] == old(s[n..])
  {
    var p := 0;
    var count := n;
    while count > 0
      invariant p + count == n
      invariant forall i | 0 <= i < p :: s[i] == c % 0x100
      invariant s[p..] == old(s[p..])
    {
      s[p] := c % 0x100;
      p, count := p + 1, count - 1;
    }
  }

  /**
   * `memmove` within one buffer: forwards from the front when `dest` is
   * below `src`, else backwards from the ends; either way the `n` bytes at
   * `dest` become the original `n` bytes at `src`, and nothing else changes.
   */
  method Memmove(buf: array<byte>, dest: nat, src: nat, n: nat)
    requires dest + n <= buf.Length && src + n <= buf.Length
    modifies buf
    ensures buf[dest..dest + n] == old(buf[src..src + n])
    ensures buf[..dest] == old(buf[..dest]) && buf[dest + n..] == old(buf[dest + n..])
  {
    var count := n;
    if dest < src {
      var d, s := dest, src;
      while count > 0
        invariant d - dest == s - src == n - count && 0 <= count <= n
        invariant forall j | dest <= j < d :: buf[j] == old(buf[j - dest + src])
        invariant forall j | 0 <= j < buf.Length && !(dest <= j < d) :: buf[j] == old(buf[j])
      {
        buf[d] := buf[s];
        d, s, count := d + 1, s + 1, count - 1;
      }
    } else {
      var d, s := dest + n, src + n;
      while count > 0
        invariant d - dest == s - src == count && 0 <= count <= n
        invariant forall j | d <= j < dest + n :: buf[j] == old(buf[j - dest + src])
        invariant forall j | 0 <= j < buf.Length && !(d <= j < dest + n) :: buf[j] == old(buf[j])
      {
        d, s := d - 1, s - 1;
        buf[d] := buf[s];
        count := count - 1;
      }
    }
  }

  /**
   * `memcmp`: 0 exactly when the first `n` bytes agree; otherwise the
   * difference of the bytes at the first position where they differ.
   */
  method Memcmp(s1: array<byte>, s2: array<byte>, n: nat) returns (r: int)
    requires n <= s1.Length && n <= s2.Length
    ensures r == 0 <==> s1[..n] == s2[..n]
    ensures r != 0 ==> exists i | 0 <= i < n :: s1[..i] == s2[..i] && s1[i] != s2[i] && r == s1[i] as int - s2[i] as int
  {
    var p := 0;
    var count := n;
    while count > 0
      invariant p + count == n && s1[..p] == s2[..p]
    {
      if s1[p] != s2[p] {
        assert s1[..n][p] != s2[..n][p];
        return s1[p] as int - s2[p] as int;
      }
      assert s1[..p + 1] == s1[..p] + [s1[p]] && s2[..p + 1] == s2[..p] + [s2[p]];
      p, count := p + 1, count - 1;
    }
    return 0;
  }

  /**
   * `strcpy`: the string and its terminator copied, so `dest` then holds the
   * same string; cells after the terminator are kept.
   */
  method Strcpy(dest: array<char>, src: array<char>)
    requires '\0' in src[..] && |CString(src[..])| < dest.Length && dest != src
    modifies dest
    ensures dest[..|CString(src[..])| + 1] == src[..|CString(src[..])| + 1]
    ensures dest[|CString(src[..])| + 1..] == old(dest[|CString(src[..])| + 1..])
    ensures '\0' in dest[..] && CString(dest[..]) == CString(src[..])
  {
    ghost var t := CString(src[..]);
    var i := 0;
    while true
      invariant i <= |t| && dest[..i] == src[..i] && dest[i..] == old(dest[i..])
      decreases |t| - i
    {
      var c := src[i];
      dest[i] := c;
      assert dest[..i + 1] == dest[..i] + [c];
      i := i + 1;
      if c == '\0' {
        break;
      }
    }
    assert dest[..] == t + ['\0'] + dest[|t| + 1..];
    CStringOf(t, dest[|t| + 1..]);
  }

  /**
   * `strncpy` for a source shorter than `n`: the string, its terminator and
   * NUL padding fill exactly `n` cells. (A source of `n` or more characters
   * makes the counter wrap and the padding loop run off the buffer.)
   */
  method Strncpy(dest: array<char>, src: array<char>, n: nat)
    requires '\0' in src[..] && |CString(src[..])| < n <= dest.Length && dest != src
    modifies dest
    ensures dest[..n] == Padded(CString(src[..]), n)
    ensures dest[n..] == old(dest[n..])
  {
    ghost var t := CString(src[..]);
    var d := 0;
    var count := n;
    while true
      invariant d <= |t| && count == n - d && dest[..d] == t[..d] && dest[n..] == old(dest[n..])
      decreases |t| - d
    {
      var c := src[d];
      dest[d] := c;
      count := count - 1;
      d := d + 1;
      if c == '\0' {
        break;
      }
      assert dest[..d] == dest[..d - 1] + [c];
    }
    assert d == |t| + 1;
    while count > 0
      invariant d + count == n && |t| < d
      invariant dest[..|t|] == t && forall j | |t| <= j < d :: dest[j] == '\0'
      invariant dest[n..] == old(dest[n..])
    {
      dest[d] := '\0';
      d, count := d + 1, count - 1;
    }
    assert forall j | 0 <= j < n :: dest[..n][j] == Padded(t, n)[j];
  }

  /**
   * The first loop of `strncpy` as written, counted rather than copied:
   * `size_t` is 32 bits wide on this i386 target and every test of the loop
   * decrements the counter, so a test that finds it already 0 leaves it at
   * 2^32 - 1. With `rest` characters before the terminator and counter `n`,
   * the result is the cells the loop writes and the counter the padding
   * loop then counts down.
   */
  function CopyPhase(rest: nat, n: u32): (nat, u32)
    decreases n
  {
    if n == 0 then (0, 0xFFFF_FFFF)
    else if rest == 0 then (1, n - 1)
    else var (written, left) := CopyPhase(rest - 1, n - 1); (written + 1, left)
  }

  /** All the cells `strncpy` as written stores: the copied ones and then one NUL per count of the padding loop. */
  function CellsWritten(len: nat, n: u32): nat {
    CopyPhase(len, n).0 + CopyPhase(len, n).1
  }

  /**
   * A source shorter than `n` is copied with its terminator and the counter
   * left covers exactly the remaining cells; otherwise `n` characters are
   * copied and the counter has wrapped.
   */
  lemma {:induction false} CopyPhaseCounts(rest: nat, n: u32)
    ensures rest < n ==> CopyPhase(rest, n) == (rest + 1, n - rest - 1)
    ensures rest >= n ==> CopyPhase(rest, n) == (n, 0xFFFF_FFFF)
    decreases n
  {
    if n > 0 && rest > 0 {
      CopyPhaseCounts(rest - 1, n - 1);
    }
  }

  /**
   * As written, `strncpy` stores exactly `n` cells if and only if the
   * source is shorter than `n`; a source of `n` or more characters makes
   * it store 2^32 - 1 NULs past the `n` cells, as `strncpy(dest, "ab", 2)`
   * does.
   */
  lemma StrncpyOverrun(len: nat, n: u32)
    ensures CellsWritten(len, n) == n <==> len < n
    ensures len >= n ==> CellsWritten(len, n) == n + 0xFFFF_FFFF
    ensures CellsWritten(2, 2) == 2 + 0xFFFF_FFFF
  {
    CopyPhaseCounts(len, n);
    CopyPhaseCounts(2, 2);
  }

  /**
   * `strchr`: the position of the first `(char)c` in the string, the
   * terminator's position when that character is NUL, and null when the
   * character does not occur.
   */
  method Strchr(s: array<char>, c: int) returns (r: Option<nat>)
    requires '\0' in s[..]
    ensures var t, ch := CString(s[..]), (c % 0x100) as char;
      && (r.Some? <==> ch in t || ch == '\0')
      && (r.Some? ==> r.value <= |t| && s[r.value] == ch && ch !in t[..r.value])
  {
    ghost var t := CString(s[..]);
    var ch := (c % 0x100) as char;
    var p := 0;
    while s[p] != '\0' && s[p] != ch
      invariant p <= |t| && ch !in t[..p]
      decreases |t| - p
    {
      assert t[..p + 1] == t[..p] + [s[p]];
      p := p + 1;
    }
    if s[p] == ch {
      return Some(p);
    }
    assert p == |t| && t[..p] == t;
    return None;
  }

  /**
   * `strdup`: a fresh buffer of `strlen + 1` characters holding the string
   * and its terminator; null when `malloc` fails (whether it succeeds is
   * the parameter `mallocSucceeds`).
   */
  method Strdup(s: array<char>, mallocSucceeds: bool) returns (r: array?<char>)
    requires '\0' in s[..]
    ensures !mallocSucceeds <==> r == null
    ensures r != null ==> fresh(r) && r.Length == |CString(s[..])| + 1 && r[..] == s[..r.Length]
    ensures r != null ==> '\0' in r[..] && CString(r[..]) == CString(s[..])
  {
    ghost var t := CString(s[..]);
    var len := Strlen(s);
    len := len + 1;
    if !mallocSucceeds {
      return null;
    }
    r := new char[len];
    forall i | 0 <= i < len {
      r[i] := s[i];
    }
    assert r[..] == s[..len] == t + ['\0'] + [];
    CStringOf(t, []);
  }
}
