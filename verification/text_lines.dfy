/**
 * Text as '\n'-separated lines, the view shared by the toy assembler's line
 * splitting and the two editors' screen refresh.
 */
module TextLines {

  /** The position of the first '\n', or the length when there is none. */
  function NewlineAt(s: seq<char>): (k: nat)
    ensures k <= |s| && '\n' !in s[..k] && (k < |s| ==> s[k] == '\n')
  {
    if s == [] || s[0] == '\n' then 0
    else
      assert s[..1 + NewlineAt(s[1..])] == [s[0]] + s[1..][..NewlineAt(s[1..])];
      1 + NewlineAt(s[1..])
  }

  /** A stretch free of '\n' followed by a '\n' (or the end) locates the first '\n'. */
  lemma NewlineAtIs(s: seq<char>, k: nat)
    requires k <= |s| && '\n' !in s[..k] && (k < |s| ==> s[k] == '\n')
    ensures NewlineAt(s) == k
  {
  }

  /**
   * The lines of a text: the stretches between '\n's, where a final '\n'
   * closes the last line rather than opening an empty one.
   */
  function LinesOf(s: seq<char>): seq<seq<char>>
    decreases |s|
  {
    if s == [] then []
    else
      var k := NewlineAt(s);
      [s[..k]] + (if k < |s| then LinesOf(s[k + 1..]) else [])
  }

  /** The stretches around every '\n', so one more than there are '\n's (a trailing '\n' opens an empty one). */
  function Pieces(s: seq<char>): (pieces: seq<seq<char>>)
    ensures pieces != []
    decreases |s|
  {
    var k := NewlineAt(s);
    if k == |s| then [s] else [s[..k]] + Pieces(s[k + 1..])
  }

  /** The first piece runs up to the first '\n'. */
  lemma FirstPiece(s: seq<char>)
    ensures Pieces(s)[0] == s[..NewlineAt(s)]
  {
    if NewlineAt(s) == |s| {
      assert s[..|s|] == s;
    }
  }

  /** The number of '\n's. */
  function NewlineCount(s: seq<char>): nat {
    if s == [] then 0 else (if s[0] == '\n' then 1 else 0) + NewlineCount(s[1..])
  }

  /** Each line followed by a '\n'. */
  function Join(lines: seq<seq<char>>): seq<char> {
    if lines == [] then [] else lines[0] + ['\n'] + Join(lines[1..])
  }

  /** The pieces with a '\n' between each two. */
  function Interleave(pieces: seq<seq<char>>): seq<char>
    requires pieces != []
  {
    if |pieces| == 1 then pieces[0] else pieces[0] + ['\n'] + Interleave(pieces[1..])
  }

  /** The text with a '\n' after its last line if it lacks one. */
  function Terminated(s: seq<char>): seq<char> {
    if s == [] || s[|s| - 1] == '\n' then s else s + ['\n']
  }

  /** Each line followed by a '\n' gives back the text, '\n'-terminated. */
  lemma {:induction false} LinesJoin(s: seq<char>)
    ensures Join(LinesOf(s)) == Terminated(s)
    decreases |s|
  {
    if s != [] {
      var k := NewlineAt(s);
      if k < |s| {
        LinesAt(s, k);
        LinesJoin(s[k + 1..]);
        JoinCons(s[..k], LinesOf(s[k + 1..]));
        TerminatedCons(s, k);
      } else {
        assert s[..k] == s;
        JoinCons(s, []);
      }
    }
  }

  /** Adding the missing final '\n' does not change the lines. */
  lemma {:induction false} LinesOfTerminated(s: seq<char>)
    ensures LinesOf(Terminated(s)) == LinesOf(s)
    decreases |s|
  {
    if s != [] && s[|s| - 1] != '\n' {
      var t := s + ['\n'];
      var k := NewlineAt(s);
      assert t[..k] == s[..k];
      LinesAt(t, k);
      if k < |s| {
        var rest := s[k + 1..];
        assert rest[|rest| - 1] == s[|s| - 1];
        assert t[k + 1..] == rest + ['\n'];
        LinesAt(s, k);
        LinesOfTerminated(rest);
      } else {
        assert t[k + 1..] == [];
        assert s[..k] == s;
      }
    }
  }

  /** No line holds a '\n'. */
  lemma {:induction false} LinesHaveNoNewline(s: seq<char>)
    ensures forall i | 0 <= i < |LinesOf(s)| :: '\n' !in LinesOf(s)[i]
    decreases |s|
  {
    if s != [] {
      var k := NewlineAt(s);
      if k < |s| {
        LinesAt(s, k);
        LinesHaveNoNewline(s[k + 1..]);
      }
    }
  }

  lemma JoinCons(line: seq<char>, rest: seq<seq<char>>)
    ensures Join([line] + rest) == line + ['\n'] + Join(rest)
  {
    assert ([line] + rest)[1..] == rest;
  }

  /** A '\n' at `k` splits the terminated text into the part before it and the terminated rest. */
  lemma TerminatedCons(s: seq<char>, k: nat)
    requires k < |s| && s[k] == '\n'
    ensures Terminated(s) == s[..k] + ['\n'] + Terminated(s[k + 1..])
  {
    assert s == s[..k] + ['\n'] + s[k + 1..];
    if s[k + 1..] != [] {
      assert s[|s| - 1] == s[k + 1..][|s| - k - 2];
    }
  }

  /** There is one piece more than there are '\n's, and the pieces hold none. */
  lemma {:induction false} PiecesCount(s: seq<char>)
    ensures |Pieces(s)| == 1 + NewlineCount(s)
    ensures forall i | 0 <= i < |Pieces(s)| :: '\n' !in Pieces(s)[i]
    decreases |s|
  {
    var k := NewlineAt(s);
    assert s[..k] + s[k..] == s;
    NewlineCountSplit(s[..k], s[k..]);
    NoNewlineCount(s[..k]);
    if k < |s| {
      PiecesCount(s[k + 1..]);
      assert s[k..] == ['\n'] + s[k + 1..];
      NewlineCountSplit(['\n'], s[k + 1..]);
      assert NewlineCount(['\n']) == 1 by {
        assert ['\n'][1..] == [];
      }
    } else {
      assert s[k..] == [];
    }
  }

  /** Putting the '\n's back between the pieces gives the text. */
  lemma {:induction false} PiecesInterleave(s: seq<char>)
    ensures Interleave(Pieces(s)) == s
    decreases |s|
  {
    var k := NewlineAt(s);
    if k < |s| {
      LinesAt(s, k);
      PiecesInterleave(s[k + 1..]);
      InterleaveCons(s[..k], Pieces(s[k + 1..]));
      assert s == s[..k] + ['\n'] + s[k + 1..];
    } else {
      assert s[..k] == s;
    }
  }

  lemma InterleaveCons(piece: seq<char>, rest: seq<seq<char>>)
    requires rest != []
    ensures Interleave([piece] + rest) == piece + ['\n'] + Interleave(rest)
  {
    assert ([piece] + rest)[1..] == rest;
  }

  /** The lines are the pieces without the empty one a final '\n' (or an empty text) leaves. */
  lemma {:induction false} LinesArePieces(s: seq<char>)
    ensures s == [] || s[|s| - 1] == '\n' ==> LinesOf(s) + [[]] == Pieces(s)
    ensures s != [] && s[|s| - 1] != '\n' ==> LinesOf(s) == Pieces(s)
    decreases |s|
  {
    if s != [] {
      var k := NewlineAt(s);
      if k < |s| {
        LinesArePieces(s[k + 1..]);
        if s[k + 1..] != [] {
          assert s[|s| - 1] == s[k + 1..][|s| - k - 2];
        }
        assert LinesOf(s) == [s[..k]] + LinesOf(s[k + 1..]);
        assert Pieces(s) == [s[..k]] + Pieces(s[k + 1..]);
      } else {
        assert s[..k] == s;
      }
    }
  }

  lemma {:induction false} NewlineCountSplit(a: seq<char>, b: seq<char>)
    ensures NewlineCount(a + b) == NewlineCount(a) + NewlineCount(b)
    decreases |a|
  {
    if a != [] {
      assert (a + b)[1..] == a[1..] + b;
      NewlineCountSplit(a[1..], b);
    } else {
      assert a + b == b;
    }
  }

  lemma {:induction false} NoNewlineCount(s: seq<char>)
    requires '\n' !in s
    ensures NewlineCount(s) == 0
    decreases |s|
  {
    if s != [] {
      assert s[0] in s;
      NoNewlineCount(s[1..]);
    }
  }

  /** Where the first '\n' is at `k`, the lines are the one before it and those after it. */
  lemma LinesAt(s: seq<char>, k: nat)
    requires k < |s| && s[k] == '\n' && '\n' !in s[..k]
    ensures LinesOf(s) == [s[..k]] + LinesOf(s[k + 1..])
    ensures Pieces(s) == [s[..k]] + Pieces(s[k + 1..])
  {
    NewlineAtIs(s, k);
  }
}
