/**
 * The circular character buffer the keyboard drivers keep: `start` indexes
 * the oldest character, `end` the slot the next one goes to, and one slot
 * always stays unused so that `start == end` means empty.
 */
module Ring {

  /** The index after `i` in a ring of `n` slots. */
  function Next(i: nat, n: nat): (r: nat)
    requires i < n
    ensures r < n
    ensures r == (i + 1) % n
    ensures r == if i + 1 == n then 0 else i + 1
  {
    (i + 1) % n
  }

  /** The characters held, oldest first: slots `start`, `start + 1`, ... up to but excluding `end`, wrapping. */
  function Contents(buf: seq<char>, start: nat, end: nat): (r: seq<char>)
    requires start < |buf| && end < |buf|
    ensures |r| == if start <= end then end - start else |buf| - start + end
    ensures |r| < |buf|
    ensures forall i | 0 <= i < |r| :: r[i] == if start + i < |buf| then buf[start + i] else buf[start + i - |buf|]
  {
    if start <= end then buf[start..end] else buf[start..] + buf[..end]
  }

  /** The buffer is empty exactly when the two indices meet. */
  lemma EmptyIff(buf: seq<char>, start: nat, end: nat)
    requires start < |buf| && end < |buf|
    ensures Contents(buf, start, end) == [] <==> start == end
  {
  }

  /** The buffer is full (the end is one behind the start) exactly when it holds `|buf| - 1` characters. */
  lemma FullIff(buf: seq<char>, start: nat, end: nat)
    requires start < |buf| && end < |buf|
    ensures Next(end, |buf|) == start <==> |Contents(buf, start, end)| == |buf| - 1
  {
  }

  /** Storing at `end` and advancing it appends the character and keeps everything older. */
  lemma {:induction false} PutAppends(buf: seq<char>, start: nat, end: nat, c: char)
    requires start < |buf| && end < |buf| && Next(end, |buf|) != start
    ensures Contents(buf[end := c], start, Next(end, |buf|)) == Contents(buf, start, end) + [c]
  {
    var before := Contents(buf, start, end);
    var after := Contents(buf[end := c], start, Next(end, |buf|));
    assert |after| == |before| + 1;
    forall i | 0 <= i < |after|
      ensures after[i] == (before + [c])[i]
    {
      if i < |before| {
        assert (if start + i < |buf| then start + i else start + i - |buf|) != end;
      }
    }
  }

  /** Reading at `start` and advancing it removes exactly the oldest character. */
  lemma {:induction false} GetRemovesOldest(buf: seq<char>, start: nat, end: nat)
    requires start < |buf| && end < |buf| && start != end
    ensures Contents(buf, start, end)[0] == buf[start]
    ensures Contents(buf, Next(start, |buf|), end) == Contents(buf, start, end)[1..]
  {
    var before := Contents(buf, start, end);
    var after := Contents(buf, Next(start, |buf|), end);
    assert |after| == |before| - 1;
    forall i | 0 <= i < |after|
      ensures after[i] == before[i + 1]
    {
    }
  }

  /** Writing a slot outside the held range leaves the contents as they were. */
  lemma {:induction false} WriteFreeSlot(buf: seq<char>, start: nat, end: nat, c: char)
    requires start < |buf| && end < |buf|
    ensures Contents(buf[end := c], start, end) == Contents(buf, start, end)
  {
    var before := Contents(buf, start, end);
    var after := Contents(buf[end := c], start, end);
    forall i | 0 <= i < |after|
      ensures after[i] == before[i]
    {
      assert (if start + i < |buf| then start + i else start + i - |buf|) != end;
    }
  }

  /**
   * What a put does to the held characters: a NUL is never stored, and a
   * character arriving when `size - 1` are already held is dropped.
   */
  function Pushed(held: seq<char>, c: char, size: nat): seq<char>
  {
    if c != '\0' && |held| < size - 1 then held + [c] else held
  }
}
