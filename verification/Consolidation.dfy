/** Consolidation of the streamed suggestion text: every incoming chunk
    either replaces the buffer (when it contains the previous raw chunk, so
    it is taken to be a cumulative snapshot) or is appended to it (a delta).
    The asynchronous stream is a plain sequence of chunks. */
module Consolidation {
  import opened Text

  /** The consolidator's state: the accumulated text and the last raw chunk. */
  datatype Stream = Stream(buffer: string, previous: string)

  /** Both start empty. */
  const Start := Stream("", "")

  /** One iteration of the loop over the stream. */
  function Step(st: Stream, chunk: string): (next: Stream)
    ensures next.previous == chunk
    ensures IsSuffix(chunk, next.buffer)
    ensures next.buffer == chunk || next.buffer == st.buffer + chunk
  {
    if Contains(chunk, st.previous) then Stream(chunk, chunk) else Stream(st.buffer + chunk, chunk)
  }

  /** The state after the given chunks, folded from the left. */
  function Consolidate(chunks: seq<string>): (st: Stream)
    ensures |chunks| == 0 ==> st == Start
    ensures |chunks| > 0 ==> st.previous == chunks[|chunks| - 1] && IsSuffix(chunks[|chunks| - 1], st.buffer)
  {
    if |chunks| == 0 then Start else Step(Consolidate(chunks[..|chunks| - 1]), chunks[|chunks| - 1])
  }

  /** Concatenation of a sequence of chunks. */
  function Concat(chunks: seq<string>): string
  {
    if |chunks| == 0 then "" else Concat(chunks[..|chunks| - 1]) + chunks[|chunks| - 1]
  }

  /** Chunk `k` is treated as a snapshot: it contains the chunk before it
      (the first chunk is compared with the empty string). */
  predicate IsSnapshot(chunks: seq<string>, k: int)
    requires 0 <= k < |chunks|
  {
    Contains(chunks[k], if k == 0 then "" else chunks[k - 1])
  }

  /** Position of the last snapshot chunk. */
  function LastSnapshot(chunks: seq<string>): (k: nat)
    requires |chunks| > 0
    ensures k < |chunks| && IsSnapshot(chunks, k)
    ensures forall j :: k < j < |chunks| ==> !IsSnapshot(chunks, j)
  {
    var n := |chunks| - 1;
    if IsSnapshot(chunks, n) then n
    else
      assert n > 0 by {
        if n == 0 {
          ContainsEmpty(chunks[0]);
        }
      }
      var k := LastSnapshot(chunks[..n]);
      assert forall j :: k < j < n ==> IsSnapshot(chunks[..n], j) == IsSnapshot(chunks, j);
      assert IsSnapshot(chunks[..n], k) == IsSnapshot(chunks, k);
      k
  }

  /** The buffer is exactly the concatenation of the chunks from the last
      snapshot on: everything before it is discarded, everything after it
      is appended as a delta. */
  lemma {:induction false} BufferIsTextSinceLastSnapshot(chunks: seq<string>)
    requires |chunks| > 0
    ensures Consolidate(chunks).buffer == Concat(chunks[LastSnapshot(chunks)..])
  {
    var n := |chunks| - 1;
    if IsSnapshot(chunks, n) {
      SnapshotReplaces(chunks);
    } else {
      DeltaAppends(chunks);
      BufferIsTextSinceLastSnapshot(chunks[..n]);
    }
  }

  /** A snapshot chunk becomes the whole buffer. */
  lemma SnapshotReplaces(chunks: seq<string>)
    requires |chunks| > 0 && IsSnapshot(chunks, |chunks| - 1)
    ensures LastSnapshot(chunks) == |chunks| - 1
    ensures Consolidate(chunks).buffer == chunks[|chunks| - 1]
    ensures Concat(chunks[|chunks| - 1..]) == chunks[|chunks| - 1]
  {
    var n := |chunks| - 1;
    if n > 0 {
      assert Consolidate(chunks[..n]).previous == chunks[n - 1];
    } else {
      assert Consolidate(chunks[..n]) == Start;
    }
    assert chunks[n..] == [chunks[n]];
    assert [chunks[n]][..0] == [];
    assert Concat([chunks[n]]) == "" + chunks[n];
  }

  /** A delta chunk is appended, and the last snapshot is the one before it. */
  lemma DeltaAppends(chunks: seq<string>)
    requires |chunks| > 0 && !IsSnapshot(chunks, |chunks| - 1)
    ensures |chunks| > 1
    ensures LastSnapshot(chunks) == LastSnapshot(chunks[..|chunks| - 1])
    ensures Consolidate(chunks).buffer == Consolidate(chunks[..|chunks| - 1]).buffer + chunks[|chunks| - 1]
    ensures Concat(chunks[LastSnapshot(chunks)..])
         == Concat(chunks[..|chunks| - 1][LastSnapshot(chunks)..]) + chunks[|chunks| - 1]
  {
    var n := |chunks| - 1;
    if n == 0 {
      ContainsEmpty(chunks[0]);
    }
    DeltaStep(chunks);
    ConcatDropLast(chunks, LastSnapshot(chunks));
  }

  /** A chunk that does not contain its predecessor is appended to the buffer. */
  lemma DeltaStep(chunks: seq<string>)
    requires |chunks| > 1 && !IsSnapshot(chunks, |chunks| - 1)
    ensures Consolidate(chunks).buffer == Consolidate(chunks[..|chunks| - 1]).buffer + chunks[|chunks| - 1]
  {
    var n := |chunks| - 1;
    assert Consolidate(chunks[..n]).previous == chunks[n - 1];
  }

  lemma ConcatDropLast(chunks: seq<string>, k: nat)
    requires k < |chunks|
    ensures Concat(chunks[k..]) == Concat(chunks[..|chunks| - 1][k..]) + chunks[|chunks| - 1]
  {
    assert chunks[k..][..|chunks[k..]| - 1] == chunks[..|chunks| - 1][k..];
  }

  /** Every chunk contains the empty string, so the first chunk, and any
      chunk that follows an empty chunk, replaces the buffer. */
  lemma StepAfterEmptyReplaces(st: Stream, chunk: string)
    requires st.previous == ""
    ensures Step(st, chunk).buffer == chunk
  {
    ContainsEmpty(chunk);
  }

  lemma FirstChunkIsWholeBuffer(chunk: string)
    ensures Consolidate([chunk]).buffer == chunk
  {
    assert [chunk][..0] == [];
    StepAfterEmptyReplaces(Start, chunk);
  }

  /** A snapshot that repeats and extends the previous chunk replaces the buffer. */
  lemma SnapshotExample()
    ensures Consolidate(["Hello", "Hello world"]).buffer == "Hello world"
  {
    var chunks := ["Hello", "Hello world"];
    assert chunks[..1] == ["Hello"];
    FirstChunkIsWholeBuffer("Hello");
    assert OccursAt("Hello world", "Hello", 0);
  }

  /** A delta that does not contain the previous chunk is appended. */
  lemma DeltaExample()
    ensures Consolidate(["Hello", " world"]).buffer == "Hello world"
  {
    var chunks := ["Hello", " world"];
    assert chunks[..1] == ["Hello"];
    FirstChunkIsWholeBuffer("Hello");
    assert " world"[0..5][0] == ' ';
    assert " world"[1..6][1] == 'o';
    assert !Contains(" world", "Hello");
  }

  /** The buffer does not only grow: a snapshot compared against a short
      previous delta can discard text received earlier. */
  lemma SnapshotCanDropEarlierText()
    ensures Consolidate(["a", "b"]).buffer == "ab"
    ensures Consolidate(["a", "b", "bc"]).buffer == "bc"
  {
    var two := ["a", "b"];
    var three := ["a", "b", "bc"];
    assert two[..1] == ["a"];
    assert three[..2] == two;
    FirstChunkIsWholeBuffer("a");
    var s1 := Consolidate(["a"]);
    assert s1 == Stream("a", "a");
    assert !Contains("b", "a") by {
      assert "b"[0..1][0] == 'b';
    }
    assert Consolidate(two) == Step(s1, "b") == Stream("ab", "b");
    assert Contains("bc", "b") by {
      assert OccursAt("bc", "b", 0);
    }
    assert Consolidate(three) == Step(Stream("ab", "b"), "bc");
  }
}
