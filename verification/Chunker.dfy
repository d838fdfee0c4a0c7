/** pkg/vector/parser.go ChunkText: a document cut into overlapping pieces.  Text is a
    sequence of runes. */
module Chunker {

  /** The piece that starts at rune `i`. */
  function Piece(text: string, i: nat, chunkSize: nat): string
    requires i <= |text|
  {
    text[i..if i + chunkSize > |text| then |text| else i + chunkSize]
  }

  function Start(k: nat, step: nat): nat {
    k * step
  }

  lemma StartNext(k: nat, step: nat)
    ensures Start(0, step) == 0
    ensures Start(k + 1, step) == Start(k, step) + step
  {
  }

  lemma StartIs(k: nat, step: nat)
    ensures Start(k, step) == k * step
  {
  }

  lemma StartMonotone(k: nat, m: nat, step: nat)
    requires k <= m
    ensures Start(k, step) <= Start(m, step)
  {
  }

  lemma StartBefore(i: nat, step: nat) returns (k: nat)
    requires step > 0
    ensures Start(k, step) <= i < Start(k, step) + step
  {
    k := i / step;
  }

  /** What the loop cuts: one piece for each start 0, step, 2 * step, ... inside the text. */
  ghost predicate IsCut(text: string, chunkSize: nat, step: nat, chunks: seq<string>) {
    && (forall k: nat :: k < |chunks| <==> Start(k, step) < |text|)
    && forall k: nat | k < |chunks| && Start(k, step) < |text| :: chunks[k] == Piece(text, Start(k, step), chunkSize)
  }

  method ChunkText(text: string, chunkSize: nat, overlap: nat) returns (chunks: seq<string>)
    requires overlap < chunkSize
    ensures IsChunking(text, chunkSize, overlap, chunks)
  {
    hide Start;
    chunks := [];
    var totalLen := |text|;
    if totalLen <= chunkSize {
      return [text];
    }
    var step := chunkSize - overlap;
    var i := 0;
    StartNext(0, step);
    while i < totalLen
      invariant i == Start(|chunks|, step)
      invariant forall k: nat | k < |chunks| ::
                  Start(k, step) < totalLen && chunks[k] == Piece(text, Start(k, step), chunkSize)
      decreases totalLen + step - i
    {
      var end := i + chunkSize;
      if end > totalLen {
        end := totalLen;
      }
      StartNext(|chunks|, step);
      chunks := chunks + [text[i..end]];
      i := i + step;
    }
    forall k: nat
      ensures k < |chunks| <==> Start(k, step) < totalLen
    {
      if k >= |chunks| {
        StartMonotone(|chunks|, k, step);
      }
    }
  }

  /** What ChunkText returns: a short text whole, a longer one in pieces. */
  ghost predicate IsChunking(text: string, chunkSize: nat, overlap: nat, chunks: seq<string>)
    requires overlap < chunkSize
  {
    if |text| <= chunkSize then chunks == [text] else IsCut(text, chunkSize, chunkSize - overlap, chunks)
  }

  lemma ChunkLengths(text: string, chunkSize: nat, overlap: nat, chunks: seq<string>, k: nat)
    requires overlap < chunkSize && IsChunking(text, chunkSize, overlap, chunks) && k < |chunks|
    ensures |chunks[k]| <= chunkSize
    ensures text != "" ==> chunks[k] != ""
  {
    if |text| > chunkSize {
      assert Start(k, chunkSize - overlap) < |text|;
    }
  }

  // ---------- The text comes back ----------

  function Head(chunk: string, step: nat): string {
    if |chunk| <= step then chunk else chunk[..step]
  }

  function Heads(chunks: seq<string>, step: nat): string {
    if chunks == [] then "" else Head(chunks[0], step) + Heads(chunks[1..], step)
  }

  lemma {:induction false} HeadsAppend(chunks: seq<string>, c: string, step: nat)
    ensures Heads(chunks + [c], step) == Heads(chunks, step) + Head(c, step)
  {
    if chunks == [] {
      assert chunks + [c] == [c] && [c][1..] == [];
    } else {
      assert (chunks + [c])[1..] == chunks[1..] + [c];
      HeadsAppend(chunks[1..], c, step);
    }
  }

  function UpTo(text: string, i: nat): string {
    if i <= |text| then text[..i] else text
  }

  lemma GrowByHead(text: string, i: nat, chunkSize: nat, step: nat)
    requires i < |text| && step <= chunkSize
    ensures UpTo(text, i) + Head(Piece(text, i, chunkSize), step) == UpTo(text, i + step)
  {
  }

  lemma {:induction false} HeadsOfCut(text: string, chunkSize: nat, step: nat, chunks: seq<string>, k: nat)
    requires 0 < step <= chunkSize && IsCut(text, chunkSize, step, chunks) && k <= |chunks|
    ensures Heads(chunks[..k], step) == UpTo(text, Start(k, step))
    decreases k
  {
    hide Start, Heads, Head, UpTo, Piece;
    StartNext(if k == 0 then 0 else k - 1, step);
    if k == 0 {
      NoHeads(text, chunks[..k], step);
    } else {
      HeadsOfCut(text, chunkSize, step, chunks, k - 1);
      assert chunks[..k] == chunks[..k - 1] + [chunks[k - 1]];
      HeadsAppend(chunks[..k - 1], chunks[k - 1], step);
      assert Start(k - 1, step) < |text|;
      GrowByHead(text, Start(k - 1, step), chunkSize, step);
    }
  }

  lemma NoHeads(text: string, chunks: seq<string>, step: nat)
    requires chunks == []
    ensures Heads(chunks, step) == UpTo(text, 0)
  {
  }

  /** Gluing the first `chunkSize - overlap` runes of every chunk gives the text back, except
      for a text that is returned whole although it is longer than that. */
  lemma ReconstructsIff(text: string, chunkSize: nat, overlap: nat, chunks: seq<string>)
    requires overlap < chunkSize && IsChunking(text, chunkSize, overlap, chunks)
    ensures Heads(chunks, chunkSize - overlap) == text <==> |text| > chunkSize || |text| <= chunkSize - overlap
  {
    hide Start;
    var step := chunkSize - overlap;
    if |text| <= chunkSize {
      assert Heads([text], step) == Head(text, step) + Heads([], step);
    } else {
      HeadsOfCut(text, chunkSize, step, chunks, |chunks|);
      assert chunks[..|chunks|] == chunks;
      assert !(Start(|chunks|, step) < |text|);
    }
  }

  // ---------- How long a phrase is sure to survive ----------

  /** Chunk `k`, which starts at rune `k * step` of the text, holds the `n` runes from `i` on in their place. */
  predicate Holds(text: string, step: nat, chunks: seq<string>, k: nat, i: nat, n: nat)
    requires k < |chunks| && i + n <= |text|
  {
    && k * step <= i && i + n <= k * step + |chunks[k]|
    && chunks[k][i - k * step..i + n - k * step] == text[i..i + n]
  }

  /** Some chunk holds them. */
  ghost predicate Covered(text: string, step: nat, chunks: seq<string>, i: nat, n: nat)
    requires i + n <= |text|
  {
    exists k: nat :: k < |chunks| && Holds(text, step, chunks, k, i, n)
  }

  ghost predicate AllCovered(text: string, step: nat, chunks: seq<string>, n: nat) {
    forall i: nat | i + n <= |text| :: Covered(text, step, chunks, i, n)
  }

  /** The part of a piece that lies in the text where the piece does. */
  lemma PartOfPiece(text: string, start: nat, chunkSize: nat, i: nat, n: nat)
    requires start <= |text| && start <= i && i + n <= start + |Piece(text, start, chunkSize)|
    ensures i + n <= |text|
    ensures Piece(text, start, chunkSize)[i - start..i + n - start] == text[i..i + n]
  {
    var piece := Piece(text, start, chunkSize);
    assert forall j | 0 <= j < |piece| :: piece[j] == text[start + j];
    assert |piece[i - start..i + n - start]| == n;
  }

  lemma PieceLength(text: string, i: nat, chunkSize: nat)
    requires i <= |text|
    ensures |Piece(text, i, chunkSize)| == if i + chunkSize > |text| then |text| - i else chunkSize
  {
  }

  lemma ShortSpanCovered(text: string, chunkSize: nat, overlap: nat, chunks: seq<string>, i: nat, n: nat)
    requires overlap < chunkSize < |text| && IsChunking(text, chunkSize, overlap, chunks)
    requires 0 < n <= overlap + 1 && i + n <= |text|
    ensures Covered(text, chunkSize - overlap, chunks, i, n)
  {
    hide Start, Piece;
    var step := chunkSize - overlap;
    var k := StartBefore(i, step);
    assert Start(k, step) < |text|;
    StartIs(k, step);
    PieceLength(text, k * step, chunkSize);
    PartOfPiece(text, k * step, chunkSize, i, n);
    assert Holds(text, step, chunks, k, i, n);
  }

  lemma LongSpanUncovered(text: string, chunkSize: nat, overlap: nat, chunks: seq<string>, n: nat)
    returns (i: nat)
    requires overlap < chunkSize < |text| && IsChunking(text, chunkSize, overlap, chunks)
    requires overlap + 1 < n <= |text|
    ensures i + n <= |text| && !Covered(text, chunkSize - overlap, chunks, i, n)
  {
    hide Start;
    var step := chunkSize - overlap;
    i := if n <= chunkSize then chunkSize - n + 1 else 0;
    StartNext(0, step);
    forall k: nat | k < |chunks|
      ensures !Holds(text, step, chunks, k, i, n)
    {
      ChunkLengths(text, chunkSize, overlap, chunks, k);
      StartIs(k, step);
      if k > 0 {
        StartMonotone(1, k, step);
      }
    }
  }

  /** In a text of more than one chunk, every phrase of `n` runes is kept whole by some chunk
      exactly when `n` is at most `overlap + 1`. */
  lemma PhrasesSurviveIff(text: string, chunkSize: nat, overlap: nat, chunks: seq<string>, n: nat)
    requires overlap < chunkSize < |text| && IsChunking(text, chunkSize, overlap, chunks)
    requires 0 < n <= |text|
    ensures AllCovered(text, chunkSize - overlap, chunks, n) <==> n <= overlap + 1
  {
    hide Covered, IsChunking;
    var step := chunkSize - overlap;
    if n <= overlap + 1 {
      forall i: nat | i + n <= |text|
        ensures Covered(text, step, chunks, i, n)
      {
        ShortSpanCovered(text, chunkSize, overlap, chunks, i, n);
      }
    } else {
      var i := LongSpanUncovered(text, chunkSize, overlap, chunks, n);
      assert !Covered(text, step, chunks, i, n);
    }
  }
}
