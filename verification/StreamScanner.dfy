/** pkg/sanitizer/stream.go: on-the-fly redaction of a response written in chunks, against
    redacting the whole response at once.  What `SanitizeOutput` looks for is taken as a list of
    literal secrets, each with its marker. */
module Streaming {
  import opened Strings
  import opened Redaction

  // ---------- The scanner ----------

  /** What has been flushed to the underlying writer, and what is held back. */
  datatype Progress = Progress(out: string, buffer: string)

  /** The part of clean text that is let go, and the part that is held back. */
  function Flushed(clean: string, overlap: nat): string {
    if |clean| > overlap then clean[..|clean| - overlap] else ""
  }

  function Kept(clean: string, overlap: nat): string {
    if |clean| > overlap then clean[|clean| - overlap..] else clean
  }

  function AfterWrite(s: Progress, p: string, secrets: seq<Secret>, overlap: nat): Progress
    requires Proper(secrets)
  {
    var clean := RedactAll(s.buffer + p, secrets);
    Progress(s.out + Flushed(clean, overlap), Kept(clean, overlap))
  }

  function AfterClose(s: Progress, secrets: seq<Secret>): string
    requires Proper(secrets)
  {
    s.out + RedactAll(s.buffer, secrets)
  }

  function AfterWrites(chunks: seq<string>, secrets: seq<Secret>, overlap: nat): Progress
    requires Proper(secrets)
  {
    if chunks == [] then Progress("", "")
    else AfterWrite(AfterWrites(chunks[..|chunks| - 1], secrets, overlap), chunks[|chunks| - 1], secrets, overlap)
  }

  /** Everything the client receives when these chunks are written and the scanner closed. */
  function Streamed(chunks: seq<string>, secrets: seq<Secret>, overlap: nat): string
    requires Proper(secrets)
  {
    AfterClose(AfterWrites(chunks, secrets, overlap), secrets)
  }

  function Concat(chunks: seq<string>): string {
    if chunks == [] then "" else Concat(chunks[..|chunks| - 1]) + chunks[|chunks| - 1]
  }

  predicate AllFit(secrets: seq<Secret>, overlap: nat) {
    forall s | s in secrets :: |s.value| <= overlap + 1
  }

  lemma Parted(clean: string, overlap: nat)
    ensures Flushed(clean, overlap) + Kept(clean, overlap) == clean
    ensures |Kept(clean, overlap)| == if |clean| > overlap then overlap else |clean|
  {
  }

  // ---------- Secrets that fit and do not cut into each other ----------

  /** Clean text may be let go up to its last |secret| - 1 characters, whatever comes later. */
  lemma FlushIsSafe(flushed: string, kept: string, rest: string, secrets: seq<Secret>)
    requires Proper(secrets) && HoldsNone(flushed + kept, secrets)
    requires flushed == "" || forall s | s in secrets :: |s.value| <= |kept| + 1
    ensures RedactAll(flushed + (kept + rest), secrets) == flushed + RedactAll(kept + rest, secrets)
  {
    forall s | s in secrets
      ensures Untouched(flushed, kept + rest, s.value)
    {
      if flushed != "" {
        OutOfReach(flushed, kept, rest, s.value);
      }
    }
    FrontStays(flushed, kept + rest, secrets);
  }

  lemma OutOfReach(flushed: string, kept: string, rest: string, w: string)
    requires !Contains(flushed + kept, w) && |w| <= |kept| + 1
    ensures Untouched(flushed, kept + rest, w)
  {
    NoOccurrences(flushed + kept, w);
    Regroup(flushed, kept, rest);
    forall i | 0 <= i < |flushed|
      ensures !OccursAt(flushed + (kept + rest), w, i)
    {
      OccursInFront(flushed + kept, rest, w, i);
    }
  }

  /** What every write keeps: flushed text plus the redaction of the held-back text, with
      anything still to come behind it, is the redaction of all text so far. */
  lemma {:induction false} WritesKeep(chunks: seq<string>, rest: string, secrets: seq<Secret>, overlap: nat)
    requires Proper(secrets) && NoCuts(secrets) && AllFit(secrets, overlap)
    ensures var s := AfterWrites(chunks, secrets, overlap);
            && s.out + RedactAll(s.buffer + rest, secrets) == RedactAll(Concat(chunks) + rest, secrets)
            && |s.buffer| <= overlap
  {
    hide Proper, NoCuts, AllFit, RedactAll, AfterWrite;
    if chunks == [] {
      assert "" + rest == rest && "" + RedactAll(rest, secrets) == RedactAll(rest, secrets);
    } else {
      var before, p := chunks[..|chunks| - 1], chunks[|chunks| - 1];
      WritesKeep(before, p + rest, secrets, overlap);
      WriteKeeps(AfterWrites(before, secrets, overlap), p, rest, secrets, overlap);
      assert Concat(chunks) + rest == Concat(before) + (p + rest);
    }
  }

  lemma WriteKeeps(s: Progress, p: string, rest: string, secrets: seq<Secret>, overlap: nat)
    requires Proper(secrets) && NoCuts(secrets) && AllFit(secrets, overlap)
    ensures var s' := AfterWrite(s, p, secrets, overlap);
            && s'.out + RedactAll(s'.buffer + rest, secrets) == s.out + RedactAll(s.buffer + (p + rest), secrets)
            && |s'.buffer| <= overlap
  {
    hide RedactAll, Proper, NoCuts, HoldsNone, Flushed, Kept;
    var clean := RedactAll(s.buffer + p, secrets);
    var flushed, kept := Flushed(clean, overlap), Kept(clean, overlap);
    Parted(clean, overlap);
    RedactAllPart(s.buffer + p, rest, secrets);
    NothingLeftAll(s.buffer + p, secrets);
    FlushIsSafe(flushed, kept, rest, secrets);
    Regroup(s.buffer, p, rest);
    Regroup(flushed, kept, rest);
    Regroup(s.out, flushed, RedactAll(kept + rest, secrets));
  }

  /** Streaming is one-shot redaction for any split of the text when the secrets fit and do not
      cut into each other; nothing of them is left. */
  lemma StreamingIsOneShot(chunks: seq<string>, secrets: seq<Secret>, overlap: nat)
    requires Proper(secrets) && NoCuts(secrets) && AllFit(secrets, overlap)
    ensures Streamed(chunks, secrets, overlap) == RedactAll(Concat(chunks), secrets)
    ensures HoldsNone(Streamed(chunks, secrets, overlap), secrets)
  {
    var s := AfterWrites(chunks, secrets, overlap);
    WritesKeep(chunks, "", secrets, overlap);
    assert s.buffer + "" == s.buffer && Concat(chunks) + "" == Concat(chunks);
    NothingLeftAll(Concat(chunks), secrets);
  }

  lemma PartHoldsNone(text: string, front: string, back: string, secrets: seq<Secret>)
    requires text == front + back && HoldsNone(text, secrets)
    ensures HoldsNone(front, secrets) && HoldsNone(back, secrets)
  {
    ContainsInMiddle("", front, back);
    ContainsInMiddle(front, back, "");
    assert "" + front + back == text == front + back + "";
    hide Contains;
    forall s | s in secrets
      ensures !Contains(front, s.value) && !Contains(back, s.value)
    {
      if Contains(front, s.value) {
        ContainsTransitive(text, front, s.value);
      }
      if Contains(back, s.value) {
        ContainsTransitive(text, back, s.value);
      }
    }
  }

  // ---------- The writer ----------

  /** `StreamScanner`.  The text is a sequence of bytes; the underlying writer, which is
      assumed to accept everything, is the string `sink`. */
  class StreamScanner {
    const secrets: seq<Secret>
    const overlap: nat
    var sink: string
    var buffer: string
    ghost var chunks: seq<string>

    ghost predicate Valid()
      reads this
    {
      Proper(secrets) && Progress(sink, buffer) == AfterWrites(chunks, secrets, overlap)
    }

    constructor (secrets: seq<Secret>)
      requires Proper(secrets)
      ensures Valid() && chunks == [] && sink == "" && overlap == 100
      ensures this.secrets == secrets
    {
      this.secrets := secrets;
      overlap := 100;
      sink, buffer := "", "";
      chunks := [];
    }

    method Write(p: string) returns (n: nat)
      requires Valid()
      modifies this
      ensures Valid() && chunks == old(chunks) + [p]
      ensures n == |p|
      ensures Progress(sink, buffer) == AfterWrite(Progress(old(sink), old(buffer)), p, secrets, overlap)
      ensures |buffer| <= overlap && HoldsNone(buffer, secrets)
    {
      hide RedactAll, HoldsNone, AfterWrites;
      buffer := buffer + p;
      var dirty := buffer;
      var clean := SanitizeOutput(dirty, secrets);
      NothingLeftAll(dirty, secrets);
      Parted(clean, overlap);
      PartHoldsNone(clean, Flushed(clean, overlap), Kept(clean, overlap), secrets);
      if |clean| > overlap {
        var toFlush := clean[..|clean| - overlap];
        sink := sink + toFlush;
        var remaining := clean[|clean| - overlap..];
        buffer := remaining;
      } else {
        buffer := clean;
      }
      chunks := chunks + [p];
      ghost var before := chunks[..|chunks| - 1];
      assert before == old(chunks);
      NextWrite(before, p, secrets, overlap);
      assert sink == old(sink) + Flushed(clean, overlap);
      return |p|;
    }

    method Close()
      requires Valid()
      modifies this
      ensures sink == Streamed(old(chunks), secrets, overlap)
      ensures NoCuts(secrets) && AllFit(secrets, overlap) ==>
                sink == RedactAll(Concat(old(chunks)), secrets) && HoldsNone(sink, secrets)
      ensures buffer == "" && chunks == old(chunks)
    {
      hide RedactAll, HoldsNone, AfterWrites;
      if |buffer| > 0 {
        var clean := SanitizeOutput(buffer, secrets);
        sink := sink + clean;
        buffer := "";
      } else {
        EmptyBuffer(sink, secrets);
      }
      if NoCuts(secrets) && AllFit(secrets, overlap) {
        StreamingIsOneShot(chunks, secrets, overlap);
      }
    }
  }

  lemma NextWrite(chunks: seq<string>, p: string, secrets: seq<Secret>, overlap: nat)
    requires Proper(secrets)
    ensures AfterWrites(chunks + [p], secrets, overlap)
         == AfterWrite(AfterWrites(chunks, secrets, overlap), p, secrets, overlap)
  {
    assert (chunks + [p])[..|chunks|] == chunks;
  }

  lemma EmptyBuffer(sink: string, secrets: seq<Secret>)
    requires Proper(secrets)
    ensures AfterClose(Progress(sink, ""), secrets) == sink
  {
    assert forall s | s in secrets :: Redactable(s.value, s.marker);
    RedactNoneAll("", secrets);
  }
}
