/** pkg/sanitizer/stream.go: for which lists of secrets every split of every text gives the one-shot
    redaction, and a split that does not for all others. */
module StreamSplits {
  import opened Strings
  import opened Redaction
  import opened Streaming

  // ---------- Two writes ----------

  lemma TwoWrites(a: string, b: string, secrets: seq<Secret>, overlap: nat)
    requires Proper(secrets)
    ensures AfterWrites([a, b], secrets, overlap)
         == AfterWrite(AfterWrite(Progress("", ""), a, secrets, overlap), b, secrets, overlap)
    ensures Concat([a, b]) == a + b
  {
    var two, one := [a, b], [a];
    assert two[..1] == one && one[..0] == [];
    assert AfterWrites(one[..0], secrets, overlap) == Progress("", "");
    assert AfterWrites(two[..1], secrets, overlap) == AfterWrite(Progress("", ""), a, secrets, overlap);
    assert Concat(one[..0]) == "" && Concat(two[..1]) == "" + a == a;
  }

  /** What the client receives of two writes. */
  lemma StreamedTwo(a: string, b: string, secrets: seq<Secret>, overlap: nat)
    requires Proper(secrets)
    ensures var clean := RedactAll(a, secrets);
            Streamed([a, b], secrets, overlap)
            == Flushed(clean, overlap) + RedactAll(Kept(clean, overlap) + b, secrets)
  {
    hide RedactAll, Flushed, Kept, HoldsNone, AfterWrites, Concat;
    TwoWrites(a, b, secrets, overlap);
    assert "" + a == a;
    var clean := RedactAll(a, secrets);
    var clean' := RedactAll(Kept(clean, overlap) + b, secrets);
    var out, flushed, kept := Flushed(clean, overlap), Flushed(clean', overlap), Kept(clean', overlap);
    assert "" + out == out;
    Parted(clean', overlap);
    NothingLeftAll(Kept(clean, overlap) + b, secrets);
    PartHoldsNone(clean', flushed, kept, secrets);
    RedactNoneAll(kept, secrets);
    Regroup(out, flushed, kept);
  }

  /** Redacted text that ends in a marker is settled. */
  lemma SealedWrite(a: string, b: string, secrets: seq<Secret>, overlap: nat)
    requires Proper(secrets)
    requires var clean := RedactAll(a, secrets); clean != "" && clean[|clean| - 1] == ']'
    ensures Streamed([a, b], secrets, overlap) == RedactAll(a, secrets) + RedactAll(b, secrets)
  {
    var clean := RedactAll(a, secrets);
    var flushed, kept := Flushed(clean, overlap), Kept(clean, overlap);
    StreamedTwo(a, b, secrets, overlap);
    NothingLeftAll(a, secrets);
    Parted(clean, overlap);
    assert kept != "" ==> kept[|kept| - 1] == clean[|clean| - 1];
    hide RedactAll, HoldsNone, Flushed, Kept;
    PartHoldsNone(clean, flushed, kept, secrets);
    forall s | s in secrets
      ensures Untouched(kept, b, s.value)
    {
      SealedFront(kept, b, s, secrets);
    }
    FrontStays(kept, b, secrets);
    Regroup(flushed, kept, RedactAll(b, secrets));
  }

  lemma SealedFront(kept: string, b: string, s: Secret, secrets: seq<Secret>)
    requires Proper(secrets) && s in secrets && HoldsNone(kept, secrets) && (kept != "" ==> kept[|kept| - 1] == ']')
    ensures Untouched(kept, b, s.value)
  {
    NoOccurrences(kept, s.value);
    assert Redactable(s.value, s.marker);
    forall i | 0 <= i < |kept|
      ensures !OccursAt(kept + b, s.value, i)
    {
      if i + |s.value| <= |kept| {
        OccursInFront(kept, b, s.value, i);
      } else {
        Strings.NotInside(kept + b, s.value, i, |kept| - 1);
      }
    }
  }

  // ---------- Secrets that contain an earlier one ----------

  /** No secret holds one that is looked for earlier. */
  ghost predicate Live(secrets: seq<Secret>) {
    forall i, j | 0 <= i < j < |secrets| :: !Contains(secrets[j].value, secrets[i].value)
  }

  /** The list without the secrets that hold an earlier one. */
  function Pruned(secrets: seq<Secret>): (live: seq<Secret>)
    ensures forall s | s in live :: s in secrets
  {
    if secrets == [] then []
    else
      var before, last := Pruned(secrets[..|secrets| - 1]), secrets[|secrets| - 1];
      if exists k | 0 <= k < |before| :: Contains(last.value, before[k].value) then before else before + [last]
  }

  lemma {:induction false} PrunedIsLive(secrets: seq<Secret>)
    ensures Live(Pruned(secrets))
  {
    hide Contains;
    if secrets != [] {
      PrunedIsLive(secrets[..|secrets| - 1]);
    }
  }

  lemma PrunedIsProper(secrets: seq<Secret>)
    requires Proper(secrets)
    ensures Proper(Pruned(secrets))
  {
    ProperPart(secrets, Pruned(secrets));
  }

  /** They never match: the earlier one is already gone. */
  lemma {:induction false} PrunedRedacts(text: string, secrets: seq<Secret>)
    requires Proper(secrets)
    ensures Proper(Pruned(secrets)) && RedactAll(text, Pruned(secrets)) == RedactAll(text, secrets)
    decreases |secrets|
  {
    hide Proper, Redactable, Contains, RedactAll;
    PrunedIsProper(secrets);
    if secrets != [] {
      var front, last := secrets[..|secrets| - 1], secrets[|secrets| - 1];
      var before := Pruned(front);
      assert secrets == front + [last];
      RedactInTurn(text, front, [last]);
      PrunedRedacts(text, front);
      if k :| 0 <= k < |before| && Contains(last.value, before[k].value) {
        NothingLeftAll(text, before);
        NothingToMatch(RedactAll(text, before), last, before, k);
      } else {
        RedactInTurn(text, before, [last]);
      }
    }
  }

  lemma NothingToMatch(text: string, last: Secret, before: seq<Secret>, k: nat)
    requires Proper([last]) && k < |before| && HoldsNone(text, before) && Contains(last.value, before[k].value)
    ensures RedactAll(text, [last]) == text
  {
    hide Contains, RedactAll;
    assert before[k] in before;
    if Contains(text, last.value) {
      ContainsTransitive(text, last.value, before[k].value);
    }
    RedactNoneAll(text, [last]);
  }

  /** A live secret on its own becomes its marker. */
  lemma {:induction false} SecretAlone(secrets: seq<Secret>, i: nat)
    requires Proper(secrets) && Live(secrets) && i < |secrets|
    ensures RedactAll(secrets[i].value, secrets) == secrets[i].marker
    decreases i
  {
    hide Contains, Redact, RedactAll;
    var s, rest := secrets[0], secrets[1..];
    RedactFirst(secrets[i].value, secrets);
    assert s in secrets;
    if i == 0 {
      assert s.value + "" == s.value && s.marker + "" == s.marker;
      Redacted("", s.value, s.marker);
      RedactNone("", s.value, s.marker) by { ShortHoldsNone("", s.value); }
      assert forall x | x in rest :: x in secrets;
      RedactNoneAll(s.marker, rest);
    } else {
      RedactNone(secrets[i].value, s.value, s.marker);
      assert rest[i - 1] == secrets[i];
      SecretAlone(rest, i - 1);
    }
  }

  lemma ShortHoldsNone(text: string, w: string)
    requires |text| < |w|
    ensures !Contains(text, w)
  {
  }

  // ---------- Where streaming differs ----------

  /** The scanner's output is not the one-shot redaction. */
  predicate Differs(a: string, b: string, secrets: seq<Secret>, overlap: nat)
    requires Proper(secrets)
  {
    Streamed([a, b], secrets, overlap) != RedactAll(Concat([a, b]), secrets)
  }

  lemma StartsWith(x: string, y: string)
    requires x != ""
    ensures x + y != "" && (x + y)[0] == x[0]
  {
  }

  /** Cut before its last character, a secret that does not fit is not redacted. */
  lemma LongSecretLeaks(secrets: seq<Secret>, i: nat, overlap: nat)
    requires Proper(secrets) && Live(secrets) && NoCuts(secrets) && i < |secrets|
    requires |secrets[i].value| >= overlap + 2
    ensures var w := secrets[i].value;
            && Differs(w[..|w| - 1], w[|w| - 1..], secrets, overlap)
            && (secrets == [secrets[i]] ==> Streamed([w[..|w| - 1], w[|w| - 1..]], secrets, overlap) == w)
  {
    hide RedactAll, Streamed, HoldsNone, Contains, NoCuts, Live, Kept, Flushed, AfterWrites, Concat;
    var w, m := secrets[i].value, secrets[i].marker;
    var front, last := w[..|w| - 1], w[|w| - 1..];
    assert secrets[i] in secrets && Redactable(w, m) && w[0] in w && front + last == w;
    FrontHoldsNone(secrets, i);
    RedactNoneAll(front, secrets);
    StreamedTwo(front, last, secrets, overlap);
    TwoWrites(front, last, secrets, overlap);
    SecretAlone(secrets, i);
    LongFront(w, overlap);
    StartsWith(Flushed(front, overlap), RedactAll(Kept(front, overlap) + last, secrets));
    if secrets == [secrets[i]] {
      ShortHoldsNone(Kept(front, overlap) + last, w);
      OnlyOne(Kept(front, overlap) + last, secrets, secrets[i]);
      RedactNoneAll(Kept(front, overlap) + last, secrets);
    }
  }

  lemma LongFront(w: string, overlap: nat)
    requires |w| >= overlap + 2
    ensures var front, last := w[..|w| - 1], w[|w| - 1..];
            && Flushed(front, overlap) != "" && Flushed(front, overlap)[0] == w[0]
            && |Kept(front, overlap) + last| < |w| && Flushed(front, overlap) + (Kept(front, overlap) + last) == w
  {
  }

  lemma OnlyOne(text: string, secrets: seq<Secret>, s: Secret)
    requires secrets == [s] && !Contains(text, s.value)
    ensures HoldsNone(text, secrets)
  {
  }

  lemma FrontHoldsNone(secrets: seq<Secret>, i: nat)
    requires Live(secrets) && NoCuts(secrets) && i < |secrets| && secrets[i].value != ""
    ensures HoldsNone(secrets[i].value[..|secrets[i].value| - 1], secrets)
  {
    hide Contains, Cuts;
    var w := secrets[i].value;
    var front := w[..|w| - 1];
    ContainsInMiddle("", front, w[|w| - 1..]);
    assert "" + front + w[|w| - 1..] == w;
    forall s | s in secrets
      ensures !Contains(front, s.value)
    {
      var k :| 0 <= k < |secrets| && secrets[k] == s;
      if k < i {
        assert !Contains(w, s.value);
        if Contains(front, s.value) {
          ContainsTransitive(w, front, s.value);
        }
      } else if k == i {
        ShortHoldsNone(front, w);
      } else {
        NotInside(s.value, w);
      }
    }
  }

  lemma NotInside(later: string, earlier: string)
    requires earlier != "" && !Cuts(later, earlier)
    ensures !Contains(earlier[..|earlier| - 1], later)
  {
  }

  // ---------- A later secret inside an earlier one ----------

  predicate EndsAt(text: string, w: string, e: nat) {
    |w| <= e <= |text| && text[e - |w|..e] == w
  }

  /** A secret after the `i`-th ends at `e` in the `i`-th. */
  predicate LaterEnds(secrets: seq<Secret>, i: nat, e: nat, j: nat) {
    i < j < |secrets| && EndsAt(secrets[i].value, secrets[j].value, e)
  }

  /** None ends earlier, nor there and is looked for earlier. */
  ghost predicate FirstEnds(secrets: seq<Secret>, i: nat, e: nat, j: nat) {
    && LaterEnds(secrets, i, e, j)
    && forall e': nat, j': nat | LaterEnds(secrets, i, e', j') :: e < e' || (e == e' && j <= j')
  }

  lemma {:induction false} EarliestEnd(secrets: seq<Secret>, i: nat, e: nat, j: nat) returns (e': nat, j': nat)
    requires LaterEnds(secrets, i, e, j)
    ensures FirstEnds(secrets, i, e', j') && e' <= e
    decreases e, j
  {
    e', j' := e, j;
    if x: nat, y: nat :| LaterEnds(secrets, i, x, y) && (x < e || (x == e && y < j)) {
      e', j' := EarliestEnd(secrets, i, x, y);
    }
  }

  /** A text that ends in a secret, with nothing else to match in it: `front` and the marker. */
  lemma {:induction false} EndsInMarker(front: string, secrets: seq<Secret>, j: nat)
    requires Proper(secrets) && j < |secrets|
    requires forall k | 0 <= k < j :: !Contains(front + secrets[j].value, secrets[k].value)
    requires forall k | j <= k < |secrets| :: Untouched(front, secrets[j].value, secrets[k].value) || k > j
    requires forall k | j < k < |secrets| :: !Contains(front, secrets[k].value)
    requires !Contains(front, secrets[j].value)
    ensures RedactAll(front + secrets[j].value, secrets) == front + secrets[j].marker
    decreases j
  {
    hide Contains, Redact, RedactAll, Untouched;
    var s, rest, w := secrets[0], secrets[1..], secrets[j].value;
    RedactFirst(front + w, secrets);
    assert s in secrets;
    if j == 0 {
      assert w + "" == w && s.marker + "" == s.marker;
      assert Untouched(front, w, w);
      ReplacedAt(front, "", s);
      RedactNone("", s.value, s.marker) by { ShortHoldsNone("", s.value); }
      forall x | x in rest
        ensures !Contains(front + s.marker, x.value)
      {
        var k :| 0 <= k < |rest| && rest[k] == x;
        assert secrets[k + 1] == x && x in secrets;
        MarkerAddsNone(front, s.marker, x.value);
      }
      RedactNoneAll(front + s.marker, rest);
    } else {
      assert secrets[0] == s;
      RedactNone(front + w, s.value, s.marker);
      assert rest[j - 1] == secrets[j];
      forall k | j - 1 <= k < |rest|
        ensures Untouched(front, rest[j - 1].value, rest[k].value) || k > j - 1
      {
        assert rest[k] == secrets[k + 1];
      }
      EndsInMarker(front, rest, j - 1);
    }
  }

  lemma MarkerAddsNone(front: string, marker: string, w: string)
    requires Redactable(w, marker) && !Contains(front, w)
    ensures !Contains(front + marker, w)
  {
    NoOccurrences(front, w);
    NoOccurrences(marker, w);
    var text := front + marker;
    forall i | 0 <= i <= |text|
      ensures !OccursAt(text, w, i)
    {
      if i + |w| <= |front| {
        OccursInFront(front, marker, w, i);
      } else if i >= |front| {
        assert marker + "" == marker;
        ShiftOccurs(front, marker, "", w, i - |front|);
        assert text + "" == text;
      } else {
        Strings.NotInside(text, w, i, |front|);
      }
    }
  }

  lemma LaterIsOut(secrets: seq<Secret>, i: nat, e: nat, j: nat, k: nat)
    requires FirstEnds(secrets, i, e, j) && i < k < |secrets|
    ensures var w, v := secrets[i].value, secrets[k].value;
            && forall p: nat | p + |v| <= e && OccursAt(w[..e], v, p) :: p + |v| == e && k >= j
  {
    var w, v := secrets[i].value, secrets[k].value;
    forall p: nat | p + |v| <= e && OccursAt(w[..e], v, p)
      ensures p + |v| == e && k >= j
    {
      assert w[..e][p..p + |v|] == w[p..p + |v|];
      assert LaterEnds(secrets, i, p + |v|, k);
    }
  }

  /** Up to its end the later secret is all there is to redact. */
  lemma FirstPart(secrets: seq<Secret>, i: nat, e: nat, j: nat)
    requires Proper(secrets) && Live(secrets) && FirstEnds(secrets, i, e, j) && e < |secrets[i].value|
    ensures var w, v := secrets[i].value, secrets[j].value;
            |v| <= e && RedactAll(w[..e], secrets) == w[..e - |v|] + secrets[j].marker
  {
    hide RedactAll, Redactable;
    var w, v := secrets[i].value, secrets[j].value;
    var front := w[..e - |v|];
    assert w[..e] == front + v;
    forall k | 0 <= k < j
      ensures !Contains(front + v, secrets[k].value)
    {
      BeforeIsOut(secrets, i, e, j, k);
    }
    assert secrets[j] in secrets;
    Nonempty(secrets[j]);
    forall k | j <= k < |secrets|
      ensures !Contains(front, secrets[k].value)
      ensures k == j ==> Untouched(front, v, v)
    {
      assert secrets[k] in secrets;
      Nonempty(secrets[k]);
      LaterIsOut(secrets, i, e, j, k);
      FrontIsOut(front, v, secrets[k].value);
    }
    EndsInMarker(front, secrets, j);
  }

  lemma FrontIsOut(front: string, rest: string, v: string)
    requires v != "" && forall p: nat | p + |v| <= |front + rest| && OccursAt(front + rest, v, p) ::
               p + |v| == |front + rest|
    ensures rest != "" ==> !Contains(front, v)
    ensures |v| == |rest| ==> Untouched(front, rest, v)
  {
    forall p | 0 <= p <= |front|
      ensures rest != "" ==> !OccursAt(front, v, p)
    {
      if p + |v| <= |front| {
        OccursInFront(front, rest, v, p);
      }
    }
  }

  lemma BeforeIsOut(secrets: seq<Secret>, i: nat, e: nat, j: nat, k: nat)
    requires Live(secrets) && FirstEnds(secrets, i, e, j) && e < |secrets[i].value| && k < j
    ensures !Contains(secrets[i].value[..e], secrets[k].value)
  {
    var w, v := secrets[i].value, secrets[k].value;
    hide Contains;
    if k < i {
      ContainsInMiddle("", w[..e], w[e..]);
      assert "" + w[..e] + w[e..] == w;
      if Contains(w[..e], v) {
        ContainsTransitive(w, w[..e], v);
      }
    } else if k == i {
      ShortHoldsNone(w[..e], w);
    } else {
      LaterIsOut(secrets, i, e, j, k);
      NowhereIn(w[..e], v);
    }
  }

  lemma NowhereIn(text: string, v: string)
    requires forall p: nat | p + |v| <= |text| :: !OccursAt(text, v, p)
    ensures !Contains(text, v)
  {
  }

  lemma {:induction false} RedactNonempty(text: string, secrets: seq<Secret>)
    requires Proper(secrets) && text != ""
    ensures RedactAll(text, secrets) != ""
    decreases |secrets|
  {
    hide RedactAll;
    if secrets == [] {
      RedactNoneAll(text, secrets);
    } else {
      RedactFirst(text, secrets);
      ProperRest(secrets);
      assert Redact(text, secrets[0].value, secrets[0].marker) != "";
      RedactNonempty(Redact(text, secrets[0].value, secrets[0].marker), secrets[1..]);
    }
  }

  lemma MarkerEnds(marker: string, other: string, rest: string)
    requires IsMarker(marker) && IsMarker(other) && rest != ""
    ensures other + rest != marker
  {
    assert (other + rest)[|other| - 1] == ']';
  }

  /** Cut where the inner one is complete, the outer one is not redacted as one. */
  lemma InnerFails(secrets: seq<Secret>, i: nat, j: nat, overlap: nat) returns (a: string, b: string)
    requires Proper(secrets) && Live(secrets) && i < j < |secrets|
    requires EndsInside(secrets[j].value, secrets[i].value)
    ensures Differs(a, b, secrets, overlap)
  {
    hide RedactAll, Streamed, Contains, Live, AfterWrites, Concat, FirstEnds;
    var w := secrets[i].value;
    var e0 := EndOf(secrets, i, j);
    var e, j' := EarliestEnd(secrets, i, e0, j);
    a, b := w[..e], w[e..];
    assert a + b == w;
    assert LaterEnds(secrets, i, e, j') by {
      FirstIsLater(secrets, i, e, j');
    }
    FirstPart(secrets, i, e, j');
    SecretAlone(secrets, i);
    TwoWrites(a, b, secrets, overlap);
    assert secrets[i] in secrets && secrets[j'] in secrets && Redactable(w, secrets[i].marker);
    var front, m, m' := w[..e - |secrets[j'].value|], secrets[i].marker, secrets[j'].marker;
    assert Redactable(w, m');
    EndChar(front, m');
    SealedWrite(a, b, secrets, overlap);
    RedactNonempty(b, secrets);
    var z := RedactAll(b, secrets);
    Regroup(front, m', z);
    if front == "" {
      assert front + (m' + z) == m' + z;
      MarkerEnds(m, m', z);
    } else {
      StartsWith(front, m' + z);
      assert w[0] in w && front[0] == w[0];
    }
  }

  lemma EndChar(front: string, marker: string)
    requires IsMarker(marker)
    ensures var clean := front + marker; clean != "" && clean[|clean| - 1] == ']'
  {
  }

  lemma FirstIsLater(secrets: seq<Secret>, i: nat, e: nat, j: nat)
    requires FirstEnds(secrets, i, e, j)
    ensures LaterEnds(secrets, i, e, j)
  {
  }

  lemma EndOf(secrets: seq<Secret>, i: nat, j: nat) returns (e: nat)
    requires i < j < |secrets| && EndsInside(secrets[j].value, secrets[i].value)
    ensures LaterEnds(secrets, i, e, j) && e < |secrets[i].value|
  {
    var w, v := secrets[i].value, secrets[j].value;
    var front := w[..|w| - 1];
    var p: nat :| p <= |front| && OccursAt(front, v, p);
    e := p + |v|;
    assert front[p..e] == w[p..e];
  }

  // ---------- A later secret over the start of an earlier one ----------

  ghost predicate NoneInside(secrets: seq<Secret>) {
    forall i, j | 0 <= i < j < |secrets| :: !EndsInside(secrets[j].value, secrets[i].value)
  }

  ghost predicate Overlapped(secrets: seq<Secret>, i: nat) {
    i < |secrets| && exists j, m: nat | i < j < |secrets| :: OverlapsBy(secrets[j].value, secrets[i].value, m)
  }

  lemma {:induction false} FirstOverlapped(secrets: seq<Secret>, i: nat) returns (i': nat)
    requires Overlapped(secrets, i)
    ensures Overlapped(secrets, i') && forall k: nat | k < i' :: !Overlapped(secrets, k)
    decreases i
  {
    i' := i;
    if k: nat :| k < i && Overlapped(secrets, k) {
      i' := FirstOverlapped(secrets, k);
    }
  }

  /** The later secret, run on into the earlier one. */
  function RunOn(v: string, w: string, m: nat): string
    requires m <= |v|
  {
    v[..|v| - m] + w
  }

  /** Where another secret can be in it: in neither alone, so it covers the end of the later one. */
  lemma InRunOn(v: string, w: string, m: nat, u: string, p: nat)
    requires OverlapsBy(v, w, m) && !Contains(w, u) && !Contains(v, u) && u != ""
    requires OccursAt(RunOn(v, w, m), u, p)
    ensures p < |v| < p + |u| && v[p..] == u[..|v| - p]
  {
    var y := v[..|v| - m];
    var text := y + w;
    NoOccurrences(w, u);
    NoOccurrences(v, u);
    assert text == v + w[m..] by {
      assert v == y + w[..m] && w == w[..m] + w[m..];
    }
    if p >= |y| {
      assert w + "" == w && text + "" == text;
      ShiftOccurs(y, w, "", u, p - |y|);
    }
    if p + |u| <= |v| {
      OccursInFront(v, w[m..], u, p);
    }
    if p < |v| < p + |u| {
      assert text[p..p + |u|] == u;
      assert u[..|v| - p] == text[p..|v|];
    }
  }

  /** No secret in front of the overlapped one is in it. */
  lemma EarlierNotInRunOn(secrets: seq<Secret>, i: nat, j: nat, m: nat, k: nat)
    requires Live(secrets) && NoneInside(secrets) && i < j < |secrets| && k < i
    requires OverlapsBy(secrets[j].value, secrets[i].value, m)
    requires !Overlapped(secrets, k) && secrets[k].value != ""
    ensures !Contains(RunOn(secrets[j].value, secrets[i].value, m), secrets[k].value)
  {
    var v, w, u := secrets[j].value, secrets[i].value, secrets[k].value;
    var text := RunOn(v, w, m);
    hide RunOn;
    forall p: nat | p <= |text|
      ensures !OccursAt(text, u, p)
    {
      NoCoverAt(secrets, i, j, m, k, p);
    }
  }

  lemma NoCoverAt(secrets: seq<Secret>, i: nat, j: nat, m: nat, k: nat, p: nat)
    requires Live(secrets) && NoneInside(secrets) && i < j < |secrets| && k < i
    requires OverlapsBy(secrets[j].value, secrets[i].value, m)
    requires !Overlapped(secrets, k) && secrets[k].value != ""
    ensures !OccursAt(RunOn(secrets[j].value, secrets[i].value, m), secrets[k].value, p)
  {
    var v, w, u := secrets[j].value, secrets[i].value, secrets[k].value;
    hide Contains, RunOn;
    assert !Contains(w, u) && !Contains(v, u) && !EndsInside(v, u);
    if OccursAt(RunOn(v, w, m), u, p) {
      InRunOn(v, w, m, u, p);
      CoverCuts(v, u, p);
    }
  }

  lemma CoverCuts(v: string, u: string, p: nat)
    requires p < |v| < p + |u| && v[p..] == u[..|v| - p]
    ensures EndsInside(v, u) || OverlapsBy(v, u, |v| - p)
  {
    if p == 0 {
      assert u[..|u| - 1][0..|v|] == v;
      ContainsAt(u[..|u| - 1], v, 0);
    }
  }

  /** Where the overlapped secret is first found in it. */
  lemma FirstFound(v: string, w: string, m: nat) returns (front: string, behind: string)
    requires OverlapsBy(v, w, m) && !Contains(v, w) && !EndsInside(v, w)
    ensures RunOn(v, w, m) == front + (w + behind) && Untouched(front, w + behind, w)
    ensures front != "" && |front| < |v| && front == v[..|front|]
  {
    var y := v[..|v| - m];
    var text := RunOn(v, w, m);
    NotAtStart(v, w, m);
    var a := FirstSpot(y, w);
    front, behind := text[..a], text[a + |w|..];
    hide OccursAt, RunOn;
    SplitAt(text, w, a);
    assert front == y[..a] == v[..a];
  }

  lemma FirstSpot(y: string, w: string) returns (a: nat)
    ensures a <= |y| && OccursAt(y + w, w, a) && forall p | 0 <= p < a :: !OccursAt(y + w, w, p)
  {
    assert (y + w)[|y|..|y| + |w|] == w;
    assert OccursAt(y + w, w, |y|);
    a := IndexFrom(y + w, w, 0);
  }

  lemma SplitAt(text: string, w: string, a: nat)
    requires OccursAt(text, w, a) && forall p | 0 <= p < a :: !OccursAt(text, w, p)
    ensures a + |w| <= |text| && text == text[..a] + (w + text[a + |w|..])
    ensures Untouched(text[..a], w + text[a + |w|..], w)
  {
    assert text == text[..a] + (w + text[a + |w|..]);
  }

  lemma NotAtStart(v: string, w: string, m: nat)
    requires OverlapsBy(v, w, m) && !Contains(v, w) && !EndsInside(v, w)
    ensures !OccursAt(RunOn(v, w, m), w, 0)
  {
    var y := v[..|v| - m];
    var text := y + w;
    assert v == y + w[..m] && w == w[..m] + w[m..];
    assert text == v + w[m..];
    if |w| <= |v| {
      OccursInFront(v, w[m..], w, 0);
      NoOccurrences(v, w);
    } else if OccursAt(text, w, 0) {
      assert w[..|v|] == text[..|v|] == v;
      assert w[..|w| - 1][0..|v|] == v;
      ContainsAt(w[..|w| - 1], v, 0);
    }
  }

  /** A bracket-free front part in front of a marker, with none of the secrets in it. */
  lemma FrontOfMarker(front: string, marker: string, rest: string, secrets: seq<Secret>)
    requires Proper(secrets) && IsMarker(marker) && HoldsNone(front, secrets)
    ensures RedactAll(front + (marker + rest), secrets) == front + RedactAll(marker + rest, secrets)
  {
    forall s | s in secrets
      ensures Untouched(front, marker + rest, s.value)
    {
      assert Redactable(s.value, s.marker);
      NoOccurrences(front, s.value);
      forall i | 0 <= i < |front|
        ensures !OccursAt(front + (marker + rest), s.value, i)
      {
        if i + |s.value| <= |front| {
          OccursInFront(front, marker + rest, s.value, i);
        } else {
          Strings.NotInside(front + (marker + rest), s.value, i, |front|);
        }
      }
    }
    FrontStays(front, marker + rest, secrets);
  }

  lemma PartOfLater(secrets: seq<Secret>, j: nat, n: nat)
    requires Live(secrets) && NoneInside(secrets) && j < |secrets| && n < |secrets[j].value|
    ensures HoldsNone(secrets[j].value[..n], secrets)
  {
    var v := secrets[j].value;
    var front := v[..n];
    ContainsInMiddle("", front, v[n..]);
    assert "" + front + v[n..] == v;
    var most := v[..|v| - 1];
    ContainsInMiddle("", front, most[n..]);
    assert "" + front + most[n..] == most;
    hide Contains;
    forall s | s in secrets
      ensures !Contains(front, s.value)
    {
      var k :| 0 <= k < |secrets| && secrets[k] == s;
      if k == j {
        ShortHoldsNone(front, v);
      } else {
        assert if k < j then !Contains(v, s.value) else !EndsInside(s.value, v);
        if Contains(front, s.value) {
          ContainsTransitive(v, front, s.value);
          ContainsTransitive(most, front, s.value);
        }
      }
    }
  }

  /** One-shot redaction leaves the start of the later secret. */
  lemma RunOnRedacted(secrets: seq<Secret>, i: nat, j: nat, m: nat)
    requires Proper(secrets) && Live(secrets) && NoneInside(secrets) && i < j < |secrets|
    requires OverlapsBy(secrets[j].value, secrets[i].value, m) && forall k: nat | k < i :: !Overlapped(secrets, k)
    ensures var whole, v := RedactAll(RunOn(secrets[j].value, secrets[i].value, m), secrets), secrets[j].value;
            whole != "" && v != "" && whole[0] == v[0]
  {
    hide RedactAll, Redactable, Contains, Overlapped, RunOn, Untouched, EndsInside;
    var v, w, mark := secrets[j].value, secrets[i].value, secrets[i].marker;
    var text, earlier, later := RunOn(v, w, m), secrets[..i], secrets[i..];
    assert secrets == earlier + later;
    RedactInTurn(text, earlier, later);
    EarlierLeave(secrets, i, j, m);
    RedactNoneAll(text, earlier);
    assert later[0] == secrets[i] && later[1..] == secrets[i + 1..];
    RedactFirst(text, later);
    LaterRedact(secrets, i, j, m);
  }

  lemma LaterRedact(secrets: seq<Secret>, i: nat, j: nat, m: nat)
    requires Proper(secrets) && Live(secrets) && NoneInside(secrets) && i < j < |secrets|
    requires OverlapsBy(secrets[j].value, secrets[i].value, m)
    ensures var v, s, later := secrets[j].value, secrets[i], secrets[i + 1..];
            && s.value != "" && v != "" && Proper(later)
            && var whole := RedactAll(Redact(RunOn(v, s.value, m), s.value, s.marker), later);
            whole != "" && whole[0] == v[0]
  {
    hide RedactAll, Redactable, Contains, RunOn, Untouched, EndsInside;
    var v, s, later := secrets[j].value, secrets[i], secrets[i + 1..];
    assert !Contains(v, s.value) && !EndsInside(v, s.value);
    var front, behind := FirstFound(v, s.value, m);
    assert s in secrets && forall x | x in later :: x in secrets;
    Nonempty(s);
    MarkerOf(s);
    ProperPart(secrets, later);
    ReplacedAt(front, behind, s);
    PartOfLater(secrets, j, |front|);
    var z := Redact(behind, s.value, s.marker);
    FrontOfMarker(front, s.marker, z, later);
    StartsWith(front, RedactAll(s.marker + z, later));
  }

  lemma MarkerOf(s: Secret)
    requires Redactable(s.value, s.marker)
    ensures IsMarker(s.marker)
  {
  }

  lemma EarlierLeave(secrets: seq<Secret>, i: nat, j: nat, m: nat)
    requires Proper(secrets) && Live(secrets) && NoneInside(secrets) && i < j < |secrets|
    requires OverlapsBy(secrets[j].value, secrets[i].value, m) && forall k: nat | k < i :: !Overlapped(secrets, k)
    ensures HoldsNone(RunOn(secrets[j].value, secrets[i].value, m), secrets[..i])
  {
    hide Redactable, Contains, RunOn, Overlapped;
    forall s | s in secrets[..i]
      ensures !Contains(RunOn(secrets[j].value, secrets[i].value, m), s.value)
    {
      var k :| 0 <= k < i && secrets[k] == s;
      assert s in secrets;
      Nonempty(s);
      EarlierNotInRunOn(secrets, i, j, m, k);
    }
  }

  /** Cut where the later one is complete, it is redacted first and the earlier one not at all. */
  lemma OverlapFails(secrets: seq<Secret>, i: nat, j: nat, m: nat, overlap: nat)
    requires Proper(secrets) && Live(secrets) && NoneInside(secrets) && i < j < |secrets|
    requires OverlapsBy(secrets[j].value, secrets[i].value, m) && forall k: nat | k < i :: !Overlapped(secrets, k)
    ensures Differs(secrets[j].value, secrets[i].value[m..], secrets, overlap)
  {
    hide RedactAll, Streamed, Contains, Live, NoneInside, AfterWrites, Concat, Overlapped;
    var v, w, mark := secrets[j].value, secrets[i].value, secrets[j].marker;
    TwoWrites(v, w[m..], secrets, overlap);
    assert v + w[m..] == RunOn(v, w, m) by {
      assert v == v[..|v| - m] + w[..m] && w == w[..m] + w[m..];
    }
    RunOnRedacted(secrets, i, j, m);
    SecretAlone(secrets, j);
    assert secrets[j] in secrets && Redactable(v, mark) && v[0] in v;
    SealedWrite(v, w[m..], secrets, overlap);
    StartsWith(mark, RedactAll(w[m..], secrets));
  }

  /** Live secrets that cut into each other, or do not all fit: some split of some text shows it. */
  lemma SomeSplitDiffers(secrets: seq<Secret>, overlap: nat) returns (a: string, b: string)
    requires Proper(secrets) && Live(secrets) && !(NoCuts(secrets) && AllFit(secrets, overlap))
    ensures Differs(a, b, secrets, overlap)
  {
    hide Proper, Live, Differs, EndsInside, OverlapsBy, RedactAll;
    if NoneInside(secrets) {
      if i: nat :| Overlapped(secrets, i) {
        var i' := FirstOverlapped(secrets, i);
        var j, m: nat :| i' < j < |secrets| && OverlapsBy(secrets[j].value, secrets[i'].value, m);
        a, b := secrets[j].value, secrets[i'].value[m..] by { OverlapFits(secrets[j].value, secrets[i'].value, m); }
        OverlapFails(secrets, i', j, m, overlap);
      } else {
        NothingCuts(secrets);
        var s :| s in secrets && |s.value| > overlap + 1;
        var i :| 0 <= i < |secrets| && secrets[i] == s;
        a, b := s.value[..|s.value| - 1], s.value[|s.value| - 1..];
        LongSecretLeaks(secrets, i, overlap);
      }
    } else {
      var i, j :| 0 <= i < j < |secrets| && EndsInside(secrets[j].value, secrets[i].value);
      a, b := InnerFails(secrets, i, j, overlap);
    }
  }

  lemma NothingCuts(secrets: seq<Secret>)
    requires NoneInside(secrets) && forall i: nat :: !Overlapped(secrets, i)
    ensures NoCuts(secrets)
  {
    hide EndsInside, OverlapsBy;
    forall i, j | 0 <= i < j < |secrets|
      ensures !Cuts(secrets[j].value, secrets[i].value)
    {
      assert !Overlapped(secrets, i);
    }
  }

  lemma OverlapFits(v: string, w: string, m: nat)
    requires OverlapsBy(v, w, m)
    ensures m <= |w|
  {
  }

  // ---------- Exactly when ----------

  lemma {:induction false} StreamsAlike(chunks: seq<string>, secrets: seq<Secret>, overlap: nat)
    requires Proper(secrets) && Proper(Pruned(secrets))
    ensures AfterWrites(chunks, Pruned(secrets), overlap) == AfterWrites(chunks, secrets, overlap)
    ensures Streamed(chunks, Pruned(secrets), overlap) == Streamed(chunks, secrets, overlap)
  {
    hide RedactAll, Proper, Pruned;
    if chunks != [] {
      var before, p := chunks[..|chunks| - 1], chunks[|chunks| - 1];
      StreamsAlike(before, secrets, overlap);
      PrunedRedacts(AfterWrites(before, secrets, overlap).buffer + p, secrets);
    }
    PrunedRedacts(AfterWrites(chunks, secrets, overlap).buffer, secrets);
  }

  /** For which secrets streaming is one-shot redaction on every text and every split of it:
      leaving out those that hold an earlier one and so never match, exactly when each is no
      longer than the overlap plus one, and no later one can end inside an occurrence of an
      earlier one that it touches. */
  lemma StreamingExact(secrets: seq<Secret>, overlap: nat)
    requires Proper(secrets)
    ensures (forall chunks :: Streamed(chunks, secrets, overlap) == RedactAll(Concat(chunks), secrets))
       <==> NoCuts(Pruned(secrets)) && AllFit(Pruned(secrets), overlap)
  {
    hide Streamed, RedactAll, Concat, NoCuts, AllFit, Live, Pruned;
    PrunedIsLive(secrets);
    PrunedIsProper(secrets);
    hide Proper;
    if NoCuts(Pruned(secrets)) && AllFit(Pruned(secrets), overlap) {
      forall chunks
        ensures Streamed(chunks, secrets, overlap) == RedactAll(Concat(chunks), secrets)
      {
        StreamsAlike(chunks, secrets, overlap);
        PrunedRedacts(Concat(chunks), secrets);
        StreamingIsOneShot(chunks, Pruned(secrets), overlap);
      }
    } else {
      var a, b := SomeSplitDiffers(Pruned(secrets), overlap);
      StreamsAlike([a, b], secrets, overlap);
      PrunedRedacts(Concat([a, b]), secrets);
      assert Streamed([a, b], secrets, overlap) != RedactAll(Concat([a, b]), secrets);
    }
  }

  lemma RedactTwo(text: string, first: Secret, second: Secret)
    requires Proper([first, second])
    ensures first.value != "" && second.value != ""
    ensures RedactAll(text, [first, second])
         == Redact(Redact(text, first.value, first.marker), second.value, second.marker)
  {
    hide Redact;
    var both := [first, second];
    assert first in both && second in both && both[1..] == [second] && [second][1..] == [];
    RedactFirst(text, both);
    RedactFirst(Redact(text, first.value, first.marker), [second]);
  }

  /** An instance: "yzw" is looked for before "xy", and "xyzw" is cut behind "xy". */
  lemma OverlapInstance(overlap: nat)
    ensures var secrets := [Secret("yzw", "[M]"), Secret("xy", "[M]")];
            && Proper(secrets) && Live(secrets)
            && Streamed(["xy", "zw"], secrets, overlap) == "[M]zw"
            && RedactAll(Concat(["xy", "zw"]), secrets) == "x[M]"
  {
    var first, second := Secret("yzw", "[M]"), Secret("xy", "[M]");
    InstanceIsProper(first, second);
    hide RedactAll, Redact, Proper, Live, Streamed, AfterWrites, Concat;
    InstanceWhole();
    InstanceParts();
    RedactTwo("xy", first, second);
    RedactTwo("zw", first, second);
    RedactTwo("xyzw", first, second);
    SealedWrite("xy", "zw", [first, second], overlap);
    TwoWrites("xy", "zw", [first, second], overlap);
    assert "xy" + "zw" == "xyzw" && "[M]" + "zw" == "[M]zw";
  }

  lemma InstanceParts()
    ensures Redact(Redact("xy", "yzw", "[M]"), "xy", "[M]") == "[M]"
    ensures Redact(Redact("zw", "yzw", "[M]"), "xy", "[M]") == "zw"
  {
    assert "xy" + "" == "xy" && "[M]" + "" == "[M]";
    Redacted("", "xy", "[M]");
    NotContained("zw", "xy", 'y');
    RedactNone("zw", "xy", "[M]");
  }

  lemma InstanceIsProper(first: Secret, second: Secret)
    requires first == Secret("yzw", "[M]") && second == Secret("xy", "[M]")
    ensures Proper([first, second]) && Live([first, second])
  {
    NotContained("[M]", "yzw", 'y');
    NotContained("[M]", "xy", 'y');
    ShortHoldsNone("xy", "yzw");
    hide Contains;
    assert forall s | s in [first, second] :: s == first || s == second;
  }

  lemma InstanceWhole()
    ensures Redact(Redact("xyzw", "yzw", "[M]"), "xy", "[M]") == "x[M]"
  {
    assert "xyzw"[1..] == "yzw" && "yzw"[3..] == "";
    assert Redact("yzw", "yzw", "[M]") == "[M]" + Redact("", "yzw", "[M]") == "[M]";
    assert Redact("xyzw", "yzw", "[M]") == "x" + "[M]" == "x[M]";
    NotContained("x[M]", "xy", 'y');
    RedactNone("x[M]", "xy", "[M]");
  }
}
