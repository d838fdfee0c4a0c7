/** pkg/sanitizer/sanitizer.go: the replacements of `SanitizeOutput`, for literal secrets that are
    looked for one after the other. */
module Redaction {
  import opened Strings

  datatype Secret = Secret(value: string, marker: string)

  /** A marker such as [DATA_LEAK_PREVENTED]: the text that replaces a secret. */
  predicate IsMarker(marker: string) {
    && |marker| >= 2 && marker[0] == '[' && marker[|marker| - 1] == ']'
    && forall i | 0 <= i < |marker| - 1 :: marker[i] != ']'
  }

  /** Bracket-free, and not part of the marker itself: redacting twice is redacting once. */
  predicate Redactable(secret: string, marker: string) {
    && secret != ""
    && '[' !in secret && ']' !in secret
    && IsMarker(marker)
    && !Contains(marker, secret)
  }

  /** The replacement step of `SanitizeOutput` for one secret. */
  function Redact(text: string, secret: string, marker: string): string
    requires secret != ""
  {
    ReplaceAll(text, secret, marker)
  }

  // ---------- Redaction is left to right ----------

  /** No occurrence starts inside a marker, whatever follows it. */
  lemma NoneInMarker(marker: string, rest: string, secret: string, i: nat)
    requires Redactable(secret, marker) && i < |marker|
    ensures !OccursAt(marker + rest, secret, i)
  {
    var text := marker + rest;
    if i + |secret| <= |marker| {
      assert text[i..i + |secret|] == marker[i..i + |secret|];
      assert Contains(marker, secret) || !OccursAt(marker, secret, i);
    } else if i + |secret| <= |text| {
      var j := |marker| - 1 - i;
      assert text[i..i + |secret|][j] == ']';
      assert secret[j] != ']';
    }
  }

  /** A bracket-free start of redacted text was there before. */
  lemma {:induction false} StartsUnredacted(text: string, rest: string, start: string, secret: string, marker: string)
    requires secret != "" && IsMarker(marker)
    requires '[' !in start
    requires start <= Redact(text, secret, marker) + rest
    ensures start <= text + rest
  {
    if start != "" {
      var out := Redact(text, secret, marker) + rest;
      assert start[0] in start && out[0] == start[0];
      if |text| >= |secret| && !(secret <= text) {
        assert out == [text[0]] + (Redact(text[1..], secret, marker) + rest);
        assert start[1..] <= out[1..];
        StartsUnredacted(text[1..], rest, start[1..], secret, marker);
        assert text + rest == [text[0]] + (text[1..] + rest);
        assert start == [start[0]] + start[1..];
      }
    }
  }

  /** Redacting a part first makes no difference to redacting the whole. */
  lemma {:induction false} RedactPart(text: string, rest: string, secret: string, marker: string)
    requires Redactable(secret, marker)
    ensures Redact(Redact(text, secret, marker) + rest, secret, marker) == Redact(text + rest, secret, marker)
  {
    if |text| < |secret| {
    } else if secret <= text {
      RedactPart(text[|secret|..], rest, secret, marker);
      MarkerThen(text, Redact(text[|secret|..], secret, marker), rest, secret, marker);
    } else {
      RedactPart(text[1..], rest, secret, marker);
      CharThen(text, rest, secret, marker);
    }
  }

  lemma CharThen(text: string, rest: string, secret: string, marker: string)
    requires Redactable(secret, marker) && |text| >= |secret| && !(secret <= text)
    requires Redact(Redact(text[1..], secret, marker) + rest, secret, marker)
        == Redact(text[1..] + rest, secret, marker)
    ensures Redact(Redact(text, secret, marker) + rest, secret, marker) == Redact(text + rest, secret, marker)
  {
    var c, text', done := [text[0]], text[1..], Redact(text[1..], secret, marker);
    StillNoMatch(text, rest, secret, marker);
    hide Redact, Redactable;
    assert text == c + text';
    RedactStep(text[0], text', secret, marker);
    RedactStep(text[0], done + rest, secret, marker);
    RedactStep(text[0], text' + rest, secret, marker);
    Regroup(c, done, rest);
    Regroup(c, text', rest);
  }

  lemma MarkerThen(text: string, done: string, rest: string, secret: string, marker: string)
    requires Redactable(secret, marker) && secret <= text
    requires Redact(done + rest, secret, marker) == Redact(text[|secret|..] + rest, secret, marker)
    ensures Redact((marker + done) + rest, secret, marker) == Redact(text + rest, secret, marker)
  {
    assert (marker + done) + rest == marker + (done + rest);
    forall i | 0 <= i < |marker|
      ensures !OccursAt(marker + (done + rest), secret, i)
    {
      NoneInMarker(marker, done + rest, secret, i);
    }
    SkipPrefix(marker, done + rest, secret, marker);
    assert secret <= text + rest && (text + rest)[|secret|..] == text[|secret|..] + rest;
  }

  /** Where the secret does not start now, it does not start once the rest is redacted. */
  lemma StillNoMatch(text: string, rest: string, secret: string, marker: string)
    requires Redactable(secret, marker) && |text| >= |secret| && !(secret <= text)
    ensures !(secret <= [text[0]] + (Redact(text[1..], secret, marker) + rest))
    ensures !(secret <= [text[0]] + (text[1..] + rest))
  {
    assert text + rest == [text[0]] + (text[1..] + rest);
    assert (text + rest)[..|secret|] == text[..|secret|];
    if secret <= [text[0]] + (Redact(text[1..], secret, marker) + rest) {
      MatchedBefore(text, rest, secret, marker);
    }
  }

  lemma MatchedBefore(text: string, rest: string, secret: string, marker: string)
    requires Redactable(secret, marker) && |text| >= |secret|
    requires secret <= [text[0]] + (Redact(text[1..], secret, marker) + rest)
    ensures secret <= text
  {
    var after := [text[0]] + (Redact(text[1..], secret, marker) + rest);
    assert secret[1..] <= after[1..];
    StartsUnredacted(text[1..], rest, secret[1..], secret, marker);
    assert secret == [text[0]] + secret[1..];
    assert secret[1..] <= (text[1..] + rest)[..|text| - 1];
    assert text == [text[0]] + text[1..];
  }

  /** Redacted text holds no occurrence of the secret. */
  lemma NothingLeft(text: string, secret: string, marker: string)
    requires Redactable(secret, marker)
    ensures !Contains(Redact(text, secret, marker), secret)
  {
    var clean := Redact(text, secret, marker);
    RedactPart(text, "", secret, marker);
    assert clean + "" == clean && text + "" == text;
    forall i | 0 <= i <= |clean|
      ensures !OccursAt(clean, secret, i)
    {
      FixedMeansNone(clean, secret, marker, i);
    }
  }

  lemma {:induction false} FixedMeansNone(clean: string, secret: string, marker: string, i: nat)
    requires Redactable(secret, marker) && Redact(clean, secret, marker) == clean
    ensures !OccursAt(clean, secret, i)
  {
    if |clean| >= |secret| {
      assert secret[0] in secret;
      if i == 0 {
        PrefixOccurs(clean, secret);
      } else {
        assert clean[1..] == ([clean[0]] + Redact(clean[1..], secret, marker))[1..];
        FixedMeansNone(clean[1..], secret, marker, i - 1);
        assert i + |secret| <= |clean| ==> clean[i..i + |secret|] == clean[1..][i - 1..i - 1 + |secret|];
      }
    }
  }

  // ---------- Several secrets, one after the other ----------

  /** Bracket-free secrets, none of which is part of a marker. */
  predicate Proper(secrets: seq<Secret>) {
    forall a, b | a in secrets && b in secrets :: Redactable(a.value, b.marker)
  }

  lemma ProperPart(secrets: seq<Secret>, part: seq<Secret>)
    requires Proper(secrets) && forall s | s in part :: s in secrets
    ensures Proper(part)
  {
  }

  lemma ProperRest(secrets: seq<Secret>)
    requires Proper(secrets) && secrets != []
    ensures Proper(secrets[1..]) && Redactable(secrets[0].value, secrets[0].marker)
    ensures forall s | s in secrets[1..] :: s in secrets
  {
    assert forall s | s in secrets[1..] :: s in secrets;
  }

  function RedactAll(text: string, secrets: seq<Secret>): string
    requires Proper(secrets)
    decreases |secrets|
  {
    if secrets == [] then text
    else
      ProperRest(secrets);
      RedactAll(Redact(text, secrets[0].value, secrets[0].marker), secrets[1..])
  }

  lemma RedactFirst(text: string, secrets: seq<Secret>)
    requires Proper(secrets) && secrets != []
    ensures Proper(secrets[1..]) && secrets[0].value != ""
    ensures RedactAll(text, secrets) == RedactAll(Redact(text, secrets[0].value, secrets[0].marker), secrets[1..])
  {
    ProperRest(secrets);
  }

  /** The loop over the secrets. */
  method SanitizeOutput(input: string, secrets: seq<Secret>) returns (sanitized: string)
    requires Proper(secrets)
    ensures sanitized == RedactAll(input, secrets)
  {
    sanitized := input;
    assert secrets[0..] == secrets;
    for i := 0 to |secrets|
      invariant Proper(secrets[i..]) && RedactAll(sanitized, secrets[i..]) == RedactAll(input, secrets)
    {
      RedactFirst(sanitized, secrets[i..]);
      assert secrets[i..][1..] == secrets[i + 1..];
      sanitized := Redact(sanitized, secrets[i].value, secrets[i].marker);
    }
  }

  lemma {:induction false} RedactInTurn(text: string, first: seq<Secret>, second: seq<Secret>)
    requires Proper(first + second)
    ensures Proper(first) && Proper(second)
    ensures RedactAll(text, first + second) == RedactAll(RedactAll(text, first), second)
    decreases |first|
  {
    hide Redact, Redactable;
    ProperPart(first + second, first);
    ProperPart(first + second, second);
    if first == [] {
      assert first + second == second;
    } else {
      RedactFirst(text, first + second);
      RedactFirst(text, first);
      assert (first + second)[1..] == first[1..] + second;
      RedactInTurn(Redact(text, first[0].value, first[0].marker), first[1..], second);
    }
  }

  // ---------- Redaction brings no bracket-free text about ----------

  lemma {:induction false} WithoutBracket(text: string, secret: string, marker: string)
    requires secret != "" && IsMarker(marker)
    ensures '[' in Redact(text, secret, marker) || Redact(text, secret, marker) == text
  {
    if |text| >= |secret| {
      var out := Redact(text, secret, marker);
      if secret <= text {
        assert out[0] == '[';
      } else {
        assert out == [text[0]] + Redact(text[1..], secret, marker);
        WithoutBracket(text[1..], secret, marker);
      }
    }
  }

  /** `p` in redacted text and `q` in the text before: inside it when the word at `p` ends inside,
      and as far from its end when the word runs over. */
  predicate SamePlace(text: string, done: string, w: string, p: nat, q: nat) {
    q < |text| && if p + |w| <= |done| then q + |w| <= |text| else |text| - q == |done| - p
  }

  lemma SamePlaceBehind(a: string, text: string, b: string, done: string, w: string, p: nat, q: nat)
    requires SamePlace(text, done, w, p, q)
    ensures SamePlace(a + text, b + done, w, |b| + p, |a| + q)
  {
  }

  /** A bracket-free text that starts in redacted text was there before. */
  lemma {:induction false} FoundBefore(text: string, rest: string, secret: string, marker: string, w: string, p: nat)
    returns (q: nat)
    requires Redactable(secret, marker) && Redactable(w, marker)
    requires p < |Redact(text, secret, marker)| && OccursAt(Redact(text, secret, marker) + rest, w, p)
    ensures OccursAt(text + rest, w, q) && SamePlace(text, Redact(text, secret, marker), w, p, q)
    decreases |text|, 1
  {
    assert secret != "";
    hide Redact, Redactable, OccursAt, SamePlace;
    if |text| < |secret| {
      RedactShort(text, secret, marker);
      q := p;
      SelfPlace(text, w, p);
    } else if secret <= text {
      var text' := text[|secret|..];
      assert text == secret + text';
      Redacted(text', secret, marker);
      q := FoundBehind(secret, text', marker, rest, secret, marker, w, p);
    } else if p == 0 {
      q := 0;
      FoundAtStart(text, rest, secret, marker, w);
    } else {
      var text' := text[1..];
      assert text == [text[0]] + text';
      RedactStep(text[0], text', secret, marker);
      q := FoundBehind([text[0]], text', [text[0]], rest, secret, marker, w, p);
    }
  }

  lemma SelfPlace(text: string, w: string, p: nat)
    requires p < |text|
    ensures SamePlace(text, text, w, p, p)
  {
  }

  /** The front part is copied or is a marker; the word starts behind it. */
  lemma FoundBehind(a: string, text: string, b: string, rest: string, secret: string, marker: string, w: string, p: nat)
    returns (q: nat)
    requires Redactable(secret, marker) && Redactable(w, marker) && a != "" && (b == marker || (|b| == 1 && p > 0))
    requires p < |b + Redact(text, secret, marker)| && OccursAt((b + Redact(text, secret, marker)) + rest, w, p)
    ensures OccursAt((a + text) + rest, w, q) && SamePlace(a + text, b + Redact(text, secret, marker), w, p, q)
    decreases |a + text|, 0
  {
    assert secret != "";
    hide Redact, Redactable, OccursAt, SamePlace;
    var done := Redact(text, secret, marker);
    if b == marker {
      BehindMarker(marker, done, rest, w, p);
    }
    ShiftOccurs(b, done, rest, w, p - |b|);
    q := FoundBefore(text, rest, secret, marker, w, p - |b|);
    ShiftOccurs(a, text, rest, w, q);
    SamePlaceBehind(a, text, b, done, w, p - |b|, q);
    q := |a| + q;
  }

  lemma RedactShort(text: string, secret: string, marker: string)
    requires |text| < |secret|
    ensures Redact(text, secret, marker) == text
  {
  }

  lemma RedactStep(c: char, rest: string, secret: string, marker: string)
    requires secret != "" && !(secret <= [c] + rest)
    ensures Redact([c] + rest, secret, marker) == [c] + Redact(rest, secret, marker)
  {
    ReplaceStep(c, rest, secret, marker);
  }

  lemma Redacted(rest: string, secret: string, marker: string)
    requires secret != ""
    ensures Redact(secret + rest, secret, marker) == marker + Redact(rest, secret, marker)
  {
    assert secret <= secret + rest && (secret + rest)[|secret|..] == rest;
  }

  lemma ShiftOccurs(front: string, text: string, rest: string, w: string, i: nat)
    ensures OccursAt((front + text) + rest, w, |front| + i) <==> OccursAt(text + rest, w, i)
  {
    Regroup(front, text, rest);
    var all := text + rest;
    assert i + |w| <= |all| ==> (front + all)[|front| + i..|front| + i + |w|] == all[i..i + |w|];
  }

  lemma BehindMarker(marker: string, done: string, rest: string, w: string, p: nat)
    requires Redactable(w, marker) && OccursAt((marker + done) + rest, w, p)
    ensures p >= |marker| && OccursAt(done + rest, w, p - |marker|)
  {
    Regroup(marker, done, rest);
    hide OccursAt, Redactable;
    if p < |marker| {
      NoneInMarker(marker, done + rest, w, p);
    }
    ShiftOccurs(marker, done, rest, w, p - |marker|);
  }

  lemma FoundAtStart(text: string, rest: string, secret: string, marker: string, w: string)
    requires Redactable(secret, marker) && Redactable(w, marker)
    requires OccursAt(Redact(text, secret, marker) + rest, w, 0) && Redact(text, secret, marker) != ""
    ensures OccursAt(text + rest, w, 0) && SamePlace(text, Redact(text, secret, marker), w, 0, 0)
  {
    var done := Redact(text, secret, marker);
    PrefixOccurs(done + rest, w);
    PrefixOccurs(text + rest, w);
    StartsUnredacted(text, rest, w, secret, marker);
    hide OccursAt;
    if |w| <= |done| {
      assert w <= done + "" && text + "" == text;
      StartsUnredacted(text, "", w, secret, marker);
    } else {
      assert done == w[..|done|];
      assert forall c | c in done :: c in w;
      WithoutBracket(text, secret, marker);
    }
  }

  /** The same for several secrets. */
  lemma {:induction false} FoundBeforeAll(text: string, rest: string, secrets: seq<Secret>, w: string, p: nat)
    returns (q: nat)
    requires Proper(secrets) && forall s | s in secrets :: Redactable(w, s.marker)
    requires p < |RedactAll(text, secrets)| && OccursAt(RedactAll(text, secrets) + rest, w, p)
    ensures OccursAt(text + rest, w, q) && SamePlace(text, RedactAll(text, secrets), w, p, q)
    decreases |secrets|
  {
    hide Redact, Redactable, OccursAt;
    q := p;
    if secrets != [] {
      var s := secrets[0];
      RedactFirst(text, secrets);
      ProperRest(secrets);
      var text' := Redact(text, s.value, s.marker);
      q := FoundBeforeAll(text', rest, secrets[1..], w, p);
      assert s in secrets;
      q := FoundBefore(text, rest, s.value, s.marker, w, q);
    }
  }

  /** No occurrence starts in the front part. */
  ghost predicate Untouched(front: string, rest: string, w: string) {
    forall i | 0 <= i < |front| :: !OccursAt(front + rest, w, i)
  }

  lemma NotFound(text: string, rest: string, secrets: seq<Secret>, w: string)
    requires Proper(secrets) && forall s | s in secrets :: Redactable(w, s.marker)
    requires Untouched(text, rest, w)
    ensures Untouched(RedactAll(text, secrets), rest, w)
  {
    hide Redactable, OccursAt;
    forall p | 0 <= p < |RedactAll(text, secrets)|
      ensures !OccursAt(RedactAll(text, secrets) + rest, w, p)
    {
      if OccursAt(RedactAll(text, secrets) + rest, w, p) {
        var q := FoundBeforeAll(text, rest, secrets, w, p);
      }
    }
  }

  ghost predicate HoldsNone(text: string, secrets: seq<Secret>) {
    forall s | s in secrets :: !Contains(text, s.value)
  }

  lemma NoOccurrences(text: string, w: string)
    requires !Contains(text, w)
    ensures forall i: nat :: !OccursAt(text, w, i)
  {
    forall i: nat
      ensures !OccursAt(text, w, i)
    {
      if OccursAt(text, w, i) {
        ContainsAt(text, w, i);
      }
    }
  }

  lemma StaysOut(text: string, secrets: seq<Secret>, w: string)
    requires Proper(secrets) && w != "" && (forall s | s in secrets :: Redactable(w, s.marker)) && !Contains(text, w)
    ensures !Contains(RedactAll(text, secrets), w)
  {
    var done := RedactAll(text, secrets);
    assert text + "" == text && done + "" == done;
    NoOccurrences(text, w);
    NotFound(text, "", secrets, w);
    hide RedactAll;
    forall p | 0 <= p <= |done|
      ensures !OccursAt(done, w, p)
    {
    }
  }

  /** Redacted text holds none of the secrets. */
  lemma {:induction false} NothingLeftAll(text: string, secrets: seq<Secret>)
    requires Proper(secrets)
    ensures HoldsNone(RedactAll(text, secrets), secrets)
    decreases |secrets|
  {
    hide Redact, Redactable, Contains;
    if secrets != [] {
      var s, rest := secrets[0], secrets[1..];
      RedactFirst(text, secrets);
      ProperRest(secrets);
      var text' := Redact(text, s.value, s.marker);
      NothingLeftAll(text', rest);
      NothingLeft(text, s.value, s.marker);
      assert forall x | x in rest :: Redactable(s.value, x.marker);
      StaysOut(text', rest, s.value);
      assert secrets == [s] + rest;
    }
  }

  lemma RedactNone(text: string, secret: string, marker: string)
    requires secret != "" && !Contains(text, secret)
    ensures Redact(text, secret, marker) == text
  {
    NoOccurrences(text, secret);
    assert text + "" == text;
    SkipPrefix(text, "", secret, marker);
    ReplaceNothing("", secret, marker);
  }

  lemma {:induction false} RedactNoneAll(text: string, secrets: seq<Secret>)
    requires Proper(secrets) && HoldsNone(text, secrets)
    ensures RedactAll(text, secrets) == text
    decreases |secrets|
  {
    hide Redact, Redactable, Contains;
    if secrets != [] {
      RedactFirst(text, secrets);
      ProperRest(secrets);
      assert secrets[0] in secrets;
      RedactNone(text, secrets[0].value, secrets[0].marker);
      RedactNoneAll(text, secrets[1..]);
    }
  }

  // ---------- Text in front that no secret reaches into ----------

  /** No secret starts in the front part. */
  ghost predicate AllUntouched(front: string, rest: string, secrets: seq<Secret>) {
    forall s | s in secrets :: Untouched(front, rest, s.value)
  }

  lemma StillUntouched(front: string, rest: string, secret: string, marker: string, w: string)
    requires Redactable(secret, marker) && Redactable(w, marker) && Untouched(front, rest, w)
    ensures Untouched(front, Redact(rest, secret, marker), w)
  {
    var rest' := Redact(rest, secret, marker);
    hide Redact;
    forall i | 0 <= i < |front|
      ensures !OccursAt(front + rest', w, i)
    {
      if OccursAt(front + rest', w, i) {
        RunsOver(front, rest, secret, marker, w, i);
      }
    }
  }

  lemma RunsOver(front: string, rest: string, secret: string, marker: string, w: string, i: nat)
    requires Redactable(secret, marker) && Redactable(w, marker) && i < |front|
    requires OccursAt(front + Redact(rest, secret, marker), w, i)
    ensures OccursAt(front + rest, w, i)
  {
    var rest' := Redact(rest, secret, marker);
    hide Redact;
    if i + |w| <= |front| {
      assert (front + rest')[i..i + |w|] == front[i..i + |w|] == (front + rest)[i..i + |w|];
    } else {
      var start := w[|front| - i..];
      SplitWord(front, rest', w, i);
      assert rest' + "" == rest' && rest + "" == rest;
      assert forall c | c in start :: c in w;
      StartsUnredacted(rest, "", start, secret, marker);
      JoinWord(front, rest, w, i);
    }
  }

  lemma SplitWord(front: string, rest: string, w: string, i: nat)
    requires i < |front| < i + |w| && OccursAt(front + rest, w, i)
    ensures w[..|front| - i] == front[i..] && w[|front| - i..] <= rest
  {
    OccursChars(front + rest, w, i);
  }

  lemma JoinWord(front: string, rest: string, w: string, i: nat)
    requires i < |front| < i + |w| && w[..|front| - i] == front[i..] && w[|front| - i..] <= rest
    ensures OccursAt(front + rest, w, i)
  {
    assert (front + rest)[i..i + |w|] == front[i..] + rest[..|w| - (|front| - i)];
  }

  /** Such a part is copied. */
  lemma {:induction false} FrontStays(front: string, rest: string, secrets: seq<Secret>)
    requires Proper(secrets) && AllUntouched(front, rest, secrets)
    ensures RedactAll(front + rest, secrets) == front + RedactAll(rest, secrets)
    decreases |secrets|
  {
    hide Redact, Redactable, Untouched;
    if secrets != [] {
      var s := secrets[0];
      RedactFirst(front + rest, secrets);
      RedactFirst(rest, secrets);
      ProperRest(secrets);
      assert s in secrets;
      CopiedFront(front, rest, s.value, s.marker);
      var rest' := Redact(rest, s.value, s.marker);
      forall x | x in secrets[1..]
        ensures Untouched(front, rest', x.value)
      {
        StillUntouched(front, rest, s.value, s.marker, x.value);
      }
      FrontStays(front, rest', secrets[1..]);
    }
  }

  lemma CopiedFront(front: string, rest: string, secret: string, marker: string)
    requires secret != "" && Untouched(front, rest, secret)
    ensures Redact(front + rest, secret, marker) == front + Redact(rest, secret, marker)
  {
    SkipPrefix(front, rest, secret, marker);
  }

  // ---------- Secrets that cut into each other ----------

  /** The later secret lies in the earlier one and ends before it does. */
  predicate EndsInside(later: string, earlier: string) {
    earlier != "" && Contains(earlier[..|earlier| - 1], later)
  }

  /** Its last `m` characters are the first ones of the earlier secret, which goes on. */
  predicate OverlapsBy(later: string, earlier: string, m: nat) {
    1 <= m < |earlier| && m < |later| && later[|later| - m..] == earlier[..m]
  }

  /** In some text an occurrence of the later secret touches one of the earlier secret and ends
      before it: cut there, the later one is complete when the earlier one is not. */
  ghost predicate Cuts(later: string, earlier: string) {
    EndsInside(later, earlier) || exists m: nat :: OverlapsBy(later, earlier, m)
  }

  ghost predicate NoCuts(secrets: seq<Secret>) {
    forall i, j | 0 <= i < j < |secrets| :: !Cuts(secrets[j].value, secrets[i].value)
  }

  /** An occurrence that reaches into the start of the earlier secret cuts it. */
  lemma ReachCuts(front: string, earlier: string, n: nat, later: string, i: nat)
    requires 1 <= n < |earlier| && later != "" && OccursAt(front + earlier[..n], later, i)
    ensures i + |later| <= |front| || Cuts(later, earlier)
  {
    var text := front + earlier[..n];
    if i + |later| > |front| {
      assert text[i..i + |later|] == later;
      if i >= |front| {
        var k := i - |front|;
        assert earlier[..|earlier| - 1][k..k + |later|] == later;
        ContainsAt(earlier[..|earlier| - 1], later, k);
      } else {
        var m := i + |later| - |front|;
        assert later[|later| - m..] == text[|front|..|front| + m] == earlier[..m];
        assert OverlapsBy(later, earlier, m);
      }
    }
  }

  /** Text behind the last occurrence is copied. */
  lemma {:induction false} TailStays(front: string, tail: string, secret: string, marker: string)
    requires secret != "" && forall i: nat | OccursAt(front + tail, secret, i) :: i + |secret| <= |front|
    ensures Redact(front + tail, secret, marker) == Redact(front, secret, marker) + tail
    decreases |front|
  {
    var text := front + tail;
    if front == "" {
      assert text == tail && Redact("", secret, marker) + tail == tail;
      assert forall i: nat :: !OccursAt(tail, secret, i);
      RedactNone(tail, secret, marker);
    } else if secret <= text {
      PrefixOccurs(text, secret);
      var front' := front[|secret|..];
      assert front == secret + front';
      Regroup(secret, front', tail);
      forall i: nat | OccursAt(front' + tail, secret, i)
        ensures i + |secret| <= |front'|
      {
        ShiftOccurs(secret, front', tail, secret, i);
        assert OccursAt(text, secret, |secret| + i);
      }
      TailStays(front', tail, secret, marker);
      Redacted(front', secret, marker);
      Redacted(front' + tail, secret, marker);
      hide Redact;
      Regroup(marker, Redact(front', secret, marker), tail);
    } else {
      var front' := front[1..];
      assert front == [front[0]] + front';
      Regroup([front[0]], front', tail);
      forall i: nat | OccursAt(front' + tail, secret, i)
        ensures i + |secret| <= |front'|
      {
        ShiftOccurs([front[0]], front', tail, secret, i);
        assert OccursAt(text, secret, 1 + i);
      }
      TailStays(front', tail, secret, marker);
      assert secret <= front ==> secret <= text;
      ReplaceStep(front[0], front', secret, marker);
      ReplaceStep(front[0], front' + tail, secret, marker);
      hide Redact;
      Regroup([front[0]], Redact(front', secret, marker), tail);
    }
  }

  /** The start of an earlier secret at the end of a text is out of the later ones' reach. */
  lemma {:induction false} StartStays(front: string, earlier: string, n: nat, secrets: seq<Secret>)
    requires Proper(secrets) && 1 <= n < |earlier| && forall s | s in secrets :: !Cuts(s.value, earlier)
    ensures RedactAll(front + earlier[..n], secrets) == RedactAll(front, secrets) + earlier[..n]
    decreases |secrets|
  {
    hide Redact, Redactable, Cuts, OccursAt;
    if secrets != [] {
      var s := secrets[0];
      RedactFirst(front + earlier[..n], secrets);
      RedactFirst(front, secrets);
      ProperRest(secrets);
      assert s in secrets;
      forall i: nat | OccursAt(front + earlier[..n], s.value, i)
        ensures i + |s.value| <= |front|
      {
        ReachCuts(front, earlier, n, s.value, i);
      }
      TailStays(front, earlier[..n], s.value, s.marker);
      StartStays(Redact(front, s.value, s.marker), earlier, n, secrets[1..]);
    }
  }

  /** Redacting a part first makes no difference to redacting the whole, for secrets that do not
      cut into each other. */
  lemma {:induction false} RedactAllPart(text: string, rest: string, secrets: seq<Secret>)
    requires Proper(secrets) && NoCuts(secrets)
    ensures RedactAll(RedactAll(text, secrets) + rest, secrets) == RedactAll(text + rest, secrets)
    decreases |secrets|, 0
  {
    hide Redact, Redactable, Cuts;
    if secrets != [] {
      var s, later := secrets[0], secrets[1..];
      ProperRest(secrets);
      Nonempty(s);
      var clean := Redact(text, s.value, s.marker);
      RedactFirst(text, secrets);
      RedactFirst(text + rest, secrets);
      RedactFirst(RedactAll(text, secrets) + rest, secrets);
      RedactPart(text, rest, s.value, s.marker);
      NothingLeft(text, s.value, s.marker);
      LaterDoNotCut(secrets);
      AfterFirst(clean, rest, secrets);
    }
  }

  lemma LaterDoNotCut(secrets: seq<Secret>)
    requires NoCuts(secrets) && secrets != []
    ensures NoCuts(secrets[1..]) && forall x | x in secrets[1..] :: !Cuts(x.value, secrets[0].value)
  {
    hide Cuts;
    forall x | x in secrets[1..]
      ensures !Cuts(x.value, secrets[0].value)
    {
      var j :| 0 <= j < |secrets[1..]| && secrets[1..][j] == x;
      assert secrets[j + 1] == x;
    }
  }

  /** Text clean of the first secret, redacted for the later ones, with more text behind it. */
  lemma AfterFirst(clean: string, rest: string, secrets: seq<Secret>)
    requires Proper(secrets) && secrets != [] && Proper(secrets[1..]) && NoCuts(secrets[1..])
    requires !Contains(clean, secrets[0].value) && forall x | x in secrets[1..] :: !Cuts(x.value, secrets[0].value)
    ensures var s, later := secrets[0], secrets[1..];
            s.value != "" && RedactAll(Redact(RedactAll(clean, later) + rest, s.value, s.marker), later)
                          == RedactAll(Redact(clean + rest, s.value, s.marker), later)
    decreases |secrets| - 1, 2
  {
    hide Redact, Redactable, Cuts, RedactAll;
    var s, later := secrets[0], secrets[1..];
    ProperRest(secrets);
    Nonempty(s);
    assert forall x | x in later :: Redactable(s.value, x.marker);
    var p := IndexFrom(clean + rest, s.value, 0);
    if p >= |clean| {
      assert Untouched(clean, rest, s.value);
      hide Untouched, OccursAt;
      NotFound(clean, rest, later, s.value);
      CopiedFront(clean, rest, s.value, s.marker);
      CopiedFront(RedactAll(clean, later), rest, s.value, s.marker);
      RedactAllPart(clean, Redact(rest, s.value, s.marker), later);
    } else {
      var behind := SplitOver(clean, rest, s.value, p);
      assert Untouched(clean[..p], s.value + behind, s.value);
      OverBoundary(clean[..p], |clean| - p, rest, behind, secrets);
    }
  }

  lemma Nonempty(s: Secret)
    requires Redactable(s.value, s.marker)
    ensures s.value != ""
  {
  }

  /** The first secret starts in the clean text and ends behind it. */
  lemma OverBoundary(front: string, n: nat, rest: string, behind: string, secrets: seq<Secret>)
    requires Proper(secrets) && secrets != [] && Proper(secrets[1..]) && NoCuts(secrets[1..])
    requires forall x | x in secrets[1..] :: !Cuts(x.value, secrets[0].value)
    requires 1 <= n < |secrets[0].value| && secrets[0].value[..n] + rest == secrets[0].value + behind
    requires Untouched(front, secrets[0].value + behind, secrets[0].value)
    ensures var s, later := secrets[0], secrets[1..];
            RedactAll(Redact(RedactAll(front + s.value[..n], later) + rest, s.value, s.marker), later)
            == RedactAll(Redact((front + s.value[..n]) + rest, s.value, s.marker), later)
    decreases |secrets| - 1, 1
  {
    hide Redact, Redactable, Cuts, RedactAll, OccursAt, Untouched, NoCuts;
    var s, later := secrets[0], secrets[1..];
    LaterMarkers(secrets);
    StartStays(front, s.value, n, later);
    NotFound(front, s.value + behind, later, s.value);
    var front' := RedactAll(front, later);
    Regroup(front, s.value[..n], rest);
    Regroup(front', s.value[..n], rest);
    ReplacedAt(front, behind, s);
    ReplacedAt(front', behind, s);
    RedactAllPart(front, s.marker + Redact(behind, s.value, s.marker), later);
  }

  lemma LaterMarkers(secrets: seq<Secret>)
    requires Proper(secrets) && secrets != []
    ensures forall x | x in secrets[1..] :: Redactable(secrets[0].value, x.marker)
  {
    ProperRest(secrets);
  }

  lemma ReplacedAt(front: string, behind: string, s: Secret)
    requires s.value != "" && Untouched(front, s.value + behind, s.value)
    ensures Redact(front + (s.value + behind), s.value, s.marker)
         == front + (s.marker + Redact(behind, s.value, s.marker))
  {
    hide Redact, Untouched;
    CopiedFront(front, s.value + behind, s.value, s.marker);
    Redacted(behind, s.value, s.marker);
  }

  lemma SplitOver(clean: string, rest: string, w: string, p: nat) returns (behind: string)
    requires p < |clean| && OccursAt(clean + rest, w, p) && !Contains(clean, w)
    ensures var n := |clean| - p;
            && 1 <= n < |w| && clean == clean[..p] + w[..n]
            && w[..n] + rest == w + behind
            && clean + rest == clean[..p] + (w + behind)
  {
    var n := |clean| - p;
    if p + |w| <= |clean| {
      assert clean[p..p + |w|] == (clean + rest)[p..p + |w|];
      ContainsAt(clean, w, p);
    }
    behind := (clean + rest)[p + |w|..];
    OccursChars(clean + rest, w, p);
    assert w[..n] == clean[p..];
    assert (clean + rest)[p..] == w + behind;
    assert (clean + rest)[p..] == clean[p..] + rest;
  }
}
