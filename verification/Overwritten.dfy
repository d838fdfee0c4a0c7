/** pkg/sanitizer/sanitizer.go: findings that share a placeholder, as IBANs do, among any other
    findings.  The map keeps the last original for each placeholder, so all that share it come
    back as the last. */
module Overwritten {
  import opened Strings
  import opened Sanitizing
  import opened RoundTrip

  /** The finding records its value and takes it out of the text. */
  ghost predicate Replaces(s: Sanitized, f: Finding) {
    Applies(s, f) && Spot(s, f) <= |s.text|
  }

  /** What the final map holds for a placeholder is what every finding replaced with it. */
  ghost predicate AllKept(input: string, findings: seq<Finding>) {
    forall i | 0 <= i < |findings| && Replaces(Before(input, findings, i), findings[i]) ::
      KeptIn(ApplyAll(input, findings).mapping, findings[i])
  }

  predicate KeptIn(mapping: map<string, string>, f: Finding) {
    PlaceholderOf(f) in mapping && mapping[PlaceholderOf(f)] == f.value
  }

  predicate ProperFindings(findings: seq<Finding>) {
    forall i | 0 <= i < |findings| :: IsPlaceholder(PlaceholderOf(findings[i])) && BracketFree(findings[i].value)
  }

  // ---------- What comes back ----------

  /** The document with each hole filled with what the map holds for it. */
  function Filled(d: Doc, mapping: map<string, string>): string
    requires Keys(d) <= mapping.Keys
  {
    match d
    case End(t) => t
    case Hole(b, k, _, r) => b + (mapping[k] + Filled(r, mapping))
  }

  /** The text between the holes holds no bracket. */
  predicate PlainBetween(d: Doc) {
    match d
    case End(t) => BracketFree(t)
    case Hole(b, _, _, r) => BracketFree(b) && PlainBetween(r)
  }

  lemma {:induction false} PlainParts(d: Doc)
    requires BracketFree(Original(d))
    ensures PlainBetween(d)
  {
    hide BracketFree;
    if d.Hole? {
      HoleParts(d);
      PlainParts(d.rest);
    }
  }

  lemma PlainSpellsNone(t: string, k: string)
    requires BracketFree(t) && IsPlaceholder(k)
    ensures !Contains(t, k)
  {
    assert k[0] == '[';
    NotContained(t, k, '[');
  }

  lemma PrependFilled(s: string, d: Doc, mapping: map<string, string>)
    requires BracketFree(s) && PlainBetween(d)
    ensures PlainBetween(Prepend(s, d)) && Keys(Prepend(s, d)) == Keys(d)
    ensures Keys(d) <= mapping.Keys ==> Filled(Prepend(s, d), mapping) == s + Filled(d, mapping)
  {
    if d.Hole? && Keys(d) <= mapping.Keys {
      Regroup(s, d.before, mapping[d.key] + Filled(d.rest, mapping));
    }
  }

  /** Filling one placeholder's holes leaves the rest to be filled. */
  lemma {:induction false} FillOne(d: Doc, key: string, mapping: map<string, string>)
    requires WellFormed(d) && PlainBetween(d) && Keys(d) <= mapping.Keys
    requires IsPlaceholder(key) && key in mapping && BracketFree(mapping[key]) && key != ""
    ensures var f := Fill(d, key, mapping[key]);
            && WellFormed(f) && PlainBetween(f) && Keys(f) == Keys(d) - {key}
            && Filled(f, mapping) == Filled(d, mapping)
  {
    hide ReplaceAll, Contains, IsPlaceholder, BracketFree;
    var v := mapping[key];
    match d
    case End(t) =>
      PlainSpellsNone(t, key);
      NoReplace(t, key, v);
    case Hole(b, k, o, r) =>
      PlainSpellsNone(b, key);
      NoReplace(b, key, v);
      FillOne(r, key, mapping);
      if k == key {
        var f := Fill(r, key, v);
        PlainJoin(b, v);
        PrependDoc(b + v, f);
        PrependFilled(b + v, f, mapping);
        Regroup(b, v, Filled(f, mapping));
      }
  }

  lemma PlainJoin(a: string, b: string)
    requires BracketFree(a) && BracketFree(b)
    ensures BracketFree(a + b)
  {
  }

  /** Every order fills every hole alike. */
  lemma {:induction false} WalkFills(d: Doc, mapping: map<string, string>, order: seq<string>)
    requires WellFormed(d) && PlainBetween(d) && Keys(d) <= mapping.Keys
    requires forall k | k in order :: k in mapping && k != "" && IsPlaceholder(k) && BracketFree(mapping[k])
    requires forall k | k in Keys(d) :: k in order
    ensures RehydrateIn(Render(d), mapping, order) == Filled(d, mapping)
    decreases |order|
  {
    hide IsPlaceholder, BracketFree, ReplaceAll;
    if order == [] {
      NoHolesFilled(d, mapping);
    } else {
      var key := order[0];
      ReplaceFills(d, key, mapping[key]);
      FillOne(d, key, mapping);
      assert order == [key] + order[1..];
      assert forall k | k in order[1..] :: k in order;
      hide WellFormed, PlainBetween, Keys, Fill, Filled, Render;
      WalkFills(Fill(d, key, mapping[key]), mapping, order[1..]);
    }
  }

  lemma NoHolesFilled(d: Doc, mapping: map<string, string>)
    requires Keys(d) <= mapping.Keys
    ensures Keys(d) <= {} ==> Render(d) == Filled(d, mapping)
  {
    if d.Hole? {
      assert d.key in Keys(d);
    }
  }

  // ---------- The document, whatever the map keeps ----------

  /** The text is the document's, and the map knows every hole's placeholder. */
  ghost predicate Shapes(d: Doc, input: string, s: Sanitized) {
    WellFormed(d) && Render(d) == s.text && Original(d) == input && Keys(d) <= s.mapping.Keys
  }

  lemma {:induction false} CutKeys(d: Doc, i: nat, n: nat, key: string)
    requires i + n <= |Render(d)|
    ensures Keys(Cut(d, i, n, key)) <= Keys(d) + {key}
  {
    if d.Hole? && i + n > |d.before| && i >= |d.before| + |d.key| {
      CutKeys(d.rest, i - |d.before| - |d.key|, n, key);
    }
  }

  lemma ApplyShapes(d: Doc, input: string, s: Sanitized, f: Finding)
    requires Shapes(d, input, s) && Clear(s, f) && IsPlaceholder(PlaceholderOf(f))
    ensures Shapes(ApplyDoc(d, s, f), input, Apply(s, f))
    ensures if Replaces(s, f) then
              && Free(d, Spot(s, f), f.value) && Spot(s, f) + |f.value| <= |Render(d)|
              && ApplyDoc(d, s, f) == Cut(d, Spot(s, f), |f.value|, PlaceholderOf(f))
            else ApplyDoc(d, s, f) == d
  {
    hide Cut, WellFormed, Render, Original, Keys, Apart, Applies, IsPlaceholder;
    var key, i := PlaceholderOf(f), Spot(s, f);
    if Replaces(s, f) {
      assert Free(d, i, f.value);
      CutDoc(d, i, f.value, key);
      CutKeys(d, i, |f.value|, key);
    }
  }

  lemma FirstClear(input: string, findings: seq<Finding>, m: nat)
    requires AllClear(input, findings) && ProperFindings(findings) && m <= |findings|
    ensures AllClear(input, findings[..m]) && ProperFindings(findings[..m])
  {
    hide Clear;
    forall i | 0 <= i < m
      ensures Clear(ApplyAll(input, findings[..m][..i]), findings[..m][i])
    {
      assert findings[..m][..i] == findings[..i];
    }
  }

  lemma {:induction false} SanitizedShapes(input: string, findings: seq<Finding>)
    requires AllClear(input, findings) && ProperFindings(findings)
    ensures Shapes(DocOf(input, findings), input, ApplyAll(input, findings))
  {
    hide Clear, Shapes, Apply, ApplyDoc, IsPlaceholder, BracketFree;
    if findings == [] {
      assert Shapes(End(input), input, Sanitized(input, map[])) by {
        PlainShapes(input);
      }
    } else {
      var n := |findings| - 1;
      FirstClear(input, findings, n);
      SanitizedShapes(input, findings[..n]);
      ApplyShapes(DocOf(input, findings[..n]), input, ApplyAll(input, findings[..n]), findings[n]);
    }
  }

  lemma PlainShapes(input: string)
    ensures Shapes(End(input), input, Sanitized(input, map[]))
  {
  }

  /** The step from one document to the next. */
  lemma NextDoc(input: string, findings: seq<Finding>, m: nat)
    requires AllClear(input, findings) && ProperFindings(findings) && m < |findings|
    ensures var d, s, f := DocOf(input, findings[..m]), Before(input, findings, m), findings[m];
            if Replaces(s, f) then
              && Free(d, Spot(s, f), f.value) && Spot(s, f) + |f.value| <= |Render(d)|
              && DocOf(input, findings[..m + 1]) == Cut(d, Spot(s, f), |f.value|, PlaceholderOf(f))
            else DocOf(input, findings[..m + 1]) == d
  {
    hide Clear, Shapes, Apply, ApplyDoc, IsPlaceholder, BracketFree, Replaces, Free;
    FirstClear(input, findings, m);
    SanitizedShapes(input, findings[..m]);
    ApplyShapes(DocOf(input, findings[..m]), input, Before(input, findings, m), findings[m]);
    assert findings[..m + 1][..m] == findings[..m];
  }

  // ---------- Which originals a map holds ----------

  /** A new hole is recorded exactly when the others are and the map holds its piece. */
  lemma {:induction false} CutRecordedIff(d: Doc, i: nat, piece: string, key: string, mapping: map<string, string>)
    requires Free(d, i, piece)
    ensures i + |piece| <= |Render(d)|
    ensures Recorded(Cut(d, i, |piece|, key), mapping)
       <==> Recorded(d, mapping) && key in mapping && mapping[key] == piece
  {
    hide Free;
    FreeFits(d, i, piece);
    match d
    case End(t) =>
    case Hole(b, k, o, r) =>
      PieceFits(d, i, piece);
      if i + |piece| <= |b| {
        assert b[i..i + |piece|] == Render(d)[i..i + |piece|];
      } else {
        BehindHole(d, i, piece);
        CutRecordedIff(r, i - |b| - |k|, piece, key, mapping);
      }
  }

  lemma {:induction false} RecordedIff(input: string, findings: seq<Finding>, m: nat, mapping: map<string, string>)
    requires AllClear(input, findings) && ProperFindings(findings) && m <= |findings|
    ensures Recorded(DocOf(input, findings[..m]), mapping)
       <==> forall i | 0 <= i < m && Replaces(Before(input, findings, i), findings[i]) :: KeptIn(mapping, findings[i])
  {
    hide AllClear, ProperFindings, Replaces, KeptIn, Free, Cut, Before;
    if m == 0 {
      assert findings[..0] == [];
    } else {
      RecordedIff(input, findings, m - 1, mapping);
      NextDoc(input, findings, m - 1);
      var d, s, f := DocOf(input, findings[..m - 1]), Before(input, findings, m - 1), findings[m - 1];
      hide DocOf, Recorded;
      if Replaces(s, f) {
        CutRecordedIff(d, Spot(s, f), f.value, PlaceholderOf(f), mapping);
        assert KeptIn(mapping, f) <==> PlaceholderOf(f) in mapping && mapping[PlaceholderOf(f)] == f.value by {
          KeptMeans(mapping, f);
        }
      }
    }
  }

  lemma KeptMeans(mapping: map<string, string>, f: Finding)
    ensures KeptIn(mapping, f) <==> PlaceholderOf(f) in mapping && mapping[PlaceholderOf(f)] == f.value
  {
  }

  // ---------- How long it is ----------

  /** By how much the filled text is longer than the original. */
  function Excess(d: Doc, mapping: map<string, string>): int
    requires Keys(d) <= mapping.Keys
  {
    match d
    case End(_) => 0
    case Hole(_, k, o, r) => |mapping[k]| - |o| + Excess(r, mapping)
  }

  lemma {:induction false} FilledLength(d: Doc, mapping: map<string, string>)
    requires Keys(d) <= mapping.Keys
    ensures |Filled(d, mapping)| == |Original(d)| + Excess(d, mapping)
  {
    if d.Hole? {
      FilledLength(d.rest, mapping);
    }
  }

  lemma {:induction false} CutExcess(d: Doc, i: nat, piece: string, key: string, mapping: map<string, string>)
    requires Free(d, i, piece) && Keys(d) <= mapping.Keys && key in mapping
    ensures i + |piece| <= |Render(d)| && Keys(Cut(d, i, |piece|, key)) <= mapping.Keys
    ensures Excess(Cut(d, i, |piece|, key), mapping) == Excess(d, mapping) + |mapping[key]| - |piece|
  {
    hide Free;
    FreeFits(d, i, piece);
    CutKeys(d, i, |piece|, key);
    match d
    case End(t) =>
    case Hole(b, k, o, r) =>
      PieceFits(d, i, piece);
      if i + |piece| > |b| {
        BehindHole(d, i, piece);
        CutExcess(r, i - |b| - |k|, piece, key, mapping);
      }
  }

  /** Every hole is as long as what the map holds for it. */
  predicate SameLengths(d: Doc, mapping: map<string, string>)
    requires Keys(d) <= mapping.Keys
  {
    d.Hole? ==> |d.original| == |mapping[d.key]| && SameLengths(d.rest, mapping)
  }

  lemma {:induction false} CutSameLengths(d: Doc, i: nat, piece: string, key: string, mapping: map<string, string>)
    requires Free(d, i, piece) && Keys(d) <= mapping.Keys && key in mapping
    requires SameLengths(d, mapping) && |mapping[key]| == |piece|
    ensures i + |piece| <= |Render(d)| && Keys(Cut(d, i, |piece|, key)) <= mapping.Keys
    ensures SameLengths(Cut(d, i, |piece|, key), mapping)
  {
    hide Free;
    FreeFits(d, i, piece);
    CutKeys(d, i, |piece|, key);
    match d
    case End(t) =>
    case Hole(b, k, o, r) =>
      PieceFits(d, i, piece);
      if i + |piece| > |b| {
        BehindHole(d, i, piece);
        CutSameLengths(r, i - |b| - |k|, piece, key, mapping);
      }
  }

  /** Then the filled text is the original exactly when every hole is recorded. */
  lemma {:induction false} FilledIff(d: Doc, mapping: map<string, string>)
    requires Keys(d) <= mapping.Keys && SameLengths(d, mapping)
    ensures |Filled(d, mapping)| == |Original(d)|
    ensures Filled(d, mapping) == Original(d) <==> Recorded(d, mapping)
  {
    if d.Hole? {
      FilledIff(d.rest, mapping);
      SameFront(d.before, mapping[d.key], Filled(d.rest, mapping), d.original, Original(d.rest));
    }
  }

  lemma SameFront(b: string, v: string, x: string, o: string, y: string)
    requires |v| == |o|
    ensures b + (v + x) == b + (o + y) <==> v == o && x == y
  {
    if b + (v + x) == b + (o + y) {
      assert v + x == (b + (v + x))[|b|..] && o + y == (b + (o + y))[|b|..];
      assert v == (v + x)[..|v|] && o == (o + y)[..|o|];
      assert x == (v + x)[|v|..] && y == (o + y)[|o|..];
    }
  }

  // ---------- Exactly when ----------

  /** What every order makes of the sanitized text. */
  lemma AlwaysFilled(input: string, findings: seq<Finding>)
    requires BracketFree(input) && AllClear(input, findings) && ProperFindings(findings)
    ensures Keys(DocOf(input, findings)) <= ApplyAll(input, findings).mapping.Keys
    ensures Original(DocOf(input, findings)) == input
    ensures AlwaysRestores(input, findings)
       <==> Filled(DocOf(input, findings), ApplyAll(input, findings).mapping) == input
  {
    hide AllClear, IsPlaceholder, BracketFree, Restored;
    var d, s := DocOf(input, findings), ApplyAll(input, findings);
    SanitizedShapes(input, findings);
    PlainParts(d);
    NoEmptyKey(input, findings);
    Ends(input, findings);
    forall k | k in s.mapping
      ensures IsPlaceholder(k) && BracketFree(s.mapping[k])
    {
      var i := Recorder(input, findings, |findings|, k);
    }
    hide ApplyAll, DocOf, WellFormed, PlainBetween, Keys, Filled, Original, Render, ProperFindings;
    forall order | IsIteration(order, s.mapping.Keys)
      ensures Restored(input, findings, order) == Filled(d, s.mapping)
    {
      WalkFills(d, s.mapping, order);
      RestoredMeans(input, findings, order);
    }
    var some := Listed(s.mapping.Keys);
  }

  lemma Listed(keys: set<string>) returns (order: seq<string>)
    ensures IsIteration(order, keys)
    decreases |keys|
  {
    order := [];
    if keys != {} {
      var k :| k in keys;
      var rest := Listed(keys - {k});
      FirstKey(k, rest, keys - {k});
      assert keys == (keys - {k}) + {k};
      order := [k] + rest;
    }
  }

  /** What the map holds was recorded by the last finding with that placeholder that was applied. */
  lemma {:induction false} Recorder(input: string, findings: seq<Finding>, m: nat, k: string) returns (i: nat)
    requires m <= |findings| && k in Before(input, findings, m).mapping
    ensures i < m && PlaceholderOf(findings[i]) == k && Applies(Before(input, findings, i), findings[i])
    ensures Before(input, findings, m).mapping[k] == findings[i].value
    ensures forall j | i < j < m && Applies(Before(input, findings, j), findings[j]) :: PlaceholderOf(findings[j]) != k
  {
    hide Applies, Placeholder, ReplaceFirst, ApplyAll;
    i := 0;
    Ends(input, findings);
    if m > 0 {
      NextState(input, findings, m - 1);
      if Applies(Before(input, findings, m - 1), findings[m - 1]) && PlaceholderOf(findings[m - 1]) == k {
        i := m - 1;
      } else {
        i := Recorder(input, findings, m - 1, k);
      }
    }
  }

  lemma {:induction false} KeyStays(input: string, findings: seq<Finding>, m: nat, i: nat)
    requires i < m <= |findings| && Applies(Before(input, findings, i), findings[i])
    ensures PlaceholderOf(findings[i]) in Before(input, findings, m).mapping
  {
    hide Applies, Placeholder, ReplaceFirst, ApplyAll;
    NextState(input, findings, m - 1);
    if i < m - 1 {
      KeyStays(input, findings, m - 1, i);
    }
  }

  /** Findings that share a placeholder have values of one length. */
  predicate SharedLengths(findings: seq<Finding>) {
    forall i, j |
      && 0 <= i < |findings| && 0 <= j < |findings|
      && PlaceholderOf(findings[i]) == PlaceholderOf(findings[j]) ::
      |findings[i].value| == |findings[j].value|
  }

  lemma {:induction false} LengthsStay(input: string, findings: seq<Finding>, m: nat)
    requires AllClear(input, findings) && ProperFindings(findings) && SharedLengths(findings) && m <= |findings|
    ensures Keys(DocOf(input, findings[..m])) <= ApplyAll(input, findings).mapping.Keys
    ensures SameLengths(DocOf(input, findings[..m]), ApplyAll(input, findings).mapping)
  {
    hide AllClear, ProperFindings, Applies, Free, Cut, Before, ApplyAll, Placeholder;
    var mapping := ApplyAll(input, findings).mapping;
    if m == 0 {
      assert findings[..0] == [];
    } else {
      LengthsStay(input, findings, m - 1);
      NextDoc(input, findings, m - 1);
      var d, s, f := DocOf(input, findings[..m - 1]), Before(input, findings, m - 1), findings[m - 1];
      hide DocOf, SameLengths, Keys;
      if Replaces(s, f) {
        Ends(input, findings);
        KeyStays(input, findings, |findings|, m - 1);
        var i := Recorder(input, findings, |findings|, PlaceholderOf(f));
        CutSameLengths(d, Spot(s, f), f.value, PlaceholderOf(f), mapping);
      }
    }
  }

  /** Input without brackets, findings that may share placeholders, no replacement that hits an
      earlier one: when those that share have values of one length, the input comes back in
      every order exactly when no placeholder's original was overwritten by another. */
  lemma SharedIff(input: string, findings: seq<Finding>)
    requires BracketFree(input) && AllClear(input, findings) && ProperFindings(findings) && SharedLengths(findings)
    ensures AlwaysRestores(input, findings) <==> AllKept(input, findings)
  {
    hide AlwaysRestores, AllClear, ProperFindings, SharedLengths, BracketFree, Replaces, KeptIn;
    var n, d, mapping := |findings|, DocOf(input, findings), ApplyAll(input, findings).mapping;
    assert findings[..n] == findings;
    AlwaysFilled(input, findings);
    LengthsStay(input, findings, n);
    RecordedIff(input, findings, n, mapping);
    hide DocOf, ApplyAll, Recorded, SameLengths, Filled, Original;
    FilledIff(d, mapping);
  }

  /** Only these two share a placeholder. */
  predicate OnlyShare(findings: seq<Finding>, i: nat, j: nat) {
    forall a, b | 0 <= a < b < |findings| && PlaceholderOf(findings[a]) == PlaceholderOf(findings[b]) ::
      a == i && b == j
  }

  /** The map holds the second value of the two, and every other finding's own. */
  lemma FinalValue(input: string, findings: seq<Finding>, i: nat, j: nat, a: nat)
    requires i < j < |findings| && PlaceholderOf(findings[i]) == PlaceholderOf(findings[j]) && OnlyShare(findings, i, j)
    requires Applies(Before(input, findings, j), findings[j])
    requires a < |findings| && Applies(Before(input, findings, a), findings[a])
    ensures var k, mapping := PlaceholderOf(findings[a]), ApplyAll(input, findings).mapping;
            k in mapping && mapping[k] == findings[if a == i then j else a].value
  {
    hide Applies, Placeholder, ApplyAll, Before;
    Ends(input, findings);
    KeyStays(input, findings, |findings|, a);
    var b := Recorder(input, findings, |findings|, PlaceholderOf(findings[a]));
    assert a < b ==> a == i && b == j;
    assert b < a ==> b == i && a == j;
  }

  lemma {:induction false} TwoExcess(input: string, findings: seq<Finding>, i: nat, j: nat, m: nat)
    requires AllClear(input, findings) && ProperFindings(findings) && m <= |findings|
    requires i < j < |findings| && PlaceholderOf(findings[i]) == PlaceholderOf(findings[j]) && OnlyShare(findings, i, j)
    requires Replaces(Before(input, findings, i), findings[i]) && Replaces(Before(input, findings, j), findings[j])
    ensures Keys(DocOf(input, findings[..m])) <= ApplyAll(input, findings).mapping.Keys
    ensures Excess(DocOf(input, findings[..m]), ApplyAll(input, findings).mapping)
         == if i < m then |findings[j].value| - |findings[i].value| else 0
  {
    hide AllClear, ProperFindings, OnlyShare, Applies, Free, Cut, Before, ApplyAll, Placeholder;
    var mapping := ApplyAll(input, findings).mapping;
    if m == 0 {
      assert findings[..0] == [];
    } else {
      TwoExcess(input, findings, i, j, m - 1);
      NextDoc(input, findings, m - 1);
      var d, s, f := DocOf(input, findings[..m - 1]), Before(input, findings, m - 1), findings[m - 1];
      hide DocOf, Excess, Keys;
      if Replaces(s, f) {
        FinalValue(input, findings, i, j, m - 1);
        CutExcess(d, Spot(s, f), f.value, PlaceholderOf(f), mapping);
      }
    }
  }

  /** Two findings that share a placeholder, such as two IBANs of any lengths, among others that
      do not: the input comes back exactly when the two values are the same. */
  lemma TwoShareIff(input: string, findings: seq<Finding>, i: nat, j: nat)
    requires BracketFree(input) && AllClear(input, findings) && ProperFindings(findings)
    requires i < j < |findings| && PlaceholderOf(findings[i]) == PlaceholderOf(findings[j]) && OnlyShare(findings, i, j)
    requires Replaces(Before(input, findings, i), findings[i]) && Replaces(Before(input, findings, j), findings[j])
    ensures AlwaysRestores(input, findings) <==> findings[i].value == findings[j].value
  {
    hide AlwaysRestores, AllClear, ProperFindings, BracketFree, Placeholder;
    var v, w := findings[i].value, findings[j].value;
    if |v| != |w| {
      var n := |findings|;
      assert findings[..n] == findings;
      AlwaysFilled(input, findings);
      TwoExcess(input, findings, i, j, n);
      FilledLength(DocOf(input, findings), ApplyAll(input, findings).mapping);
    } else {
      LengthsOfTwo(findings, i, j);
      SharedIff(input, findings);
      TwoKept(input, findings, i, j);
    }
  }

  lemma LengthsOfTwo(findings: seq<Finding>, i: nat, j: nat)
    requires i < j < |findings| && OnlyShare(findings, i, j) && |findings[i].value| == |findings[j].value|
    ensures SharedLengths(findings)
  {
    hide Placeholder;
    forall a, b | 0 <= a < |findings| && 0 <= b < |findings| && PlaceholderOf(findings[a]) == PlaceholderOf(findings[b])
      ensures |findings[a].value| == |findings[b].value|
    {
      assert a < b ==> a == i && b == j;
      assert b < a ==> b == i && a == j;
    }
  }

  lemma TwoKept(input: string, findings: seq<Finding>, i: nat, j: nat)
    requires i < j < |findings| && PlaceholderOf(findings[i]) == PlaceholderOf(findings[j]) && OnlyShare(findings, i, j)
    requires Replaces(Before(input, findings, i), findings[i]) && Replaces(Before(input, findings, j), findings[j])
    ensures AllKept(input, findings) <==> findings[i].value == findings[j].value
  {
    hide Applies, Placeholder, ApplyAll, Before, OnlyShare;
    forall a | 0 <= a < |findings| && Replaces(Before(input, findings, a), findings[a])
      ensures KeptIn(ApplyAll(input, findings).mapping, findings[a])
         <==> findings[if a == i then j else a].value == findings[a].value
    {
      FinalValue(input, findings, i, j, a);
    }
  }
}
