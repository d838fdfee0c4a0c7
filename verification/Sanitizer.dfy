/** pkg/sanitizer/sanitizer.go: `Sanitize` replaces what the scanners found, one first
    occurrence at a time, and records a map from placeholder to original; `Rehydrate`
    puts the originals back, walking that map in whatever order Go iterates it.
    What the scanners find is an arbitrary input. */
module Sanitizing {
  import opened Strings

  datatype Kind = Plain | CreditCard | Password | Entity | HighEntropy

  /** One scanner finding: the placeholder is [name_tag], the tag a number or a UUID. */
  datatype Finding = Finding(kind: Kind, name: string, tag: string, value: string)

  predicate BracketFree(s: string) {
    '[' !in s && ']' !in s
  }

  function Placeholder(name: string, tag: string): string {
    "[" + name + "_" + tag + "]"
  }

  function PlaceholderOf(f: Finding): string {
    Placeholder(f.name, f.tag)
  }

  datatype Sanitized = Sanitized(text: string, mapping: map<string, string>)

  /** The guards in front of the replacement, per kind of finding. */
  predicate Applies(s: Sanitized, f: Finding) {
    match f.kind
    case Plain => true
    case CreditCard => !Contains(f.value, "[")
    case Password => !("[" <= f.value && f.value != "" && f.value[|f.value| - 1] == ']')
    case Entity => PlaceholderOf(f) !in s.mapping && Contains(s.text, f.value)
    case HighEntropy => f.value !in s.mapping
  }

  function Apply(s: Sanitized, f: Finding): Sanitized {
    if Applies(s, f) then
      Sanitized(ReplaceFirst(s.text, f.value, PlaceholderOf(f)), s.mapping[PlaceholderOf(f) := f.value])
    else s
  }

  function ApplyAll(input: string, findings: seq<Finding>): Sanitized {
    if findings == [] then Sanitized(input, map[])
    else Apply(ApplyAll(input, findings[..|findings| - 1]), findings[|findings| - 1])
  }

  predicate IsFirst(text: string, value: string, i: nat) {
    OccursAt(text, value, i) && forall j | 0 <= j < i :: !OccursAt(text, value, j)
  }

  /** The first occurrence of the value gives way to the placeholder; nothing else changes. */
  ghost predicate GivesWay(text: string, value: string, placeholder: string, text': string) {
    if Contains(text, value) then
      exists i: nat | IsFirst(text, value, i) :: text' == text[..i] + placeholder + text[i + |value|..]
    else text' == text
  }

  /** The value is recorded under its placeholder, and its first occurrence gives way to it. */
  ghost predicate TakesOut(s: Sanitized, f: Finding, s': Sanitized) {
    var placeholder := "[" + f.name + "_" + f.tag + "]";
    s'.mapping == s.mapping[placeholder := f.value] && GivesWay(s.text, f.value, placeholder, s'.text)
  }

  /** What becomes of one finding, kind by kind. */
  ghost predicate RedactionStep(s: Sanitized, f: Finding, s': Sanitized) {
    match f.kind
    case Plain => TakesOut(s, f, s')
    case CreditCard => if '[' in f.value then s' == s else TakesOut(s, f, s')
    case Password =>
      if f.value != "" && f.value[0] == '[' && f.value[|f.value| - 1] == ']' then s' == s else TakesOut(s, f, s')
    case Entity =>
      if "[" + f.name + "_" + f.tag + "]" in s.mapping || !Contains(s.text, f.value) then s' == s
      else TakesOut(s, f, s')
    case HighEntropy => if f.value in s.mapping then s' == s else TakesOut(s, f, s')
  }

  lemma ApplyTakesOut(s: Sanitized, f: Finding)
    requires Applies(s, f)
    ensures TakesOut(s, f, Apply(s, f))
  {
    hide Applies;
    var i := IndexFrom(s.text, f.value, 0);
    if i <= |s.text| {
      ContainsAt(s.text, f.value, i);
      assert IsFirst(s.text, f.value, i);
    } else {
      assert !Contains(s.text, f.value);
    }
  }

  lemma ApplyIsStep(s: Sanitized, f: Finding)
    ensures RedactionStep(s, f, Apply(s, f))
  {
    OneBracket(f.value);
    if Applies(s, f) {
      ApplyTakesOut(s, f);
    } else {
      NotAppliedKeeps(s, f);
    }
    hide TakesOut, Contains, Apply;
  }

  lemma NotAppliedKeeps(s: Sanitized, f: Finding)
    requires !Applies(s, f)
    ensures Apply(s, f) == s
  {
  }

  lemma OneBracket(s: string)
    ensures Contains(s, "[") <==> '[' in s
    ensures "[" <= s <==> s != "" && s[0] == '['
  {
    if '[' in s {
      var i :| 0 <= i < |s| && s[i] == '[';
      assert s[i..i + 1] == "[";
      ContainsAt(s, "[", i);
    }
    if Contains(s, "[") {
      var i: nat :| i <= |s| && OccursAt(s, "[", i);
      assert s[i] == s[i..i + 1][0];
    }
  }

  /** The replacement passes, in the order the scanners reported.  `states` are those in front
      of each finding, and the last. */
  method Sanitize(input: string, findings: seq<Finding>) returns (result: Sanitized, ghost states: seq<Sanitized>)
    ensures result == ApplyAll(input, findings)
    ensures |states| == |findings| + 1 && states[0] == Sanitized(input, map[]) && states[|findings|] == result
    ensures forall i | 0 <= i < |findings| :: RedactionStep(states[i], findings[i], states[i + 1])
  {
    hide RedactionStep, Applies;
    var sanitized, mapping := input, map[];
    states := [Sanitized(input, map[])];
    for i := 0 to |findings|
      invariant Sanitized(sanitized, mapping) == ApplyAll(input, findings[..i])
      invariant |states| == i + 1 && states[0] == Sanitized(input, map[]) && states[i] == Sanitized(sanitized, mapping)
      invariant forall j | 0 <= j < i :: RedactionStep(states[j], findings[j], states[j + 1])
    {
      var f := findings[i];
      assert findings[..i + 1][..i] == findings[..i];
      ApplyIsStep(Sanitized(sanitized, mapping), f);
      if Applies(Sanitized(sanitized, mapping), f) {
        mapping := mapping[PlaceholderOf(f) := f.value];
        sanitized := ReplaceFirst(sanitized, f.value, PlaceholderOf(f));
      }
      states := states + [Sanitized(sanitized, mapping)];
    }
    assert findings[..|findings|] == findings;
    result := Sanitized(sanitized, mapping);
  }

  // ---------- Rehydration in a given order ----------

  function RehydrateIn(text: string, mapping: map<string, string>, order: seq<string>): string
    requires forall k | k in order :: k in mapping && k != ""
    decreases |order|
  {
    if order == [] then text
    else RehydrateIn(ReplaceAll(text, order[0], mapping[order[0]]), mapping, order[1..])
  }

  /** An order in which a map can be walked: every key once. */
  ghost predicate IsIteration(order: seq<string>, keys: set<string>) {
    && (forall k :: k in order <==> k in keys)
    && |order| == |keys|
  }

  /** The loop over the map; the choice of the next key is left open. */
  method Rehydrate(input: string, mapping: map<string, string>) returns (rehydrated: string)
    requires "" !in mapping
    ensures exists order :: IsIteration(order, mapping.Keys) && rehydrated == RehydrateIn(input, mapping, order)
  {
    rehydrated := input;
    var rest := mapping.Keys;
    ghost var order: seq<string> := [];
    while rest != {}
      invariant rest <= mapping.Keys
      invariant IsIteration(order, mapping.Keys - rest)
      invariant rehydrated == RehydrateIn(input, mapping, order)
      decreases rest
    {
      var placeholder :| placeholder in rest;
      RehydrateNext(input, mapping, order, placeholder);
      rehydrated := ReplaceAll(rehydrated, placeholder, mapping[placeholder]);
      order := order + [placeholder];
      rest := rest - {placeholder};
    }
    assert IsIteration(order, mapping.Keys);
  }

  lemma {:induction false} RehydrateNext(text: string, mapping: map<string, string>, order: seq<string>, next: string)
    requires forall k | k in order :: k in mapping && k != ""
    requires next in mapping && next != ""
    ensures RehydrateIn(text, mapping, order + [next])
        == ReplaceAll(RehydrateIn(text, mapping, order), next, mapping[next])
    decreases |order|
  {
    if order == [] {
      assert (order + [next])[1..] == [];
    } else {
      assert (order + [next])[1..] == order[1..] + [next];
      RehydrateNext(ReplaceAll(text, order[0], mapping[order[0]]), mapping, order[1..], next);
    }
  }

  // ---------- Placeholders in a text ----------

  predicate IsPlaceholder(k: string) {
    |k| >= 2 && k[0] == '[' && k[|k| - 1] == ']' && BracketFree(k[1..|k| - 1])
  }

  lemma Brackets(k: string)
    requires IsPlaceholder(k)
    ensures |k| >= 2 && k[0] == '[' && k[|k| - 1] == ']'
    ensures forall i | 0 < i < |k| :: k[i] != '['
    ensures forall i | 0 <= i < |k| - 1 :: k[i] != ']'
  {
    var inner := k[1..|k| - 1];
    forall i | 0 < i < |k| - 1
      ensures k[i] != '[' && k[i] != ']'
    {
      assert k[i] == inner[i - 1] && inner[i - 1] in inner;
    }
  }

  /** A placeholder in a text opens at its start and closes at its end, and nowhere else. */
  lemma BracketsAt(text: string, k: string, p: nat)
    requires IsPlaceholder(k) && OccursAt(text, k, p)
    ensures |k| >= 2 && p + |k| <= |text|
    ensures text[p] == '[' && text[p + |k| - 1] == ']'
    ensures forall j | p < j < p + |k| :: text[j] != '['
    ensures forall j | p <= j < p + |k| - 1 :: text[j] != ']'
  {
    Brackets(k);
    hide IsPlaceholder;
    OccursChars(text, k, p);
    forall j | p <= j < p + |k|
      ensures text[j] == k[j - p]
    {
    }
  }

  /** Two occurrences of placeholders are the same or do not touch each other. */
  lemma NoOverlap(text: string, k: string, p: nat, key: string, q: nat)
    requires IsPlaceholder(k) && IsPlaceholder(key)
    requires OccursAt(text, k, p) && OccursAt(text, key, q)
    ensures (k == key && p == q) || p + |k| <= q || q + |key| <= p
  {
    BracketsAt(text, k, p);
    BracketsAt(text, key, q);
    hide IsPlaceholder;
    assert p == q ==> |k| == |key|;
  }

  /** The `n` characters at `i` share none with any occurrence of the placeholder. */
  ghost predicate Apart(text: string, key: string, i: nat, n: nat) {
    forall q: nat | OccursAt(text, key, q) :: q + |key| <= i || i + n <= q
  }

  /** The finding is not applied, is not in the text any more, or replaces characters that no
      earlier placeholder needs. */
  ghost predicate Clear(s: Sanitized, f: Finding) {
    Applies(s, f) ==>
      var i := IndexFrom(s.text, f.value, 0);
      i <= |s.text| ==> forall k | k in s.mapping :: Apart(s.text, k, i, |f.value|)
  }

  /** Clear, in a shape that is certain to be a placeholder, and not overwriting another original. */
  ghost predicate Faithful(s: Sanitized, f: Finding) {
    && IsPlaceholder(PlaceholderOf(f))
    && Clear(s, f)
    && (Applies(s, f) && PlaceholderOf(f) in s.mapping ==> s.mapping[PlaceholderOf(f)] == f.value)
  }

  ghost predicate AllFaithful(input: string, findings: seq<Finding>) {
    forall i | 0 <= i < |findings| :: Faithful(ApplyAll(input, findings[..i]), findings[i])
  }

  /** The input does not spell any of the placeholders that the map records. */
  ghost predicate Unmarked(input: string, findings: seq<Finding>) {
    forall k | k in ApplyAll(input, findings).mapping :: !Contains(input, k)
  }

  // ---------- What a sanitized text is made of ----------

  /** Literal text with holes in it; a hole shows its placeholder and stands for its original. */
  datatype Doc =
    | End(text: string)
    | Hole(before: string, key: string, original: string, rest: Doc)

  function Render(d: Doc): string {
    match d
    case End(t) => t
    case Hole(b, k, _, r) => b + (k + Render(r))
  }

  function Original(d: Doc): string {
    match d
    case End(t) => t
    case Hole(b, _, o, r) => b + (o + Original(r))
  }

  /** The placeholders that show. */
  function Keys(d: Doc): set<string> {
    match d
    case End(_) => {}
    case Hole(_, k, _, r) => {k} + Keys(r)
  }

  predicate WellFormed(d: Doc) {
    d.Hole? ==> IsPlaceholder(d.key) && WellFormed(d.rest)
  }

  /** Every hole's original is what the map holds for its placeholder. */
  predicate Recorded(d: Doc, mapping: map<string, string>) {
    match d
    case End(_) => true
    case Hole(_, k, o, r) => k in mapping && mapping[k] == o && Recorded(r, mapping)
  }

  predicate Represents(d: Doc, input: string, s: Sanitized) {
    WellFormed(d) && Render(d) == s.text && Original(d) == input && Recorded(d, s.mapping)
  }

  lemma {:induction false} RecordedKeys(d: Doc, mapping: map<string, string>)
    requires Recorded(d, mapping)
    ensures Keys(d) <= mapping.Keys
  {
    if d.Hole? {
      RecordedKeys(d.rest, mapping);
    }
  }

  // ---------- One replacement cuts one hole ----------

  /** The document with the `n` characters at position `i` turned into a hole. */
  function Cut(d: Doc, i: nat, n: nat, key: string): Doc
    requires i + n <= |Render(d)|
  {
    match d
    case End(t) => Hole(t[..i], key, t[i..i + n], End(t[i + n..]))
    case Hole(b, k, o, r) =>
      if i + n <= |b| then Hole(b[..i], key, b[i..i + n], Hole(b[i + n..], k, o, r))
      else if i >= |b| + |k| then Hole(b, k, o, Cut(r, i - |b| - |k|, n, key))
      else d
  }

  /** The piece at `i` touches none of the placeholders that show. */
  ghost predicate Free(d: Doc, i: nat, piece: string) {
    OccursAt(Render(d), piece, i) && forall k | k in Keys(d) :: Apart(Render(d), k, i, |piece|)
  }

  /** A free piece lies in front of a hole or behind it. */
  lemma PieceFits(d: Doc, i: nat, piece: string)
    requires d.Hole? && Free(d, i, piece)
    ensures i + |piece| <= |d.before| || i >= |d.before| + |d.key|
  {
    assert OccursAt(Render(d), d.key, |d.before|);
    assert d.key in Keys(d);
  }

  lemma ShiftOccurrence(front: string, text: string, p: string, i: nat)
    ensures OccursAt(front + text, p, |front| + i) <==> OccursAt(text, p, i)
  {
    assert i + |p| <= |text| ==> (front + text)[|front| + i..|front| + i + |p|] == text[i..i + |p|];
  }

  /** The part behind a hole, seen on its own. */
  lemma BehindHole(d: Doc, i: nat, piece: string)
    requires d.Hole? && i >= |d.before| + |d.key| && Free(d, i, piece)
    ensures Free(d.rest, i - |d.before| - |d.key|, piece)
  {
    var front, rest := d.before + d.key, Render(d.rest);
    assert Render(d) == front + rest;
    ShiftOccurrence(front, rest, piece, i - |front|);
    forall k | k in Keys(d.rest)
      ensures Apart(rest, k, i - |front|, |piece|)
    {
      assert Apart(Render(d), k, i, |piece|);
      forall q: nat | OccursAt(rest, k, q)
        ensures q + |k| <= i - |front| || i - |front| + |piece| <= q
      {
        ShiftOccurrence(front, rest, k, q);
      }
    }
  }

  /** `c` shows `key` in place of the `n` characters at `i` and stands for the same text. */
  predicate IsCut(c: Doc, d: Doc, i: nat, n: nat, key: string)
    requires i + n <= |Render(d)|
  {
    && WellFormed(c)
    && Render(c) == Render(d)[..i] + key + Render(d)[i + n..]
    && Original(c) == Original(d)
  }

  lemma {:induction false} CutDoc(d: Doc, i: nat, piece: string, key: string)
    requires WellFormed(d) && IsPlaceholder(key) && Free(d, i, piece)
    ensures IsCut(Cut(d, i, |piece|, key), d, i, |piece|, key)
  {
    hide IsCut, Free;
    assert i + |piece| <= |Render(d)| by { FreeFits(d, i, piece); }
    var n := |piece|;
    match d
    case End(t) =>
      CutLiteral(t, i, n, key);
    case Hole(b, k, o, r) =>
      PieceFits(d, i, piece);
      if i + n <= |b| {
        CutBefore(d, i, n, key);
      } else {
        BehindHole(d, i, piece);
        CutDoc(r, i - |b| - |k|, piece, key);
        CutDeep(d, i, n, key);
      }
  }

  lemma FreeFits(d: Doc, i: nat, piece: string)
    requires Free(d, i, piece)
    ensures i + |piece| <= |Render(d)| && Render(d)[i..i + |piece|] == piece
  {
  }

  lemma CutDeep(d: Doc, i: nat, n: nat, key: string)
    requires d.Hole? && WellFormed(d) && |d.before| + |d.key| <= i && i + n <= |Render(d)|
    requires IsCut(Cut(d.rest, i - |d.before| - |d.key|, n, key), d.rest, i - |d.before| - |d.key|, n, key)
    ensures IsCut(Cut(d, i, n, key), d, i, n, key)
  {
    var c := Cut(d.rest, i - |d.before| - |d.key|, n, key);
    assert Cut(d, i, n, key) == Hole(d.before, d.key, d.original, c);
    hide Cut, IsCut, Render, WellFormed;
    CutHole(d, c, i, n, key);
  }

  lemma CutHole(d: Doc, c: Doc, i: nat, n: nat, key: string)
    requires d.Hole? && WellFormed(d) && |d.before| + |d.key| <= i && i + n <= |Render(d)|
    requires IsCut(c, d.rest, i - |d.before| - |d.key|, n, key)
    ensures IsCut(Hole(d.before, d.key, d.original, c), d, i, n, key)
  {
    hide Cut, IsPlaceholder, Render;
    HoleText(d);
    HoleText(Hole(d.before, d.key, d.original, c));
    CutBehind(d.before, d.key, Render(d.rest), i - |d.before| - |d.key|, n, key);
  }

  lemma HoleText(d: Doc)
    requires d.Hole?
    ensures Render(d) == d.before + (d.key + Render(d.rest))
  {
  }

  lemma CutLiteral(t: string, i: nat, n: nat, key: string)
    requires i + n <= |t| && IsPlaceholder(key)
    ensures IsCut(Cut(End(t), i, n, key), End(t), i, n, key)
  {
    assert t == t[..i] + (t[i..i + n] + t[i + n..]);
    assert t[..i] + (key + t[i + n..]) == t[..i] + key + t[i + n..];
  }

  lemma CutBefore(d: Doc, i: nat, n: nat, key: string)
    requires d.Hole? && WellFormed(d) && i + n <= |d.before| && IsPlaceholder(key)
    ensures IsCut(Cut(d, i, n, key), d, i, n, key)
  {
    var b := d.before;
    CutInFront(b, i, n, key, d.key + Render(d.rest));
    RegroupFour(b[..i], b[i..i + n], b[i + n..], d.original + Original(d.rest));
    assert b == b[..i] + b[i..i + n] + b[i + n..];
  }

  lemma RegroupFour(a: string, b: string, c: string, d: string)
    ensures a + (b + (c + d)) == (a + b + c) + d
  {
  }

  lemma CutInFront(b: string, i: nat, n: nat, key: string, rest: string)
    requires i + n <= |b|
    ensures b[..i] + (key + (b[i + n..] + rest)) == (b + rest)[..i] + key + (b + rest)[i + n..]
  {
    assert b[..i] + (key + (b[i + n..] + rest)) == b[..i] + key + (b[i + n..] + rest);
    assert (b + rest)[..i] == b[..i];
    assert (b + rest)[i + n..] == b[i + n..] + rest;
  }

  lemma CutBehind(b: string, k: string, text: string, i: nat, n: nat, key: string)
    requires i + n <= |text|
    ensures var whole, m := b + (k + text), |b| + |k| + i;
            b + (k + (text[..i] + key + text[i + n..])) == whole[..m] + key + whole[m + n..]
  {
    var whole, m := b + (k + text), |b| + |k| + i;
    assert whole[..m] == b + k + text[..i];
    assert whole[m + n..] == text[i + n..];
  }

  /** The new hole is recorded when the others were and the map is extended for it. */
  lemma {:induction false} CutRecorded(d: Doc, i: nat, piece: string, key: string, mapping: map<string, string>)
    requires Free(d, i, piece)
    requires Recorded(d, mapping) && (key in mapping ==> mapping[key] == piece)
    ensures Recorded(Cut(d, i, |piece|, key), mapping[key := piece])
  {
    hide Free;
    FreeFits(d, i, piece);
    match d
    case End(t) =>
    case Hole(b, k, o, r) =>
      PieceFits(d, i, piece);
      if i + |piece| <= |b| {
        assert b[i..i + |piece|] == Render(d)[i..i + |piece|];
        StillRecorded(r, mapping, key, piece);
      } else {
        BehindHole(d, i, piece);
        CutRecorded(r, i - |b| - |k|, piece, key, mapping);
      }
  }

  lemma {:induction false} StillRecorded(d: Doc, mapping: map<string, string>, key: string, value: string)
    requires Recorded(d, mapping) && (key in mapping ==> mapping[key] == value)
    ensures Recorded(d, mapping[key := value])
  {
    if d.Hole? {
      StillRecorded(d.rest, mapping, key, value);
    }
  }

  /** The document with one more hole, for a finding that replaces something. */
  function ApplyDoc(d: Doc, s: Sanitized, f: Finding): Doc {
    var i := IndexFrom(s.text, f.value, 0);
    if Applies(s, f) && i + |f.value| <= |Render(d)| then Cut(d, i, |f.value|, PlaceholderOf(f)) else d
  }

  /** The document that the replacement passes build. */
  function DocOf(input: string, findings: seq<Finding>): Doc {
    if findings == [] then End(input)
    else
      var n := |findings| - 1;
      ApplyDoc(DocOf(input, findings[..n]), ApplyAll(input, findings[..n]), findings[n])
  }

  /** One applied finding keeps the text a representation of the input. */
  lemma ApplyRepresents(d: Doc, input: string, s: Sanitized, f: Finding)
    requires Represents(d, input, s) && Faithful(s, f)
    ensures Represents(ApplyDoc(d, s, f), input, Apply(s, f))
  {
    hide Cut, Recorded, WellFormed, Render, Original, Apart, Applies, IsPlaceholder;
    if Applies(s, f) {
      var key, i := PlaceholderOf(f), IndexFrom(s.text, f.value, 0);
      if i <= |s.text| {
        RecordedKeys(d, s.mapping);
        assert Free(d, i, f.value);
        CutDoc(d, i, f.value, key);
        CutRecorded(d, i, f.value, key, s.mapping);
      } else {
        StillRecorded(d, s.mapping, key, f.value);
      }
    }
  }

  lemma InitFaithful(input: string, findings: seq<Finding>, m: nat)
    requires AllFaithful(input, findings) && m <= |findings|
    ensures AllFaithful(input, findings[..m])
  {
    forall i | 0 <= i < m
      ensures Faithful(ApplyAll(input, findings[..m][..i]), findings[..m][i])
    {
      assert findings[..m][..i] == findings[..i];
    }
  }

  lemma {:induction false} SanitizedRepresents(input: string, findings: seq<Finding>)
    requires AllFaithful(input, findings)
    ensures Represents(DocOf(input, findings), input, ApplyAll(input, findings))
  {
    hide Faithful, Represents, Apply, ApplyDoc;
    if findings == [] {
      PlainDoc(input);
    } else {
      var n := |findings| - 1;
      InitFaithful(input, findings, n);
      assert Faithful(ApplyAll(input, findings[..n]), findings[n]);
      SanitizedRepresents(input, findings[..n]);
      ApplyRepresents(DocOf(input, findings[..n]), input, ApplyAll(input, findings[..n]), findings[n]);
    }
  }

  lemma PlainDoc(input: string)
    ensures Represents(End(input), input, Sanitized(input, map[]))
  {
  }

  // ---------- Replacing a placeholder fills its holes ----------

  function Prepend(s: string, d: Doc): Doc {
    match d
    case End(t) => End(s + t)
    case Hole(b, k, o, r) => Hole(s + b, k, o, r)
  }

  /** The document with one placeholder replaced: its holes are filled, and copies of it that
      the literal text spells are replaced as well. */
  function Fill(d: Doc, key: string, value: string): Doc
    requires key != ""
  {
    match d
    case End(t) => End(ReplaceAll(t, key, value))
    case Hole(b, k, o, r) =>
      var b' := ReplaceAll(b, key, value);
      if k == key then Prepend(b' + value, Fill(r, key, value)) else Hole(b', k, o, Fill(r, key, value))
  }

  lemma PrependDoc(s: string, d: Doc)
    ensures Render(Prepend(s, d)) == s + Render(d)
    ensures Original(Prepend(s, d)) == s + Original(d)
    ensures WellFormed(d) ==> WellFormed(Prepend(s, d))
    ensures forall mapping :: Recorded(d, mapping) ==> Recorded(Prepend(s, d), mapping)
    ensures Keys(Prepend(s, d)) == Keys(d)
  {
    match d
    case End(t) =>
    case Hole(b, k, o, r) =>
      assert (s + b) + (k + Render(r)) == s + (b + (k + Render(r)));
      assert (s + b) + (o + Original(r)) == s + (b + (o + Original(r)));
  }

  /** A part holds nothing that the whole does not. */
  lemma PartsUnmarked(a: string, b: string, key: string)
    requires !Contains(a + b, key)
    ensures !Contains(a, key) && !Contains(b, key)
  {
    ContainsInMiddle("", a, b);
    ContainsInMiddle(a, b, "");
    assert "" + a + b == a + b == a + b + "";
    if Contains(a, key) {
      ContainsTransitive(a + b, a, key);
    }
    if Contains(b, key) {
      ContainsTransitive(a + b, b, key);
    }
  }

  /** Replacing what is not there. */
  lemma NoReplace(t: string, key: string, value: string)
    requires key != "" && !Contains(t, key)
    ensures ReplaceAll(t, key, value) == t
  {
    assert t + "" == t;
    SkipPrefix(t, "", key, value);
    ReplaceNothing("", key, value);
  }

  lemma ReplacePrefix(rest: string, key: string, v: string)
    requires key != ""
    ensures ReplaceAll(key + rest, key, v) == v + ReplaceAll(rest, key, v)
  {
    assert key <= key + rest && (key + rest)[|key|..] == rest;
  }

  /** Replacing one placeholder works on both sides of any placeholder on its own. */
  lemma {:induction false} ReplaceSplits(t: string, k: string, rest: string, key: string, value: string)
    requires IsPlaceholder(k) && IsPlaceholder(key)
    ensures ReplaceAll(t + (k + rest), key, value) == ReplaceAll(t, key, value) + ReplaceAll(k + rest, key, value)
    decreases |t|
  {
    hide ReplaceAll, IsPlaceholder;
    Brackets(key);
    var text := t + (k + rest);
    if t == "" {
      ReplaceNothing(t, key, value);
      assert text == k + rest;
    } else if key <= text {
      PrefixOccurs(text, key);
      FirstEnds(t, k, rest, key);
      var t' := t[|key|..];
      assert t == key + t' && text == key + (t' + (k + rest));
      ReplacePrefix(t', key, value);
      ReplacePrefix(t' + (k + rest), key, value);
      ReplaceSplits(t', k, rest, key, value);
    } else {
      var t' := t[1..];
      assert t == [t[0]] + t' && text == [t[0]] + (t' + (k + rest));
      assert key <= t ==> key <= text;
      ReplaceStep(t[0], t', key, value);
      ReplaceStep(t[0], t' + (k + rest), key, value);
      ReplaceSplits(t', k, rest, key, value);
    }
  }

  /** A placeholder at the start of the text ends in front of the next one. */
  lemma FirstEnds(t: string, k: string, rest: string, key: string)
    requires t != "" && IsPlaceholder(k) && IsPlaceholder(key) && OccursAt(t + (k + rest), key, 0)
    ensures |key| <= |t| && t[..|key|] == key
  {
    var text := t + (k + rest);
    assert text[|t|..|t| + |k|] == k;
    NoOverlap(text, key, 0, k, |t|);
    assert text[..|key|] == t[..|key|];
  }

  /** Text without the placeholder, in front of another placeholder, is copied. */
  lemma LiteralPasses(t: string, k: string, rest: string, key: string, value: string)
    requires IsPlaceholder(k) && IsPlaceholder(key) && !Contains(t, key)
    ensures ReplaceAll(t + (k + rest), key, value) == t + ReplaceAll(k + rest, key, value)
  {
    Brackets(key);
    hide ReplaceAll, IsPlaceholder, Contains;
    ReplaceSplits(t, k, rest, key, value);
    NoReplace(t, key, value);
  }

  lemma PassesHere(k: string, key: string, value: string, rest: string)
    requires IsPlaceholder(k) && IsPlaceholder(key) && k != key
    ensures ReplaceAll(k + rest, key, value) == k + ReplaceAll(rest, key, value)
  {
    forall i | 0 <= i < |k|
      ensures !OccursAt(k + rest, key, i)
    {
      if OccursAt(k + rest, key, i) {
        assert OccursAt(k + rest, k, 0);
        NoOverlap(k + rest, key, i, k, 0);
      }
    }
    SkipPrefix(k, rest, key, value);
  }

  /** Replacing a placeholder in the rendered text is filling its holes, and replacing it in
      the literal text between them. */
  lemma {:induction false} ReplaceFills(d: Doc, key: string, value: string)
    requires WellFormed(d) && IsPlaceholder(key)
    ensures key != "" && ReplaceAll(Render(d), key, value) == Render(Fill(d, key, value))
  {
    hide ReplaceAll, IsPlaceholder;
    Brackets(key);
    if d.Hole? {
      ReplaceFills(d.rest, key, value);
      ReplaceSplits(d.before, d.key, Render(d.rest), key, value);
      if d.key == key {
        FillsHere(d, value);
      } else {
        PassesHere(d.key, key, value, Render(d.rest));
      }
    }
  }

  lemma FillsHere(d: Doc, value: string)
    requires d.Hole? && d.key != ""
    requires ReplaceAll(Render(d.rest), d.key, value) == Render(Fill(d.rest, d.key, value))
    ensures ReplaceAll(d.before, d.key, value) + ReplaceAll(d.key + Render(d.rest), d.key, value)
         == Render(Fill(d, d.key, value))
  {
    hide ReplaceAll;
    var b, rest := ReplaceAll(d.before, d.key, value), Render(d.rest);
    PrependDoc(b + value, Fill(d.rest, d.key, value));
    ReplacePrefix(rest, d.key, value);
    Regroup(b, value, ReplaceAll(rest, d.key, value));
  }

  /** The literal text between the holes does not spell the placeholder. */
  predicate Mute(d: Doc, key: string) {
    match d
    case End(t) => !Contains(t, key)
    case Hole(b, _, _, r) => !Contains(b, key) && Mute(r, key)
  }

  /** Filling with the recorded original keeps what the document stands for. */
  lemma {:induction false} FillKeeps(d: Doc, key: string, mapping: map<string, string>)
    requires WellFormed(d) && Recorded(d, mapping) && key in mapping && key != ""
    ensures var f := Fill(d, key, mapping[key]);
            && WellFormed(f) && Recorded(f, mapping) && Keys(f) == Keys(d) - {key}
            && (Mute(d, key) ==> Original(f) == Original(d))
  {
    hide ReplaceAll, Contains;
    match d
    case End(t) =>
      if Mute(d, key) {
        NoReplace(t, key, mapping[key]);
      }
    case Hole(b, k, o, r) =>
      FillKeeps(r, key, mapping);
      var b', f := ReplaceAll(b, key, mapping[key]), Fill(r, key, mapping[key]);
      PrependDoc(b' + mapping[key], f);
      if Mute(d, key) {
        NoReplace(b, key, mapping[key]);
        Regroup(b, mapping[key], Original(f));
      }
  }

  /** Every copy of the placeholder in the original text touches a piece which that very
      placeholder replaced: the stretches in front of such pieces, between them and behind
      them do not spell it.  `front` is the stretch read so far. */
  predicate Lone(front: string, d: Doc, key: string)
    decreases d
  {
    match d
    case End(t) => !Contains(front + t, key)
    case Hole(b, k, o, r) =>
      if k == key then !Contains(front + b, key) && Lone("", r, key) else Lone(front + (b + o), r, key)
  }

  /** What no stretch spells, no literal text spells. */
  lemma {:induction false} LoneIsMute(front: string, d: Doc, key: string)
    requires Lone(front, d, key)
    ensures Mute(d, key) && !Contains(front, key)
    decreases d
  {
    hide Contains;
    match d
    case End(t) =>
      PartsUnmarked(front, t, key);
    case Hole(b, k, o, r) =>
      if k == key {
        PartsUnmarked(front, b, key);
        LoneIsMute("", r, key);
      } else {
        LoneIsMute(front + (b + o), r, key);
        PartsUnmarked(front, b + o, key);
        PartsUnmarked(b, o, key);
      }
  }

  /** An input that does not spell the placeholder at all. */
  lemma {:induction false} UnspelledIsLone(front: string, d: Doc, key: string)
    requires !Contains(front + Original(d), key)
    ensures Lone(front, d, key)
    decreases d
  {
    hide Contains;
    if d.Hole? {
      var b, o, r := d.before, d.original, Original(d.rest);
      if d.key == key {
        Regroup(front, b, o + r);
        PartsUnmarked(front + b, o + r, key);
        PartsUnmarked(o, r, key);
        assert "" + r == r;
        UnspelledIsLone("", d.rest, key);
      } else {
        Regroup(b, o, r);
        Regroup(front, b + o, r);
        UnspelledIsLone(front + (b + o), d.rest, key);
      }
    }
  }

  lemma PrependLone(front: string, s: string, d: Doc, key: string)
    ensures Lone(front, Prepend(s, d), key) <==> Lone(front + s, d, key)
  {
    hide Contains;
    match d
    case End(t) =>
      Regroup(front, s, t);
    case Hole(b, k, o, r) =>
      Regroup(front, s, b);
      Regroup(s, b, o);
      Regroup(front, s, b + o);
  }

  /** Filling the holes of one placeholder moves no stretch of another. */
  lemma {:induction false} FillLone(front: string, d: Doc, key: string, mapping: map<string, string>, other: string)
    requires Recorded(d, mapping) && key in mapping && key != "" && key != other && Mute(d, key)
    ensures Lone(front, Fill(d, key, mapping[key]), other) <==> Lone(front, d, other)
    decreases d
  {
    hide Contains, ReplaceAll;
    var v := mapping[key];
    match d
    case End(t) =>
      NoReplace(t, key, v);
    case Hole(b, k, o, r) =>
      NoReplace(b, key, v);
      if k == key {
        PrependLone(front, b + v, Fill(r, key, v), other);
        FillLone(front + (b + v), r, key, mapping, other);
      } else if k == other {
        FillLone("", r, key, mapping, other);
      } else {
        FillLone(front + (b + o), r, key, mapping, other);
      }
  }

  lemma {:induction false} CountKeys(order: seq<string>)
    ensures |set k | k in order| <= |order|
  {
    var keys := set k | k in order;
    if order == [] {
      assert keys == {};
    } else {
      var rest := set k | k in order[1..];
      CountKeys(order[1..]);
      assert order == [order[0]] + order[1..];
      assert keys == rest + {order[0]};
    }
  }

  /** Behind the first key the order has every other key once. */
  lemma RestIteration(order: seq<string>, keys: set<string>)
    requires order != [] && IsIteration(order, keys)
    ensures order[0] in keys && order[0] !in order[1..] && IsIteration(order[1..], keys - {order[0]})
  {
    var k, rest := order[0], order[1..];
    assert order == [k] + rest;
    var others := set x | x in rest;
    CountKeys(rest);
    assert k in rest ==> others == keys;
    forall x
      ensures x in rest <==> x in keys - {k}
    {
      assert x in order <==> x == k || x in rest;
    }
  }

  lemma NoHoles(d: Doc)
    ensures Keys(d) <= {} ==> Render(d) == Original(d)
  {
    if d.Hole? {
      assert d.key in Keys(d);
    }
  }

  /** Walking the map in any order that covers the showing placeholders restores the original,
      when every copy of a placeholder in it touches what that placeholder replaced. */
  lemma {:induction false} WalkRestores(d: Doc, mapping: map<string, string>, order: seq<string>, keys: set<string>)
    requires WellFormed(d) && Recorded(d, mapping) && IsIteration(order, keys) && Keys(d) <= keys <= mapping.Keys
    requires forall k | k in keys :: k != "" && IsPlaceholder(k) && Lone("", d, k)
    ensures RehydrateIn(Render(d), mapping, order) == Original(d)
    decreases |order|
  {
    hide Contains, IsPlaceholder, Lone, Mute, ReplaceAll;
    if order == [] {
      assert keys == {};
      NoHoles(d);
    } else {
      RestIteration(order, keys);
      var key, rest := order[0], keys - {order[0]};
      var f := Fill(d, key, mapping[key]);
      LoneIsMute("", d, key);
      ReplaceFills(d, key, mapping[key]);
      FillKeeps(d, key, mapping);
      forall k | k in rest
        ensures Lone("", f, k)
      {
        FillLone("", d, key, mapping, k);
      }
      hide IsIteration, Recorded, WellFormed, Keys, Fill, Original, Render;
      WalkRestores(f, mapping, order[1..], rest);
    }
  }

  lemma {:induction false} MappedPlaceholders(input: string, findings: seq<Finding>, key: string)
    requires key in ApplyAll(input, findings).mapping
    ensures exists i | 0 <= i < |findings| :: PlaceholderOf(findings[i]) == key
  {
    var n := |findings| - 1;
    if findings != [] && key != PlaceholderOf(findings[n]) {
      MappedPlaceholders(input, findings[..n], key);
      var i :| 0 <= i < n && PlaceholderOf(findings[..n][i]) == key;
      assert findings[i] == findings[..n][i];
    }
  }

  /** No placeholder is empty, so every map `Sanitize` makes can be walked. */
  lemma NoEmptyKey(input: string, findings: seq<Finding>)
    ensures "" !in ApplyAll(input, findings).mapping
  {
    Unmapped(input, findings, "");
  }

  /** Every copy of a recorded placeholder that the input spells touches what it replaced. */
  ghost predicate AllLone(input: string, findings: seq<Finding>) {
    forall k | k in ApplyAll(input, findings).mapping :: Lone("", DocOf(input, findings), k)
  }

  /** An input that spells none of them. */
  lemma UnmarkedIsLone(input: string, findings: seq<Finding>)
    requires Unmarked(input, findings) && AllFaithful(input, findings)
    ensures AllLone(input, findings)
  {
    hide Contains, Lone, Faithful;
    SanitizedRepresents(input, findings);
    forall k | k in ApplyAll(input, findings).mapping
      ensures Lone("", DocOf(input, findings), k)
    {
      assert "" + input == input;
      UnspelledIsLone("", DocOf(input, findings), k);
    }
  }

  /** Rehydrating undoes sanitizing, in every iteration order of the map, also where the
      first occurrence that was replaced is not the copy the scanner matched. */
  lemma RehydrateUndoesSanitize(input: string, findings: seq<Finding>, order: seq<string>)
    requires AllFaithful(input, findings) && AllLone(input, findings)
    requires IsIteration(order, ApplyAll(input, findings).mapping.Keys)
    ensures (forall k | k in order :: k in ApplyAll(input, findings).mapping && k != "")
         && RehydrateIn(ApplyAll(input, findings).text, ApplyAll(input, findings).mapping, order) == input
  {
    hide Lone;
    var s, d := ApplyAll(input, findings), DocOf(input, findings);
    NoEmptyKey(input, findings);
    SanitizedRepresents(input, findings);
    RecordedKeys(d, s.mapping);
    forall k | k in s.mapping.Keys
      ensures IsPlaceholder(k)
    {
      MappedPlaceholders(input, findings, k);
      var i :| 0 <= i < |findings| && PlaceholderOf(findings[i]) == k;
      assert Faithful(ApplyAll(input, findings[..i]), findings[i]);
    }
    WalkRestores(d, s.mapping, order, s.mapping.Keys);
  }

  /** The two methods together. */
  method VaultRoundTrip(input: string, findings: seq<Finding>) returns (sanitized: Sanitized, restored: string)
    ensures sanitized == ApplyAll(input, findings)
    ensures AllFaithful(input, findings) && AllLone(input, findings) ==> restored == input
  {
    ghost var states;
    sanitized, states := Sanitize(input, findings);
    NoEmptyKey(input, findings);
    restored := Rehydrate(sanitized.text, sanitized.mapping);
    ghost var order :| IsIteration(order, sanitized.mapping.Keys)
      && restored == RehydrateIn(sanitized.text, sanitized.mapping, order);
    if AllFaithful(input, findings) && AllLone(input, findings) {
      RehydrateUndoesSanitize(input, findings, order);
    }
  }

  // ---------- When no original is overwritten ----------

  /** Names and tags are read back from a placeholder when tags hold no underscore, as
      numbers and UUIDs do not. */
  lemma PlaceholderInjective(name: string, tag: string, name': string, tag': string)
    requires '_' !in tag && '_' !in tag'
    requires Placeholder(name, tag) == Placeholder(name', tag')
    ensures name == name' && tag == tag'
  {
    var k, k' := Placeholder(name, tag), Placeholder(name', tag');
    assert k[1..|k| - 1] == name + ['_'] + tag && k'[1..|k'| - 1] == name' + ['_'] + tag';
    SplitTail('_', name, tag, name', tag');
  }

  lemma NamedPlaceholder(name: string, tag: string)
    requires BracketFree(name) && BracketFree(tag)
    ensures IsPlaceholder(Placeholder(name, tag))
    ensures Placeholder(name, tag) == ['['] + (name + ("_" + tag + "]"))
  {
    var k, inner := Placeholder(name, tag), name + "_" + tag;
    assert k == "[" + inner + "]" && k[1..|k| - 1] == inner;
  }

  /** The findings have different placeholders. */
  predicate NumberedApart(findings: seq<Finding>) {
    && (forall i | 0 <= i < |findings| :: IsPlaceholder(PlaceholderOf(findings[i])))
    && forall i, j | 0 <= i < j < |findings| :: PlaceholderOf(findings[i]) != PlaceholderOf(findings[j])
  }

  /** As all do that come from passes other than the IBAN one. */
  lemma NumbersApart(findings: seq<Finding>)
    requires forall i | 0 <= i < |findings| ::
               BracketFree(findings[i].name) && BracketFree(findings[i].tag) && '_' !in findings[i].tag
    requires forall i, j | 0 <= i < j < |findings| ::
               findings[i].name != findings[j].name || findings[i].tag != findings[j].tag
    ensures NumberedApart(findings)
  {
    forall i | 0 <= i < |findings|
      ensures IsPlaceholder(PlaceholderOf(findings[i]))
    {
      NamedPlaceholder(findings[i].name, findings[i].tag);
    }
    forall i, j | 0 <= i < j < |findings|
      ensures PlaceholderOf(findings[i]) != PlaceholderOf(findings[j])
    {
      if PlaceholderOf(findings[i]) == PlaceholderOf(findings[j]) {
        PlaceholderInjective(findings[i].name, findings[i].tag, findings[j].name, findings[j].tag);
      }
    }
  }

  ghost predicate AllClear(input: string, findings: seq<Finding>) {
    forall i | 0 <= i < |findings| :: Clear(ApplyAll(input, findings[..i]), findings[i])
  }

  /** Numbering apart rules out overwriting. */
  lemma NumberedIsFaithful(input: string, findings: seq<Finding>)
    requires NumberedApart(findings) && AllClear(input, findings)
    ensures AllFaithful(input, findings)
  {
    hide IsPlaceholder, Clear, Applies;
    forall i | 0 <= i < |findings|
      ensures Faithful(ApplyAll(input, findings[..i]), findings[i])
    {
      NotMapped(input, findings, i);
    }
  }

  lemma {:induction false} Unmapped(input: string, findings: seq<Finding>, key: string)
    requires forall i | 0 <= i < |findings| :: PlaceholderOf(findings[i]) != key
    ensures key !in ApplyAll(input, findings).mapping
  {
    hide Applies, Placeholder;
    if findings != [] {
      Unmapped(input, findings[..|findings| - 1], key);
    }
  }

  lemma NotMapped(input: string, findings: seq<Finding>, j: nat)
    requires NumberedApart(findings) && j < |findings|
    ensures PlaceholderOf(findings[j]) !in ApplyAll(input, findings[..j]).mapping
  {
    hide IsPlaceholder;
    Unmapped(input, findings[..j], PlaceholderOf(findings[j]));
  }
}
