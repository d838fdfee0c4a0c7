/** pkg/sanitizer/sanitizer.go: that what the scanners find is taken out of the text: how many
    copies of a value are left, and what the sanitized text is made of. */
module Redactions {
  import opened Strings
  import opened Sanitizing
  import opened RoundTrip
  import opened Overwritten
  import opened BrokenPlaceholders

  // ---------- How many copies are left ----------

  /** strings.Count: occurrences from left to right that do not overlap. */
  function Count(text: string, v: string): nat
    requires v != ""
  {
    if |text| < |v| then 0
    else if v <= text then 1 + Count(text[|v|..], v)
    else Count(text[1..], v)
  }

  lemma CountHere(v: string, rest: string)
    requires v != ""
    ensures Count(v + rest, v) == 1 + Count(rest, v)
  {
    assert v <= v + rest && (v + rest)[|v|..] == rest;
  }

  lemma CountStep(c: char, rest: string, v: string)
    requires v != "" && !(v <= [c] + rest)
    ensures Count([c] + rest, v) == Count(rest, v)
  {
    assert ([c] + rest)[1..] == rest;
  }

  /** No copy of `v` touches the middle part. */
  ghost predicate Untouching(x: string, middle: string, z: string, v: string) {
    forall p: nat | OccursAt(x + (middle + z), v, p) :: p + |v| <= |x| || p >= |x| + |middle|
  }

  /** Then the two sides are counted apart. */
  lemma {:induction false} CountApart(x: string, middle: string, z: string, v: string)
    requires v != "" && Untouching(x, middle, z, v)
    ensures Count(x + (middle + z), v) == Count(x, v) + Count(z, v)
    decreases |x| + |middle|
  {
    hide Count, OccursAt;
    var text := x + (middle + z);
    if x == "" && middle == "" {
      assert text == z;
      CountNone("", v);
    } else if v <= text {
      PrefixOccurs(text, v);
      InFrontPart(x, middle, z, v);
      var x' := x[|v|..];
      assert x == v + x' && text == v + (x' + (middle + z));
      CountHere(v, x');
      CountHere(v, x' + (middle + z));
      UntouchingBehind(v, x', middle, z, v);
      CountApart(x', middle, z, v);
    } else if x == "" {
      var m' := middle[1..];
      assert middle == [middle[0]] + m' && text == middle + z && "" + (m' + z) == m' + z;
      Regroup([middle[0]], m', z);
      CountStep(middle[0], m' + z, v);
      UntouchingMiddle(middle, z, v);
      CountApart("", m', z, v);
    } else {
      var x' := x[1..];
      assert x == [x[0]] + x' && text == [x[0]] + (x' + (middle + z));
      assert v <= x ==> v <= text;
      CountStep(x[0], x', v);
      CountStep(x[0], x' + (middle + z), v);
      UntouchingBehind([x[0]], x', middle, z, v);
      CountApart(x', middle, z, v);
    }
  }

  lemma CountNone(text: string, v: string)
    requires v != "" && text == ""
    ensures Count(text, v) == 0
  {
  }

  lemma InFrontPart(x: string, middle: string, z: string, v: string)
    requires v != "" && Untouching(x, middle, z, v) && OccursAt(x + (middle + z), v, 0) && x + middle != ""
    ensures v <= x
  {
    var text := x + (middle + z);
    assert text[..|v|] == v;
    assert |v| <= |x| || 0 >= |x| + |middle|;
    assert |v| <= |x| ==> x[..|v|] == text[..|v|];
  }

  lemma UntouchingBehind(a: string, x: string, middle: string, z: string, v: string)
    requires Untouching(a + x, middle, z, v)
    ensures Untouching(x, middle, z, v)
  {
    var rest := x + (middle + z);
    Regroup(a, x, middle + z);
    forall p: nat | OccursAt(rest, v, p)
      ensures p + |v| <= |x| || p >= |x| + |middle|
    {
      ShiftOccurrence(a, rest, v, p);
      assert OccursAt((a + x) + (middle + z), v, |a| + p);
    }
  }

  lemma UntouchingMiddle(middle: string, z: string, v: string)
    requires middle != "" && Untouching("", middle, z, v)
    ensures Untouching("", middle[1..], z, v)
  {
    var c, m' := [middle[0]], middle[1..];
    assert middle == c + m';
    Regroup(c, m', z);
    assert "" + (middle + z) == middle + z && "" + (m' + z) == m' + z;
    hide OccursAt;
    forall p: nat | OccursAt("" + (m' + z), v, p)
      ensures p + |v| <= 0 || p >= |m'|
    {
      ShiftOccurrence(c, m' + z, v, p);
      assert OccursAt("" + (middle + z), v, 1 + p);
    }
  }

  lemma {:induction false} CountZero(text: string, v: string)
    requires v != "" && !Contains(text, v)
    ensures Count(text, v) == 0
  {
    assert "" + (text + "") == text;
    NoOccurrence(text, v);
    CountApart("", text, "", v);
    CountNone("", v);
  }

  lemma {:induction false} CountSome(text: string, v: string)
    requires v != ""
    ensures Count(text, v) > 0 <==> Contains(text, v)
  {
    if Contains(text, v) {
      var i := IndexFrom(text, v, 0);
      FirstCopy(text, v, i);
    } else {
      CountZero(text, v);
    }
  }

  /** The first copy, and those behind it. */
  lemma FirstCopy(text: string, v: string, i: nat)
    requires v != "" && i <= |text| && IsFirst(text, v, i)
    ensures i + |v| <= |text| && Count(text, v) == 1 + Count(text[i + |v|..], v)
  {
    var x, z := text[..i], text[i + |v|..];
    assert text == x + (v + z) && text == "" + (x + (v + z));
    hide Count, OccursAt;
    CountApart("", x, v + z, v) by {
      assert Untouching("", x, v + z, v);
    }
    CountNone("", v);
    CountHere(v, z);
  }

  /** A bracket-free value never touches a placeholder that does not hold it. */
  lemma PlaceholderUntouched(x: string, k: string, z: string, v: string)
    requires v != "" && BracketFree(v) && IsPlaceholder(k) && !Contains(k, v)
    ensures Untouching(x, k, z, v)
  {
    hide OccursAt, IsPlaceholder, BracketFree;
    forall p: nat | OccursAt(x + (k + z), v, p)
      ensures p + |v| <= |x| || p >= |x| + |k|
    {
      if p + |v| > |x| && p < |x| + |k| {
        TouchesPlaceholder(x, k, z, v, p);
      }
    }
  }

  lemma TouchesPlaceholder(x: string, k: string, z: string, v: string, p: nat)
    requires BracketFree(v) && IsPlaceholder(k) && |x| < p + |v| && p < |x| + |k|
    ensures OccursAt(x + (k + z), v, p) ==> Contains(k, v)
  {
    var text := x + (k + z);
    Brackets(k);
    hide IsPlaceholder;
    assert text[|x|] == '[' && text[|x| + |k| - 1] == ']';
    if p <= |x| {
      NotInside(text, v, p, |x|);
    } else if p + |v| >= |x| + |k| {
      NotInside(text, v, p, |x| + |k| - 1);
    } else {
      hide OccursAt;
      ShiftOccurrence(x, k + z, v, p - |x|);
      OccursInFront(k, z, v, p - |x|);
      if OccursAt(k, v, p - |x|) {
        ContainsAt(k, v, p - |x|);
      }
    }
  }

  /** Where the first copy gives way to a placeholder, there is one copy fewer. */
  lemma OneFewer(text: string, v: string, k: string, text': string)
    requires v != "" && BracketFree(v) && IsPlaceholder(k) && !Contains(k, v) && GivesWay(text, v, k, text')
    ensures Count(text', v) == if Count(text, v) == 0 then 0 else Count(text, v) - 1
  {
    CountSome(text, v);
    hide Count, Contains, OccursAt;
    if Contains(text, v) {
      var i: nat :| IsFirst(text, v, i) && text' == text[..i] + k + text[i + |v|..];
      FirstCopy(text, v, i);
      var x, z := text[..i], text[i + |v|..];
      Regroup(x, k, z);
      PlaceholderUntouched(x, k, z, v);
      CountApart(x, k, z, v);
      FrontHasNone(text, v, i);
    }
  }

  lemma FrontHasNone(text: string, v: string, i: nat)
    requires v != "" && i <= |text| && IsFirst(text, v, i)
    ensures Count(text[..i], v) == 0
  {
    var x := text[..i];
    assert text == x + text[i..];
    forall p | 0 <= p <= |x|
      ensures !OccursAt(x, v, p)
    {
      if p + |v| <= |x| {
        OccursInFront(x, text[i..], v, p);
      }
    }
    CountZero(x, v);
  }

  /** Where another value gives way that touches no copy, there are as many. */
  lemma AsMany(text: string, u: string, k: string, text': string, v: string)
    requires v != "" && BracketFree(v) && IsPlaceholder(k) && !Contains(k, v) && GivesWay(text, u, k, text')
    requires forall i: nat | IsFirst(text, u, i) :: Apart(text, v, i, |u|)
    ensures Count(text', v) == Count(text, v)
  {
    if Contains(text, u) {
      var i: nat :| IsFirst(text, u, i) && text' == text[..i] + k + text[i + |u|..];
      var x, z := text[..i], text[i + |u|..];
      AtSeam(text, i, u, k);
      assert text' == x + (k + z);
      ApartIsUntouching(x, u, z, v);
      hide Count, OccursAt, Apart, Untouching;
      PlaceholderUntouched(x, k, z, v);
      CountApart(x, k, z, v);
      CountApart(x, u, z, v);
    }
  }

  lemma ApartIsUntouching(x: string, u: string, z: string, v: string)
    requires Apart(x + (u + z), v, |x|, |u|)
    ensures Untouching(x, u, z, v)
  {
  }

  /** How many findings have this value. */
  function Times(findings: seq<Finding>, v: string): nat {
    if findings == [] then 0
    else Times(findings[..|findings| - 1], v) + if findings[|findings| - 1].value == v then 1 else 0
  }

  /** What is replaced for another value touches no copy of this one. */
  ghost predicate Separate(input: string, findings: seq<Finding>, v: string) {
    forall m, i: nat |
      0 <= m < |findings| && findings[m].value != v && IsFirst(Before(input, findings, m).text, findings[m].value, i) ::
      Apart(Before(input, findings, m).text, v, i, |findings[m].value|)
  }

  /** Bracket-free values, behind placeholders of their own that do not hold `v`. */
  ghost predicate Redactable(findings: seq<Finding>, v: string) {
    && NumberedApart(findings) && v != "" && BracketFree(v)
    && forall m | 0 <= m < |findings| ::
         && findings[m].value != "" && BracketFree(findings[m].value)
         && !Contains(PlaceholderOf(findings[m]), v)
  }

  function Less(n: nat, m: nat): nat {
    if n <= m then 0 else n - m
  }

  /** Findings with bracket-free values and placeholders of their own are all taken out: of a
      value that others do not touch, one copy goes for each finding that has it. */
  lemma {:induction false} CopiesLeft(input: string, findings: seq<Finding>, v: string)
    requires Redactable(findings, v) && v != ""
    requires Separate(input, findings, v)
    ensures Count(ApplyAll(input, findings).text, v) == Less(Count(input, v), Times(findings, v))
  {
    Ends(input, findings);
    CopiesBefore(input, findings, |findings|, v);
    assert findings[..|findings|] == findings;
  }

  lemma {:induction false} CopiesBefore(input: string, findings: seq<Finding>, m: nat, v: string)
    requires Redactable(findings, v) && v != "" && m <= |findings|
    requires Separate(input, findings, v)
    ensures Count(Before(input, findings, m).text, v) == Less(Count(input, v), Times(findings[..m], v))
    decreases m
  {
    hide Count, IsPlaceholder, BracketFree, Contains, ApplyAll, Apply, Placeholder;
    if m == 0 {
      Ends(input, findings);
      assert findings[..0] == [];
    } else {
      CopiesBefore(input, findings, m - 1, v);
      assert findings[..m][..m - 1] == findings[..m - 1];
      OneStepLess(input, findings, m - 1, v);
    }
  }

  lemma OneStepLess(input: string, findings: seq<Finding>, m: nat, v: string)
    requires NumberedApart(findings) && v != "" && BracketFree(v) && m < |findings|
    requires findings[m].value != "" && BracketFree(findings[m].value) && !Contains(PlaceholderOf(findings[m]), v)
    requires Separate(input, findings, v)
    ensures Count(Before(input, findings, m + 1).text, v)
         == if findings[m].value == v then Less(Count(Before(input, findings, m).text, v), 1)
            else Count(Before(input, findings, m).text, v)
  {
    hide Count, IsPlaceholder, BracketFree, ApplyAll, Apply;
    var s, s', f := Before(input, findings, m), Before(input, findings, m + 1), findings[m];
    TakenOut(input, findings, m);
    if f.value == v {
      OneFewer(s.text, v, PlaceholderOf(f), s'.text);
    } else {
      AsMany(s.text, f.value, PlaceholderOf(f), s'.text, v);
    }
  }

  /** A bracket-free value under a placeholder of its own is taken out, whatever its kind. */
  lemma TakenOut(input: string, findings: seq<Finding>, m: nat)
    requires NumberedApart(findings) && m < |findings|
    requires findings[m].value != "" && BracketFree(findings[m].value)
    ensures var s, s', f := Before(input, findings, m), Before(input, findings, m + 1), findings[m];
            && GivesWay(s.text, f.value, PlaceholderOf(f), s'.text)
            && (Contains(s.text, f.value) || f.kind != Entity ==> s'.mapping == s.mapping[PlaceholderOf(f) := f.value])
  {
    var s, f := Before(input, findings, m), findings[m];
    NextState(input, findings, m);
    NotMapped(input, findings, m);
    KeysArePlaceholders(input, findings, m);
    ApplyIsStep(s, f);
    assert f.value[0] in f.value;
    assert f.value !in s.mapping by {
      if f.value in s.mapping {
        Brackets(f.value);
      }
    }
    assert Contains(s.text, f.value) || GivesWay(s.text, f.value, PlaceholderOf(f), s.text);
  }

  // ---------- What the sanitized text is made of ----------

  /** The placeholders that show, each with what it stands for. */
  function Holes(d: Doc): multiset<(string, string)> {
    match d
    case End(_) => multiset{}
    case Hole(_, k, o, r) => multiset{(k, o)} + Holes(r)
  }

  /** The findings among the first `m` that replaced something. */
  ghost function Replacements(input: string, findings: seq<Finding>, m: nat): multiset<(string, string)>
    requires m <= |findings|
  {
    if m == 0 then multiset{}
    else
      var f := findings[m - 1];
      Replacements(input, findings, m - 1)
      + if Replaces(Before(input, findings, m - 1), f) then multiset{(PlaceholderOf(f), f.value)} else multiset{}
  }

  lemma {:induction false} CutHoles(d: Doc, i: nat, piece: string, key: string)
    requires Free(d, i, piece)
    ensures i + |piece| <= |Render(d)|
    ensures Holes(Cut(d, i, |piece|, key)) == Holes(d) + multiset{(key, piece)}
  {
    hide Free;
    FreeFits(d, i, piece);
    match d
    case End(t) =>
    case Hole(b, k, o, r) =>
      PieceFits(d, i, piece);
      if i + |piece| <= |b| {
        assert b[i..i + |piece|] == Render(d)[i..i + |piece|];
      } else {
        BehindHole(d, i, piece);
        CutHoles(r, i - |b| - |k|, piece, key);
      }
  }

  /** When no replacement hits an earlier placeholder, the sanitized text is the input with a
      piece exchanged for its placeholder once for each finding that replaced something, each
      piece its finding's value, and is otherwise the same. */
  lemma SanitizedIsMadeOf(input: string, findings: seq<Finding>)
    requires AllClear(input, findings) && ProperFindings(findings)
    ensures Original(DocOf(input, findings)) == input
    ensures Render(DocOf(input, findings)) == ApplyAll(input, findings).text
    ensures Holes(DocOf(input, findings)) == Replacements(input, findings, |findings|)
  {
    SanitizedShapes(input, findings);
    HolesBefore(input, findings, |findings|);
    assert findings[..|findings|] == findings;
  }

  lemma {:induction false} HolesBefore(input: string, findings: seq<Finding>, m: nat)
    requires AllClear(input, findings) && ProperFindings(findings) && m <= |findings|
    ensures Holes(DocOf(input, findings[..m])) == Replacements(input, findings, m)
  {
    hide AllClear, ProperFindings, Replaces, Free, Cut, Before, Placeholder;
    if m == 0 {
      assert findings[..0] == [];
    } else {
      HolesBefore(input, findings, m - 1);
      NextDoc(input, findings, m - 1);
      var d, s, f := DocOf(input, findings[..m - 1]), Before(input, findings, m - 1), findings[m - 1];
      hide DocOf, Holes;
      if Replaces(s, f) {
        CutHoles(d, Spot(s, f), f.value, PlaceholderOf(f));
      }
    }
  }

  // ---------- Instances ----------

  /** One finding at the end of a text, behind characters it does not start with. */
  lemma RedactsLast(front: string, f: Finding)
    requires f.value != "" && forall i | 0 <= i < |front| :: front[i] != f.value[0]
    requires Applies(Sanitized(front + f.value, map[]), f)
    ensures ApplyAll(front + f.value, [f])
         == Sanitized(front + PlaceholderOf(f), map[PlaceholderOf(f) := f.value])
  {
    var v, k := f.value, PlaceholderOf(f);
    forall i | 0 <= i < |front|
      ensures !OccursAt(front + (v + ""), v, i)
    {
      assert i + |v| <= |front + (v + "")| ==> (front + (v + ""))[i..i + |v|][0] == front[i];
    }
    assert v + "" == v && k + "" == k;
    ApplyOne(front + v, f);
    FirstAt(front, v, "", k);
  }

  /** Instances: a card number and a name. */
  lemma CardIsRedacted()
    ensures ApplyAll("pay " + "4111111111111111", [Finding(CreditCard, "CREDIT_CARD", "1", "4111111111111111")])
         == Sanitized("pay " + "[CREDIT_CARD_1]", map["[CREDIT_CARD_1]" := "4111111111111111"])
  {
    hide ApplyAll, Contains;
    var f := Finding(CreditCard, "CREDIT_CARD", "1", "4111111111111111");
    assert PlaceholderOf(f) == "[CREDIT_CARD_1]";
    CardApplies(Sanitized("pay " + f.value, map[]), f);
    hide Placeholder, Applies;
    RedactsLast("pay ", f);
  }

  lemma CardApplies(s: Sanitized, f: Finding)
    requires f.kind == CreditCard && f.value == "4111111111111111"
    ensures Applies(s, f)
  {
    hide Contains;
    OneBracket(f.value);
  }

  lemma PersonIsRedacted()
    ensures ApplyAll("Call " + "John Smith", [Finding(Entity, "PERSON_NAME", "1", "John Smith")])
         == Sanitized("Call " + "[PERSON_NAME_1]", map["[PERSON_NAME_1]" := "John Smith"])
  {
    hide ApplyAll, Contains;
    var f := Finding(Entity, "PERSON_NAME", "1", "John Smith");
    assert PlaceholderOf(f) == "[PERSON_NAME_1]";
    ContainsInMiddle("Call ", f.value, "");
    assert "Call " + f.value + "" == "Call " + f.value;
    RedactsLast("Call ", f);
  }
}
