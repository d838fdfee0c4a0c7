/** pkg/sanitizer/sanitizer.go: exactly when redaction takes out one copy of a value for each time
    it was found, and no more. */
module Copies {
  import opened Strings
  import opened Sanitizing
  import opened RoundTrip
  import opened BrokenPlaceholders
  import opened Redactions

  // ---------- Counting in parts of a text ----------

  /** There are no more copies further on. */
  lemma {:induction false} CountLater(s: string, v: string, n: nat)
    requires v != "" && n <= |s|
    ensures Count(s[n..], v) <= Count(s, v)
    decreases |s|, 1
  {
    if n == 0 {
      assert s[0..] == s;
    } else {
      CountLater(s[1..], v, n - 1);
      assert s[1..][n - 1..] == s[n..];
      if |s| >= |v| && v <= s {
        CountOneMore(s[1..], v, |v| - 1);
        assert s[1..][|v| - 1..] == s[|v|..];
      }
    }
  }

  /** The next `|v|` characters start at most one of them. */
  lemma {:induction false} CountOneMore(s: string, v: string, n: nat)
    requires v != "" && n <= |s| && n <= |v|
    ensures Count(s, v) <= 1 + Count(s[n..], v)
    decreases |s|, 0
  {
    if |s| < |v| {
    } else if n == 0 {
      assert s[0..] == s;
    } else if v <= s {
      CountLater(s[n..], v, |v| - n);
      assert s[n..][|v| - n..] == s[|v|..];
    } else {
      CountOneMore(s[1..], v, n - 1);
      assert s[1..][n - 1..] == s[n..];
    }
  }

  /** The whole holds at least the copies of its parts. */
  lemma {:induction false} CountSum(x: string, z: string, v: string)
    requires v != ""
    ensures Count(x, v) + Count(z, v) <= Count(x + z, v)
    decreases |x|
  {
    hide Count;
    if |x| < |v| {
      CountShort(x, v);
      CountLater(x + z, v, |x|);
      assert (x + z)[|x|..] == z;
    } else if v <= x {
      var x' := x[|v|..];
      assert x == v + x' && x + z == v + (x' + z);
      CountHere(v, x');
      CountHere(v, x' + z);
      CountSum(x', z, v);
    } else {
      var x' := x[1..];
      assert x == [x[0]] + x' && (x + z)[1..] == x' + z;
      CountStep(x[0], x', v);
      CountSum(x', z, v);
      CountLater(x + z, v, 1);
    }
  }

  lemma CountShort(s: string, v: string)
    requires v != "" && |s| < |v|
    ensures Count(s, v) == 0
  {
  }

  // ---------- A value that cannot overlap itself ----------

  /** No end of the value is a start of it. */
  predicate Unbordered(v: string) {
    forall n | 0 < n < |v| :: v[n..] != v[..|v| - n]
  }

  /** Two copies that overlap show the value's end at its start. */
  lemma Overlap(text: string, v: string, p: nat, n: nat)
    requires OccursAt(text, v, p) && OccursAt(text, v, p + n) && n < |v|
    ensures v[n..] == v[..|v| - n]
  {
    assert text[p..p + |v|][n..] == text[p + n..p + |v|] == text[p + n..p + n + |v|][..|v| - n];
  }

  lemma NoOverlap(text: string, v: string, p: nat, q: nat)
    requires Unbordered(v) && OccursAt(text, v, p) && OccursAt(text, v, q) && p < q
    ensures p + |v| <= q
  {
    hide OccursAt;
    if q < p + |v| {
      Overlap(text, v, p, q - p);
    }
  }

  /** The copies in front of a place that one of them reaches into end in front of that one. */
  lemma CountInFront(text: string, v: string, p: nat, i: nat)
    requires v != "" && Unbordered(v) && OccursAt(text, v, p) && i < p + |v| && i <= |text|
    ensures Count(text[..i], v) <= Count(text[..p], v)
  {
    hide Count, OccursAt, Unbordered;
    OccursFits(text, v, p);
    if i <= p {
      assert text[..p] == text[..i] + text[i..p];
      CountSum(text[..i], text[i..p], v);
    } else {
      var x, rest := text[..p], text[p..i];
      assert text[..i] == x + (rest + "");
      forall q: nat | OccursAt(x + (rest + ""), v, q)
        ensures q + |v| <= |x|
      {
        OccursFits(text[..i], v, q);
        assert text == text[..i] + text[i..];
        OccursInFront(text[..i], text[i..], v, q);
        if q > p {
          NoOverlap(text, v, p, q);
        } else if q < p {
          NoOverlap(text, v, q, p);
        }
      }
      assert Untouching(x, rest, "", v);
      CountApart(x, rest, "", v);
      CountShort("", v);
    }
  }

  lemma OccursFits(text: string, v: string, p: nat)
    requires OccursAt(text, v, p)
    ensures p + |v| <= |text|
  {
  }

  /** And those behind it start behind that one. */
  lemma CountBehind(text: string, v: string, p: nat, j: nat)
    requires v != "" && Unbordered(v) && OccursAt(text, v, p) && p < j <= |text|
    ensures Count(text[j..], v) <= Count(text[p + |v|..], v)
  {
    hide Count, OccursAt, Unbordered;
    OccursFits(text, v, p);
    if j >= p + |v| {
      assert text[j..] == text[p + |v|..][j - p - |v|..];
      CountLater(text[p + |v|..], v, j - p - |v|);
    } else {
      var rest, z := text[j..p + |v|], text[p + |v|..];
      assert text[j..] == "" + (rest + z);
      forall q: nat | OccursAt("" + (rest + z), v, q)
        ensures q >= |rest|
      {
        assert text == text[..j] + text[j..];
        ShiftOccurrence(text[..j], text[j..], v, q);
        NoOverlap(text, v, p, j + q);
      }
      assert Untouching("", rest, z, v);
      CountApart("", rest, z, v);
      CountShort("", v);
    }
  }

  // ---------- One replacement ----------

  /** What a replacement of another value leaves. */
  lemma Replacement(text: string, u: string, k: string, text': string, v: string, i: nat)
    requires v != "" && BracketFree(v) && IsPlaceholder(k) && !Contains(k, v) && GivesWay(text, u, k, text')
    requires IsFirst(text, u, i)
    ensures i + |u| <= |text| && Count(text', v) == Count(text[..i], v) + Count(text[i + |u|..], v)
  {
    hide Count, OccursAt;
    OccursFits(text, u, i);
    ContainsAt(text, u, i);
    hide Contains;
    var j: nat :| IsFirst(text, u, j) && text' == text[..j] + k + text[j + |u|..];
    assert i == j;
    var x, z := text[..i], text[i + |u|..];
    Regroup(x, k, z);
    PlaceholderUntouched(x, k, z, v);
    CountApart(x, k, z, v);
  }

  /** It never brings a copy about. */
  lemma NoMore(text: string, u: string, k: string, text': string, v: string)
    requires v != "" && BracketFree(v) && IsPlaceholder(k) && !Contains(k, v) && GivesWay(text, u, k, text')
    ensures Count(text', v) <= Count(text, v)
  {
    hide Count, IsPlaceholder, BracketFree;
    if Contains(text, u) {
      var i: nat :| IsFirst(text, u, i) && text' == text[..i] + k + text[i + |u|..];
      Replacement(text, u, k, text', v, i);
      hide Contains;
      var x, z := text[..i], text[i + |u|..];
      assert text == x + text[i..] && text[i..] == text[i..i + |u|] + z;
      CountSum(x, text[i..], v);
      CountSum(text[i..i + |u|], z, v);
    }
  }

  /** And it destroys one when it touches one that does not overlap itself. */
  lemma TouchedIsLost(text: string, u: string, k: string, text': string, v: string, i: nat)
    requires v != "" && BracketFree(v) && IsPlaceholder(k) && !Contains(k, v) && GivesWay(text, u, k, text')
    requires u != "" && Unbordered(v) && IsFirst(text, u, i) && !Apart(text, v, i, |u|)
    ensures Count(text', v) < Count(text, v)
  {
    hide *;
    Replacement(text, u, k, text', v, i);
    var p := Touched(text, v, i, |u|);
    CountInFront(text, v, p, i);
    CountBehind(text, v, p, i + |u|);
    AroundCopy(text, v, p);
  }

  lemma Touched(text: string, v: string, i: nat, n: nat) returns (p: nat)
    requires !Apart(text, v, i, n)
    ensures OccursAt(text, v, p) && i < p + |v| && p < i + n && p + |v| <= |text|
  {
    p :| OccursAt(text, v, p) && !(p + |v| <= i || i + n <= p);
  }

  lemma AroundCopy(text: string, v: string, p: nat)
    requires v != "" && OccursAt(text, v, p)
    ensures p + |v| <= |text|
    ensures Count(text[..p], v) + 1 + Count(text[p + |v|..], v) <= Count(text, v)
  {
    SplitAtCopy(text, v, p);
    hide Count, OccursAt;
    CountSum(text[..p], v + text[p + |v|..], v);
    CountHere(v, text[p + |v|..]);
  }

  lemma SplitAtCopy(text: string, v: string, p: nat)
    requires OccursAt(text, v, p)
    ensures p + |v| <= |text| && text == text[..p] + (v + text[p + |v|..])
  {
  }

  // ---------- All of them ----------

  /** One step: a copy goes for a finding of the value, and none comes for one of another. */
  lemma StepLeaves(input: string, findings: seq<Finding>, m: nat, v: string)
    requires Redactable(findings, v) && m < |findings|
    ensures var before := Count(Before(input, findings, m).text, v);
            var after := Count(Before(input, findings, m + 1).text, v);
            if findings[m].value == v then after == Less(before, 1) else after <= before
  {
    hide Count, ApplyAll, Apply, BracketFree, IsPlaceholder, Contains;
    var s, s', f := Before(input, findings, m), Before(input, findings, m + 1), findings[m];
    TakenOut(input, findings, m);
    hide GivesWay;
    if f.value == v {
      OneFewer(s.text, v, PlaceholderOf(f), s'.text);
    } else {
      NoMore(s.text, f.value, PlaceholderOf(f), s'.text, v);
    }
  }

  lemma TimesNext(findings: seq<Finding>, m: nat, v: string)
    requires m < |findings|
    ensures Times(findings[..m + 1], v) == Times(findings[..m], v) + if findings[m].value == v then 1 else 0
  {
    assert findings[..m + 1][..m] == findings[..m];
  }

  lemma {:induction false} AtMostBefore(input: string, findings: seq<Finding>, m: nat, v: string)
    requires Redactable(findings, v) && m <= |findings|
    ensures Count(Before(input, findings, m).text, v) <= Less(Count(input, v), Times(findings[..m], v))
    decreases m
  {
    hide Count, ApplyAll, Redactable;
    if m == 0 {
      Ends(input, findings);
      NoTimes(findings[..0], v);
    } else {
      AtMostBefore(input, findings, m - 1, v);
      StepIs(input, findings, m - 1, v);
      TimesNext(findings, m - 1, v);
    }
  }

  lemma NoTimes(findings: seq<Finding>, v: string)
    requires findings == []
    ensures Times(findings, v) == 0
  {
  }

  lemma StepIs(input: string, findings: seq<Finding>, m: nat, v: string)
    requires Redactable(findings, v) && m < |findings|
    ensures v != ""
    ensures var before := Count(Before(input, findings, m).text, v);
            var after := Count(Before(input, findings, m + 1).text, v);
            if findings[m].value == v then after == Less(before, 1) else after <= before
  {
    StepLeaves(input, findings, m, v);
  }

  /** At least one copy goes for every time the value was found, whatever else was. */
  lemma CopiesAtMost(input: string, findings: seq<Finding>, v: string)
    requires Redactable(findings, v)
    ensures v != "" && Count(ApplyAll(input, findings).text, v) <= Less(Count(input, v), Times(findings, v))
  {
    AtMostBefore(input, findings, |findings|, v);
    Ends(input, findings);
    assert findings[..|findings|] == findings;
  }

  /** More copies are gone after `m` findings than were found, or all are. */
  predicate Lost(input: string, findings: seq<Finding>, m: nat, v: string)
    requires m <= |findings| && v != ""
  {
    var left := Count(Before(input, findings, m).text, v);
    left == 0 || left + Times(findings[..m], v) < Count(input, v)
  }

  lemma {:induction false} StaysLost(input: string, findings: seq<Finding>, m: nat, n: nat, v: string)
    requires Redactable(findings, v) && m <= n <= |findings| && v != "" && Lost(input, findings, m, v)
    ensures Lost(input, findings, n, v)
    decreases n
  {
    if m < n {
      StaysLost(input, findings, m, n - 1, v);
      hide Count, ApplyAll, Redactable, Before;
      StepIs(input, findings, n - 1, v);
      TimesNext(findings, n - 1, v);
    }
  }

  /** A replacement of another value that touches a copy. */
  lemma LosesOne(input: string, findings: seq<Finding>, m: nat, i: nat, v: string)
    requires Redactable(findings, v) && m < |findings| && findings[m].value != v && v != "" && Unbordered(v)
    requires var text := Before(input, findings, m).text;
             IsFirst(text, findings[m].value, i) && !Apart(text, v, i, |findings[m].value|)
    ensures Lost(input, findings, m + 1, v)
  {
    var s, s', f := Before(input, findings, m), Before(input, findings, m + 1), findings[m];
    AtMostBefore(input, findings, m, v);
    TimesNext(findings, m, v);
    TakenOut(input, findings, m);
    hide Count, ApplyAll, Apply, Before, GivesWay, Apart, IsFirst, Unbordered, BracketFree, IsPlaceholder, Contains;
    TouchedIsLost(s.text, f.value, PlaceholderOf(f), s'.text, v, i);
  }

  /** Exactly when no more go than were found: for a value that cannot overlap itself, when it was
      found as often as it occurs, so that none is left, or no replacement of another value
      touches a copy of it. */
  lemma CopiesLeftIff(input: string, findings: seq<Finding>, v: string)
    requires Redactable(findings, v) && v != "" && Unbordered(v)
    ensures Count(ApplyAll(input, findings).text, v) == Less(Count(input, v), Times(findings, v))
       <==> Count(input, v) <= Times(findings, v) || Separate(input, findings, v)
  {
    hide Count, ApplyAll, IsFirst, Apart, Before, Unbordered, BracketFree, IsPlaceholder, Contains, NumberedApart;
    CopiesAtMost(input, findings, v);
    if Separate(input, findings, v) {
      CopiesLeft(input, findings, v);
    } else {
      var m, i: nat :| 0 <= m < |findings| && findings[m].value != v
        && IsFirst(Before(input, findings, m).text, findings[m].value, i)
        && !Apart(Before(input, findings, m).text, v, i, |findings[m].value|);
      LosesOne(input, findings, m, i, v);
      StaysLost(input, findings, m + 1, |findings|, v);
      Ends(input, findings);
      assert findings[..|findings|] == findings;
    }
  }

  // ---------- An instance ----------

  const ADDRESS := Finding(Plain, "EMAIL", "1", "an@x")
  const NAME := Finding(Plain, "PERSON_NAME", "1", "an")

  /** The name occurs twice and is found once, but the address, which is found first, holds the
      other copy: none is left. */
  lemma TouchedCopyGoes()
    ensures Count("an an@x", "an") == 2 && Times([ADDRESS, NAME], "an") == 1
    ensures Count(ApplyAll("an an@x", [ADDRESS, NAME]).text, "an") == 0
  {
    TwoCopies();
    FoundOnce();
    NameIsRedactable();
    AddressTouches();
    hide Count, Times, ApplyAll, Redactable, Unbordered, Separate;
    CopiesAtMost("an an@x", [ADDRESS, NAME], "an");
    CopiesLeftIff("an an@x", [ADDRESS, NAME], "an");
  }

  lemma TwoCopies()
    ensures Count("an an@x", "an") == 2
  {
    var v, rest := "an", "@x";
    hide Count, Contains;
    NotContained(rest, v, 'a');
    CountZero(rest, v);
    CountHere(v, rest);
    assert "an an@x" == v + ([' '] + (v + rest)) && !(v <= [' '] + (v + rest));
    CountStep(' ', v + rest, v);
    CountHere(v, [' '] + (v + rest));
  }

  lemma FoundOnce()
    ensures Times([ADDRESS, NAME], "an") == 1
  {
    assert [ADDRESS, NAME][..1] == [ADDRESS] && [ADDRESS][..0] == [];
    assert |ADDRESS.value| == 4;
    assert Times([ADDRESS], "an") == 0;
  }

  lemma Placeholders()
    ensures IsPlaceholder(PlaceholderOf(ADDRESS)) && IsPlaceholder(PlaceholderOf(NAME))
    ensures PlaceholderOf(ADDRESS) != PlaceholderOf(NAME)
    ensures 'a' !in PlaceholderOf(ADDRESS) && 'a' !in PlaceholderOf(NAME)
  {
    assert PlaceholderOf(ADDRESS)[1] != PlaceholderOf(NAME)[1];
  }

  lemma NameIsRedactable()
    ensures Redactable([ADDRESS, NAME], "an") && Unbordered("an")
  {
    Placeholders();
    hide Contains, PlaceholderOf, IsPlaceholder;
    NotContained(PlaceholderOf(ADDRESS), "an", 'a');
    NotContained(PlaceholderOf(NAME), "an", 'a');
    assert "an"[0] == 'a' && "an"[1] == 'n';
  }

  lemma FirstAddress()
    ensures IsFirst("an an@x", "an@x", 3) && !Apart("an an@x", "an", 3, 4)
  {
    var text, u := "an an@x", "an@x";
    assert text[3..7] == u && text[3..5] == "an" && text[2] !in u;
    NotInside(text, u, 0, 2);
    NotInside(text, u, 1, 2);
    NotInside(text, u, 2, 2);
    assert OccursAt(text, "an", 3);
  }

  lemma AddressTouches()
    ensures !Separate("an an@x", [ADDRESS, NAME], "an")
  {
    FirstAddress();
    Ends("an an@x", [ADDRESS, NAME]);
    hide IsFirst, Apart, Before;
    assert [ADDRESS, NAME][0] == ADDRESS && |ADDRESS.value| == 4;
  }
}
