/** pkg/sanitizer/sanitizer.go: exactly when `Rehydrate` undoes `Sanitize` on input that may
    itself spell placeholders, as text does that quotes an earlier answer. */
module SpelledPlaceholders {
  import opened Strings
  import opened Sanitizing
  import opened RoundTrip
  import opened Steps

  /** No recorded value opens a bracket. */
  ghost predicate Unopened(input: string, findings: seq<Finding>) {
    forall k | k in ApplyAll(input, findings).mapping :: '[' !in ApplyAll(input, findings).mapping[k]
  }

  lemma FinalIsProper(input: string, findings: seq<Finding>)
    requires NumberedApart(findings) && Unopened(input, findings)
    ensures Proper(ApplyAll(input, findings).mapping)
  {
    hide IsPlaceholder;
    Ends(input, findings);
    forall k | k in ApplyAll(input, findings).mapping
      ensures IsPlaceholder(k)
    {
      var i := AppliedKey(input, findings, |findings|, k);
    }
  }

  /** What the final map holds beyond the first `m` findings. */
  function Later(input: string, findings: seq<Finding>, m: nat): map<string, string>
    requires m <= |findings|
  {
    var mapping := ApplyAll(input, findings).mapping;
    map k | k in mapping && k !in Before(input, findings, m).mapping :: mapping[k]
  }

  lemma LaterKeys(input: string, findings: seq<Finding>, m: nat)
    requires NumberedApart(findings) && m <= |findings|
    ensures AllPlaceholders(Later(input, findings, m))
    ensures Extends(Later(input, findings, m), ApplyAll(input, findings).mapping)
  {
    hide IsPlaceholder, ApplyAll;
    Ends(input, findings);
    forall k | k in Later(input, findings, m)
      ensures IsPlaceholder(k)
    {
      var i := AppliedKey(input, findings, |findings|, k);
    }
  }

  /** The finding `m` is the first of the later ones. */
  lemma LaterSteps(input: string, findings: seq<Finding>, m: nat)
    requires NumberedApart(findings) && m < |findings|
    requires Applies(Before(input, findings, m), findings[m])
    ensures var k, v := PlaceholderOf(findings[m]), findings[m].value;
            && k !in Later(input, findings, m + 1)
            && k in Later(input, findings, m) && Later(input, findings, m)[k] == v
            && Extends(map[k := v], Later(input, findings, m))
    ensures Extends(Later(input, findings, m + 1), Later(input, findings, m))
  {
    hide IsPlaceholder, Applies, ReplaceFirst, ApplyAll;
    Ends(input, findings);
    NotMapped(input, findings, m);
    KeepsRecord(input, findings, |findings|, m);
    KeepsRecord(input, findings, m + 1, m);
    NextState(input, findings, m);
  }

  lemma SameLater(input: string, findings: seq<Finding>, m: nat)
    requires m < |findings| && !Applies(Before(input, findings, m), findings[m])
    ensures Later(input, findings, m + 1) == Later(input, findings, m)
  {
    NotApplied(input, findings, m);
  }

  // ---------- Last placeholder first ----------

  /** Where a placeholder goes in, it shows once, or more often when it is not fresh. */
  lemma HitsAtSeam(s: Sanitized, f: Finding)
    requires IsPlaceholder(PlaceholderOf(f)) && Applies(s, f)
    ensures var k, i := PlaceholderOf(f), Spot(s, f);
            if i <= |s.text| then
              && k != "" && OccursAt(Apply(s, f).text, k, i) && PutBack(Apply(s, f).text, i, k, f.value) == s.text
              && Hits(Apply(s, f).text, k) >= 1 && (Hits(Apply(s, f).text, k) == 1 <==> Fresh(s, f))
            else
              && k != "" && Apply(s, f).text == s.text
              && Hits(s.text, k) >= 0 && (Hits(s.text, k) == 0 <==> Fresh(s, f))
  {
    hide Applies, Apply, IsPlaceholder, Contains, Hits, Replaced;
    ApplyReplaces(s, f);
    var k, i := PlaceholderOf(f), Spot(s, f);
    if i <= |s.text| {
      var front, rest := s.text[..i], s.text[i + |f.value|..];
      AtSeam(s.text, i, f.value, k);
      Shown(front, k, rest, f.value);
      HitsAround(front, k, rest, k);
      HitsNat(front, k);
      HitsNat(rest, k);
    } else {
      HitsNat(s.text, k);
    }
  }

  /** One turn of the walk, last placeholder first: what it makes of a text that the state
      behind finding `m` leads to is led to by the state in front of it. */
  lemma TurnLeads(input: string, findings: seq<Finding>, m: nat, t: string, n: nat) returns (n': nat)
    requires NumberedApart(findings) && m < |findings|
    requires Applies(Before(input, findings, m), findings[m])
    requires Leads(Before(input, findings, m + 1).text, t, Later(input, findings, m + 1), n)
    ensures PlaceholderOf(findings[m]) != ""
    ensures Leads(Before(input, findings, m).text, ReplaceAll(t, PlaceholderOf(findings[m]), findings[m].value),
                  Later(input, findings, m), n')
    ensures if Fresh(Before(input, findings, m), findings[m]) then n' >= n else n' > n
  {
    hide IsPlaceholder, Leads, Hits, Apply, Applies, Fresh, Before, Later, ReplaceAll, PutBack, OccursAt, Extends;
    var s, f, k, v := Before(input, findings, m), findings[m], PlaceholderOf(findings[m]), findings[m].value;
    var later, later' := Later(input, findings, m + 1), Later(input, findings, m);
    NextState(input, findings, m);
    LaterKeys(input, findings, m + 1);
    LaterSteps(input, findings, m);
    HitsAtSeam(s, f);
    var s' := Apply(s, f);
    HitsKept(s'.text, t, later, n, k);
    if Spot(s, f) <= |s.text| {
      var q := Mirror(s'.text, t, later, n, k, Spot(s, f), v);
      CutAt(t, k, q);
      var g := ReplaceFrom(t, k, v, q);
      LeadsMore(s.text, PutBack(t, q, k, v), later, n, later');
      LeadsMore(PutBack(t, q, k, v), ReplaceAll(t, k, v), map[k := v], g, later');
      LeadsOn(s.text, PutBack(t, q, k, v), ReplaceAll(t, k, v), later', n, g);
      n' := n + g;
    } else {
      var g := ReplaceLeads(t, k, v);
      LeadsMore(s.text, t, later, n, later');
      LeadsMore(t, ReplaceAll(t, k, v), map[k := v], g, later');
      LeadsOn(s.text, t, ReplaceAll(t, k, v), later', n, g);
      n' := n + g;
    }
  }

  /** Not every placeholder among the first `m` was fresh. */
  ghost predicate Stale(input: string, findings: seq<Finding>, m: nat)
    requires m <= |findings|
  {
    exists j | 0 <= j < m :: !Fresh(Before(input, findings, j), findings[j])
  }

  /** The walk from finding `m` on: the input leads to what comes out. */
  lemma {:induction false} WalkLeads(input: string, findings: seq<Finding>, m: nat, t: string, n: nat)
    returns (n': nat)
    requires NumberedApart(findings) && m <= |findings|
    requires Walkable(input, findings, Backwards(input, findings, m, ""))
    requires Leads(Before(input, findings, m).text, t, Later(input, findings, m), n)
    ensures Leads(input, Walk(input, findings, t, Backwards(input, findings, m, "")),
                  ApplyAll(input, findings).mapping, n')
    ensures if Stale(input, findings, m) then n' > n else n' >= n
    decreases m
  {
    hide IsPlaceholder, Leads, Applies, Fresh, Later, ReplaceAll, ApplyAll, RehydrateIn, Extends;
    var order := Backwards(input, findings, m, "");
    if m == 0 {
      Ends(input, findings);
      LaterKeys(input, findings, 0);
      LeadsMore(input, t, Later(input, findings, 0), n, ApplyAll(input, findings).mapping);
      WalkNone(input, findings, t);
      n' := n;
    } else {
      var s, f, rest := Before(input, findings, m - 1), findings[m - 1], Backwards(input, findings, m - 1, "");
      var k, v := PlaceholderOf(f), f.value;
      assert Stale(input, findings, m) <==> Stale(input, findings, m - 1) || !Fresh(s, f);
      hide Before;
      if Applies(s, f) {
        hide Stale;
        var n1 := TurnLeads(input, findings, m - 1, t, n);
        assert order == [k] + rest;
        KeepsRecord(input, findings, |findings|, m - 1);
        Ends(input, findings);
        WalkOne(t, ReplaceAll(t, k, v), ApplyAll(input, findings).mapping, k, rest);
        n' := WalkLeads(input, findings, m - 1, ReplaceAll(t, k, v), n1);
      } else {
        assert Fresh(s, f) by {
          StaleApplies(s, f);
        }
        assert order == rest;
        NotApplied(input, findings, m - 1);
        SameLater(input, findings, m - 1);
        n' := WalkLeads(input, findings, m - 1, t, n);
      }
    }
  }

  lemma StaleApplies(s: Sanitized, f: Finding)
    ensures !Fresh(s, f) ==> Applies(s, f)
  {
  }

  lemma WalkNone(input: string, findings: seq<Finding>, text: string)
    ensures Walk(input, findings, text, []) == text
  {
  }

  /** Last placeholder first gives the input back exactly when every placeholder was fresh, not
      spelled around the place where it went in; whatever else the findings hit. */
  lemma LastFirstIff(input: string, findings: seq<Finding>)
    requires NumberedApart(findings) && Unopened(input, findings)
    ensures IsIteration(LastFirst(input, findings), ApplyAll(input, findings).mapping.Keys)
    ensures Restored(input, findings, LastFirst(input, findings)) == input <==> AllFresh(input, findings)
  {
    hide Fresh, Leads, IsPlaceholder;
    LastFirstIterates(input, findings);
    if AllFresh(input, findings) {
      LastFirstRestores(input, findings);
    } else {
      var n, s := |findings|, ApplyAll(input, findings);
      Ends(input, findings);
      FinalIsProper(input, findings);
      NoSteps(s.text, Later(input, findings, n));
      assert Stale(input, findings, n);
      hide ApplyAll, AllFresh, Proper, NumberedApart, Before;
      var steps := WalkLeads(input, findings, n, s.text, 0);
      LeadsDown(input, Restored(input, findings, LastFirst(input, findings)), s.mapping, steps);
    }
  }

  // ---------- A placeholder that was hit ----------

  /** One turn of a walk that leads to the state behind finding `m`: it leads on to the one in front. */
  lemma TurnBelow(input: string, findings: seq<Finding>, m: nat, t: string, n: nat) returns (n': nat)
    requires NumberedApart(findings) && m < |findings|
    requires Applies(Before(input, findings, m), findings[m]) && Fresh(Before(input, findings, m), findings[m])
    requires Leads(t, Before(input, findings, m + 1).text, Later(input, findings, m + 1), n)
    ensures PlaceholderOf(findings[m]) != "" && n' >= n
    ensures Leads(ReplaceAll(t, PlaceholderOf(findings[m]), findings[m].value), Before(input, findings, m).text,
                  Later(input, findings, m), n')
  {
    hide IsPlaceholder, Leads, Hits, Apply, Applies, Fresh, Before, Later, ReplaceAll, PutBack, OccursAt, Extends,
         Contains, Once;
    var s, f, k, v := Before(input, findings, m), findings[m], PlaceholderOf(findings[m]), findings[m].value;
    var later, later' := Later(input, findings, m + 1), Later(input, findings, m);
    NextState(input, findings, m);
    LaterKeys(input, findings, m + 1);
    LaterSteps(input, findings, m);
    HitsAtSeam(s, f);
    var s', i := Apply(s, f), Spot(s, f);
    HitsKept(t, s'.text, later, n, k);
    HitsNat(t, k);
    LeadsMore(t, s'.text, later, n, later');
    if Contains(t, k) {
      var p := WhereShown(t, k);
      OnlyHit(t, k, p, v);
      var q := Mirror(t, s'.text, later, n, k, p, v);
      OnlyHit(s'.text, k, i, v);
      SameSpot(s'.text, k, i, q);
      LeadsMore(PutBack(t, p, k, v), s.text, later, n, later');
      n' := n;
    } else {
      NoReplace(t, k, v);
      n' := n;
      if i <= |s.text| {
        OneStep(s'.text, k, i, later');
        LeadsOn(t, s'.text, s.text, later', n, 1);
        n' := n + 1;
      }
    }
  }

  lemma WhereShown(text: string, k: string) returns (p: nat)
    requires Contains(text, k)
    ensures OccursAt(text, k, p)
  {
    p :| p <= |text| && OccursAt(text, k, p);
  }

  lemma SameSpot(text: string, k: string, p: nat, q: nat)
    requires Once(text, k) && OccursAt(text, k, p) && OccursAt(text, k, q)
    ensures p == q
  {
  }

  /** The walk from finding `m` on, without one placeholder: what comes out leads to the input. */
  lemma {:induction false} WalkBelow(input: string, findings: seq<Finding>, m: nat, t: string, n: nat, skip: string)
    returns (n': nat)
    requires NumberedApart(findings) && AllFresh(input, findings) && m <= |findings|
    requires forall i | 0 <= i < m :: PlaceholderOf(findings[i]) != skip
    requires Walkable(input, findings, Backwards(input, findings, m, skip))
    requires Leads(t, Before(input, findings, m).text, Later(input, findings, m), n)
    ensures Leads(Walk(input, findings, t, Backwards(input, findings, m, skip)), input,
                  ApplyAll(input, findings).mapping, n')
    ensures n' >= n
    decreases m
  {
    hide IsPlaceholder, Leads, Applies, Fresh, Later, ReplaceAll, ApplyAll, RehydrateIn, Extends;
    var order := Backwards(input, findings, m, skip);
    if m == 0 {
      Ends(input, findings);
      LaterKeys(input, findings, 0);
      LeadsMore(t, input, Later(input, findings, 0), n, ApplyAll(input, findings).mapping);
      WalkNone(input, findings, t);
      n' := n;
    } else {
      var s, f, rest := Before(input, findings, m - 1), findings[m - 1], Backwards(input, findings, m - 1, skip);
      var k, v := PlaceholderOf(f), f.value;
      hide Before;
      if Applies(s, f) {
        var n1 := TurnBelow(input, findings, m - 1, t, n);
        assert order == [k] + rest;
        KeepsRecord(input, findings, |findings|, m - 1);
        Ends(input, findings);
        WalkOne(t, ReplaceAll(t, k, v), ApplyAll(input, findings).mapping, k, rest);
        n' := WalkBelow(input, findings, m - 1, ReplaceAll(t, k, v), n1, skip);
      } else {
        assert order == rest;
        NotApplied(input, findings, m - 1);
        SameLater(input, findings, m - 1);
        n' := WalkBelow(input, findings, m - 1, t, n, skip);
      }
    }
  }

  /** The step that put a placeholder in, seen from behind. */
  lemma StepOf(input: string, findings: seq<Finding>, h: nat, j: nat)
    requires NumberedApart(findings) && AllFresh(input, findings) && h < j <= |findings|
    requires Applies(Before(input, findings, h), findings[h])
    requires Contains(Before(input, findings, j).text, PlaceholderOf(findings[h]))
    ensures Leads(Before(input, findings, h + 1).text, Before(input, findings, h).text, Later(input, findings, h), 1)
  {
    hide IsPlaceholder, Leads, Hits, Apply, Applies, Fresh, Before, Later, Contains, PutBack, Extends;
    var s, f := Before(input, findings, h), findings[h];
    NextState(input, findings, h);
    LaterSteps(input, findings, h);
    HitsAtSeam(s, f);
    assert Fresh(s, f);
    if Spot(s, f) > |s.text| {
      HitsNat(s.text, PlaceholderOf(f));
      GoneForGood(input, findings, h + 1, j, h);
    }
    OneStep(Apply(s, f).text, PlaceholderOf(f), Spot(s, f), Later(input, findings, h));
  }

  /** A replacement that hits an earlier placeholder: walk the destroyed one first. */
  lemma HitFails(input: string, findings: seq<Finding>, j: nat) returns (order: seq<string>)
    requires NumberedApart(findings) && Unopened(input, findings) && AllFresh(input, findings) && j < |findings|
    requires !Clear(Before(input, findings, j), findings[j])
    ensures IsIteration(order, ApplyAll(input, findings).mapping.Keys)
    ensures Restored(input, findings, order) != input
  {
    hide Clear, Contains, ReplaceAll, IsPlaceholder, Leads;
    var n, s := |findings|, ApplyAll(input, findings);
    Ends(input, findings);
    var h := Destroyed(input, findings, j);
    var k := PlaceholderOf(findings[h]);
    StepOf(input, findings, h, j);
    order := DestroyedFirst(input, findings, h);
    FinalIsProper(input, findings);
    forall i | h + 1 <= i < n
      ensures PlaceholderOf(findings[i]) != k
    {
    }
    forall i | 0 <= i < h
      ensures PlaceholderOf(findings[i]) != k
    {
    }
    assert Backwards(input, findings, h + 1, k) == Backwards(input, findings, h, k) by {
      assert [] + Backwards(input, findings, h, k) == Backwards(input, findings, h, k);
    }
    hide ApplyAll, Before, Backwards, PlaceholderOf, NumberedApart, AllFresh, Proper;
    WalkBack(input, findings, n, h + 1, k);
    var steps := WalkBelow(input, findings, h, Before(input, findings, h + 1).text, 1, k);
    LeadsDown(Restored(input, findings, order), input, s.mapping, steps);
  }

  /** Walking a placeholder first that is not in the text any more. */
  lemma DestroyedFirst(input: string, findings: seq<Finding>, h: nat) returns (order: seq<string>)
    requires NumberedApart(findings) && h < |findings| && Applies(Before(input, findings, h), findings[h])
    requires !Contains(ApplyAll(input, findings).text, PlaceholderOf(findings[h]))
    ensures var rest := Backwards(input, findings, |findings|, PlaceholderOf(findings[h]));
            && order == [PlaceholderOf(findings[h])] + rest
            && IsIteration(order, ApplyAll(input, findings).mapping.Keys)
            && Walkable(input, findings, rest)
            && Restored(input, findings, order) == Walk(input, findings, ApplyAll(input, findings).text, rest)
  {
    var n, k, s := |findings|, PlaceholderOf(findings[h]), ApplyAll(input, findings);
    hide Contains, ReplaceAll, IsPlaceholder, Applies;
    Ends(input, findings);
    KeepsRecord(input, findings, n, h);
    BackwardsKeys(input, findings, n, k);
    NoEmptyKey(input, findings);
    var rest := Backwards(input, findings, n, k);
    order := [k] + rest;
    hide ApplyAll, Before, Backwards, PlaceholderOf;
    FirstKey(k, rest, s.mapping.Keys - {k});
    assert s.mapping.Keys == (s.mapping.Keys - {k}) + {k};
    NoReplace(s.text, k, s.mapping[k]);
    WalkOne(s.text, s.text, s.mapping, k, rest);
  }

  // ---------- A copy that touches nothing ----------

  /** Filling holes adds no bracket, and takes one away where literal text spells the placeholder. */
  lemma {:induction false} FillOpens(d: Doc, key: string, mapping: map<string, string>)
    requires WellFormed(d) && Recorded(d, mapping) && Proper(mapping) && key in mapping
    ensures key != ""
    ensures Opens(Original(Fill(d, key, mapping[key]))) <= Opens(Original(d))
    ensures Mute(d, key) || Opens(Original(Fill(d, key, mapping[key]))) < Opens(Original(d))
  {
    hide Contains, ReplaceAll, IsPlaceholder, Hits, Opens;
    Brackets(key);
    var v := mapping[key];
    match d
    case End(t) =>
      OpensReplaced(t, key, v);
      HitsNat(t, key);
    case Hole(b, k, o, r) =>
      FillOpens(r, key, mapping);
      OpensReplaced(b, key, v);
      HitsNat(b, key);
      var b', f := ReplaceAll(b, key, v), Fill(r, key, v);
      PrependDoc(b' + v, f);
      Regroup(b', o, Original(f));
      OpensJoin(b', o + Original(f));
      OpensJoin(o, Original(f));
      OpensJoin(b, o + Original(r));
      OpensJoin(o, Original(r));
  }

  /** No walk adds a bracket to what the document stands for. */
  lemma {:induction false} WalkOpens(d: Doc, mapping: map<string, string>, order: seq<string>, keys: set<string>)
    requires WellFormed(d) && Recorded(d, mapping) && Proper(mapping)
    requires IsIteration(order, keys) && Keys(d) <= keys <= mapping.Keys
    requires forall k | k in order :: k in mapping && k != ""
    ensures Opens(RehydrateIn(Render(d), mapping, order)) <= Opens(Original(d))
    decreases |order|
  {
    hide IsPlaceholder, Opens, ReplaceAll;
    if order == [] {
      assert keys == {};
      NoHoles(d);
    } else {
      RestIteration(order, keys);
      var key := order[0];
      ReplaceFills(d, key, mapping[key]);
      FillKeeps(d, key, mapping);
      FillOpens(d, key, mapping);
      assert forall k | k in order[1..] :: k in order;
      hide IsIteration, Recorded, WellFormed, Keys, Fill, Original, Render, Proper, Mute;
      WalkOpens(Fill(d, key, mapping[key]), mapping, order[1..], keys - {key});
    }
  }

  /** With one placeholder left, the stretches are the literal texts. */
  lemma {:induction false} LastStretches(d: Doc, key: string)
    requires Keys(d) <= {key} && Mute(d, key)
    ensures Lone("", d, key)
  {
    hide Contains;
    match d
    case End(t) =>
      assert "" + t == t;
    case Hole(b, k, o, r) =>
      assert k in Keys(d) && "" + b == b;
      LastStretches(r, key);
  }

  /** A placeholder walked last that has a copy beside what it replaced takes the copy along. */
  lemma {:induction false} WalkTakesCopy(d: Doc, mapping: map<string, string>, rest: seq<string>, keys: set<string>,
        k: string)
    requires WellFormed(d) && Recorded(d, mapping) && Proper(mapping)
    requires IsIteration(rest + [k], keys) && Keys(d) <= keys <= mapping.Keys
    requires forall x | x in rest + [k] :: x in mapping && x != ""
    requires !Lone("", d, k)
    ensures Opens(RehydrateIn(Render(d), mapping, rest + [k])) < Opens(Original(d))
    decreases |rest|
  {
    hide IsPlaceholder, Opens, ReplaceAll, Lone;
    var order := rest + [k];
    var key, keys' := order[0], keys - {order[0]};
    RestIteration(order, keys);
    var f := Fill(d, key, mapping[key]);
    ReplaceFills(d, key, mapping[key]);
    FillKeeps(d, key, mapping);
    FillOpens(d, key, mapping);
    assert forall x | x in order[1..] :: x in order;
    if rest == [] {
      assert order[1..] == [] && key == k;
      hide IsIteration, Proper, Mute, Recorded, WellFormed, Original, Render, Fill;
      OnlyKey(order, keys, k);
      NoHoles(f);
      CopyIsSpelled(d, k);
    } else if Mute(d, key) {
      assert order[1..] == rest[1..] + [k];
      assert k in order[1..];
      FillLone("", d, key, mapping, k);
      hide IsIteration, Proper, Mute, Recorded, WellFormed, Original, Render, Fill, Keys;
      WalkTakesCopy(f, mapping, rest[1..], keys', k);
    } else {
      hide IsIteration, Proper, Mute, Recorded, WellFormed, Original, Render, Fill, Keys;
      WalkOpens(f, mapping, order[1..], keys');
    }
  }

  lemma OnlyKey(order: seq<string>, keys: set<string>, k: string)
    requires IsIteration(order, keys) && order == [k]
    ensures keys == {k}
  {
    assert forall x | x in keys :: x in order;
  }

  lemma CopyIsSpelled(d: Doc, k: string)
    requires Keys(d) <= {k} && !Lone("", d, k)
    ensures !Mute(d, k)
  {
    if Mute(d, k) {
      LastStretches(d, k);
    }
  }

  /** A copy of a placeholder that does not touch what it replaced: walk that placeholder last. */
  lemma CopyFails(input: string, findings: seq<Finding>, k: string) returns (order: seq<string>)
    requires NumberedApart(findings) && Unopened(input, findings) && AllFaithful(input, findings)
    requires k in ApplyAll(input, findings).mapping && !Lone("", DocOf(input, findings), k)
    ensures IsIteration(order, ApplyAll(input, findings).mapping.Keys)
    ensures Restored(input, findings, order) != input
  {
    hide Contains, IsPlaceholder, Lone, Opens;
    var s, d, n := ApplyAll(input, findings), DocOf(input, findings), |findings|;
    Ends(input, findings);
    NoEmptyKey(input, findings);
    BackwardsKeys(input, findings, n, k);
    var rest := Backwards(input, findings, n, k);
    order := rest + [k];
    FinalIsProper(input, findings);
    SanitizedRepresents(input, findings);
    RecordedKeys(d, s.mapping);
    hide ApplyAll, Before, Backwards, DocOf, NumberedApart, AllFaithful, Unopened, Proper, WellFormed, Recorded;
    LastKey(k, rest, s.mapping.Keys);
    WalkTakesCopy(d, s.mapping, rest, s.mapping.Keys, k);
    RestoredMeans(input, findings, order);
  }

  lemma LastKey(k: string, rest: seq<string>, keys: set<string>)
    requires IsIteration(rest, keys - {k}) && k in keys
    ensures IsIteration(rest + [k], keys)
  {
    assert keys == (keys - {k}) + {k};
  }

  // ---------- Exactly when ----------

  /** Exactly when rehydrating undoes sanitizing in every iteration order: when no replacement
      hits an earlier placeholder, and every copy of a recorded placeholder that the input
      spells touches the very piece which that placeholder replaced.  For values that open no
      bracket on any input, and for any values on an input that spells no placeholder. */
  lemma RestoresIff(input: string, findings: seq<Finding>)
    requires NumberedApart(findings) && (Unopened(input, findings) || Unmarked(input, findings))
    ensures AlwaysRestores(input, findings) <==> AllClear(input, findings) && AllLone(input, findings)
  {
    hide NumberedApart, Unopened, Unmarked, AlwaysRestores, AllClear, AllLone;
    if AllClear(input, findings) {
      NumberedIsFaithful(input, findings);
    }
    if Unmarked(input, findings) {
      RoundTripIff(input, findings);
      if AllClear(input, findings) {
        UnmarkedIsLone(input, findings);
      }
    } else {
      if AllClear(input, findings) && AllLone(input, findings) {
        LoneRestores(input, findings);
      }
      if AlwaysRestores(input, findings) {
        RestoredIsClear(input, findings);
        RestoredIsLone(input, findings);
      }
    }
  }

  lemma LoneRestores(input: string, findings: seq<Finding>)
    requires AllFaithful(input, findings) && AllLone(input, findings)
    ensures AlwaysRestores(input, findings)
  {
    hide AllFaithful, AllLone, Restored;
    forall order | IsIteration(order, ApplyAll(input, findings).mapping.Keys)
      ensures Restored(input, findings, order) == input
    {
      RehydrateUndoesSanitize(input, findings, order);
      RestoredMeans(input, findings, order);
    }
  }

  lemma RestoredIsClear(input: string, findings: seq<Finding>)
    requires NumberedApart(findings) && Unopened(input, findings) && AlwaysRestores(input, findings)
    ensures AllFresh(input, findings) && AllClear(input, findings)
  {
    hide NumberedApart, Unopened, Clear, Restored, AllFresh;
    LastFirstIff(input, findings);
    forall j | 0 <= j < |findings|
      ensures Clear(ApplyAll(input, findings[..j]), findings[j])
    {
      if !Clear(Before(input, findings, j), findings[j]) {
        var order := HitFails(input, findings, j);
      }
    }
  }

  lemma RestoredIsLone(input: string, findings: seq<Finding>)
    requires NumberedApart(findings) && Unopened(input, findings) && AlwaysRestores(input, findings)
    ensures AllLone(input, findings)
  {
    hide NumberedApart, Unopened, AllClear, Restored, Lone;
    RestoredIsClear(input, findings);
    NumberedIsFaithful(input, findings);
    forall k | k in ApplyAll(input, findings).mapping
      ensures Lone("", DocOf(input, findings), k)
    {
      if !Lone("", DocOf(input, findings), k) {
        var order := CopyFails(input, findings, k);
      }
    }
  }

  // ---------- When no replacement hits any copy ----------

  /** What is replaced touches no placeholder of the final map, recorded or spelled. */
  ghost predicate Untouched(mapping: map<string, string>, s: Sanitized, f: Finding) {
    Applies(s, f) && Spot(s, f) <= |s.text| ==> forall k | k in mapping :: Apart(s.text, k, Spot(s, f), |f.value|)
  }

  ghost predicate AllUntouched(input: string, findings: seq<Finding>) {
    forall i | 0 <= i < |findings| ::
      Untouched(ApplyAll(input, findings).mapping, Before(input, findings, i), findings[i])
  }

  /** A copy that is not touched stays, in front of the replacement or behind it. */
  lemma CopyStays(s: Sanitized, f: Finding, k: string)
    requires IsPlaceholder(k) && Contains(s.text, k)
    requires Applies(s, f) && Spot(s, f) <= |s.text| ==> Apart(s.text, k, Spot(s, f), |f.value|)
    ensures Contains(Apply(s, f).text, k)
    ensures k == PlaceholderOf(f) && Applies(s, f) ==> !Fresh(s, f)
  {
    hide Applies, Apply, IsPlaceholder, Contains, Replaced, OccursAt, Apart;
    ApplyReplaces(s, f);
    if Applies(s, f) && Spot(s, f) <= |s.text| {
      AtSeam(s.text, Spot(s, f), f.value, PlaceholderOf(f));
      CopyAside(s.text, Spot(s, f), f.value, PlaceholderOf(f), k);
    }
  }

  lemma CopyAside(text: string, i: nat, v: string, key: string, k: string)
    requires Contains(text, k) && Apart(text, k, i, |v|) && i + |v| <= |text|
    ensures Contains(text[..i], k) || Contains(text[i + |v|..], k)
    ensures Contains(text[..i] + (key + text[i + |v|..]), k)
  {
    var p := WhereShown(text, k);
    var front, rest := text[..i], text[i + |v|..];
    assert text[0..i] == front && text[i + |v|..|text|] == rest;
    hide Contains, OccursAt;
    if p + |k| <= i {
      InPart(text, k, p, 0, i);
      ContainsAt(front, k, p);
      ContainsInFront(front, key + rest, k);
    } else {
      assert i + |v| <= p;
      InText(text, k, p);
      InPart(text, k, p, i + |v|, |text|);
      ContainsAt(rest, k, p - i - |v|);
      ContainsBehind(key, rest, k);
      ContainsBehind(front, key + rest, k);
    }
  }

  lemma InText(text: string, k: string, p: nat)
    requires OccursAt(text, k, p)
    ensures p + |k| <= |text|
  {
  }

  lemma ContainsInFront(text: string, rest: string, k: string)
    requires Contains(text, k)
    ensures Contains(text + rest, k)
  {
    ContainsInMiddle("", text, rest);
    assert "" + text + rest == text + rest;
    ContainsTransitive(text + rest, text, k);
  }

  lemma {:induction false} CopyReaches(input: string, findings: seq<Finding>, m: nat, k: string)
    requires AllUntouched(input, findings) && m <= |findings|
    requires IsPlaceholder(k) && k in ApplyAll(input, findings).mapping && Contains(input, k)
    ensures Contains(Before(input, findings, m).text, k)
  {
    hide Applies, Apply, IsPlaceholder, Contains, Apart, Fresh;
    if m == 0 {
      Ends(input, findings);
    } else {
      CopyReaches(input, findings, m - 1, k);
      NextState(input, findings, m - 1);
      assert Untouched(ApplyAll(input, findings).mapping, Before(input, findings, m - 1), findings[m - 1]);
      CopyStays(Before(input, findings, m - 1), findings[m - 1], k);
    }
  }

  /** Then every placeholder is fresh exactly when the input spells none. */
  lemma UntouchedFresh(input: string, findings: seq<Finding>)
    requires NumberedApart(findings) && AllUntouched(input, findings)
    ensures AllFresh(input, findings) <==> Unmarked(input, findings)
  {
    hide IsPlaceholder, Fresh, Contains, Applies, Apart;
    if Unmarked(input, findings) {
      UnmarkedIsFresh(input, findings);
    } else {
      var k :| k in ApplyAll(input, findings).mapping && Contains(input, k);
      Ends(input, findings);
      var h := AppliedKey(input, findings, |findings|, k);
      CopyReaches(input, findings, h, k);
      assert Untouched(ApplyAll(input, findings).mapping, Before(input, findings, h), findings[h]);
      CopyStays(Before(input, findings, h), findings[h], k);
    }
  }

  /** When no replacement touches a placeholder, recorded or spelled, the round trip in every
      order is safe exactly when the input spells none of the recorded placeholders. */
  lemma SpelledIff(input: string, findings: seq<Finding>)
    requires NumberedApart(findings) && Unopened(input, findings) && AllUntouched(input, findings)
    ensures AlwaysRestores(input, findings) <==> Unmarked(input, findings)
  {
    hide NumberedApart, Unopened, Applies, Apart, Restored, Fresh;
    UntouchedFresh(input, findings);
    if AlwaysRestores(input, findings) {
      LastFirstIff(input, findings);
    }
    if Unmarked(input, findings) {
      UntouchedIsClear(input, findings);
      RoundTripIff(input, findings);
    }
  }

  lemma UntouchedIsClear(input: string, findings: seq<Finding>)
    requires NumberedApart(findings) && AllUntouched(input, findings)
    ensures AllClear(input, findings)
  {
    hide Applies, Apart, IsPlaceholder;
    forall i | 0 <= i < |findings|
      ensures Clear(ApplyAll(input, findings[..i]), findings[i])
    {
      assert Untouched(ApplyAll(input, findings).mapping, Before(input, findings, i), findings[i]);
      forall k | k in Before(input, findings, i).mapping
        ensures k in ApplyAll(input, findings).mapping
      {
        var h := AppliedKey(input, findings, i, k);
        KeepsRecord(input, findings, |findings|, h);
        Ends(input, findings);
      }
    }
  }

  /** Values without brackets that start outside every bracket of the text touch no placeholder. */
  lemma PlacedIsUntouched(input: string, findings: seq<Finding>)
    requires NumberedApart(findings) && AllPlaced(input, findings)
    requires forall i | 0 <= i < |findings| :: findings[i].value != ""
    ensures AllUntouched(input, findings)
  {
    hide Applies, Apart, IsPlaceholder, Outside, BracketFree;
    forall i | 0 <= i < |findings|
      ensures Untouched(ApplyAll(input, findings).mapping, Before(input, findings, i), findings[i])
    {
      var s, f := Before(input, findings, i), findings[i];
      assert Placed(s, f);
      if Applies(s, f) && Spot(s, f) <= |s.text| {
        Ends(input, findings);
        forall k | k in ApplyAll(input, findings).mapping
          ensures Apart(s.text, k, Spot(s, f), |f.value|)
        {
          var h := AppliedKey(input, findings, |findings|, k);
          OutsideIsApart(s.text, Spot(s, f), f.value, k);
        }
      }
    }
  }

  /** For values that are found outside all brackets: exactly the inputs that spell no recorded
      placeholder come back. */
  lemma PlacedIff(input: string, findings: seq<Finding>)
    requires NumberedApart(findings) && AllPlaced(input, findings)
    requires forall i | 0 <= i < |findings| :: findings[i].value != "" && BracketFree(findings[i].value)
    ensures AlwaysRestores(input, findings) <==> Unmarked(input, findings)
  {
    hide NumberedApart, Placed, AlwaysRestores, Unmarked, AllUntouched;
    PlacedIsUntouched(input, findings);
    Ends(input, findings);
    forall k | k in ApplyAll(input, findings).mapping
      ensures '[' !in ApplyAll(input, findings).mapping[k]
    {
      var h := AppliedKey(input, findings, |findings|, k);
      KeepsRecord(input, findings, |findings|, h);
    }
    SpelledIff(input, findings);
  }
}
