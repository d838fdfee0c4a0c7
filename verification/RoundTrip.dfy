/** pkg/sanitizer/sanitizer.go: exactly when `Rehydrate` undoes `Sanitize`, over every order in
    which the map can be walked. */
module RoundTrip {
  import opened Strings
  import opened Sanitizing

  // ---------- Exactly when rehydrating undoes sanitizing ----------

  function Replaced(text: string, i: nat, n: nat, key: string): string
    requires i + n <= |text|
  {
    text[..i] + key + text[i + n..]
  }

  /** After a replacement a placeholder shows at the seam, or where it showed before. */
  lemma Seam(text: string, i: nat, n: nat, key: string, k: string, p: nat)
    requires i + n <= |text| && IsPlaceholder(key) && IsPlaceholder(k)
    requires OccursAt(Replaced(text, i, n, key), k, p)
    ensures || (k == key && p == i)
            || (p + |k| <= i && OccursAt(text, k, p))
            || (p >= i + |key| && OccursAt(text, k, p - |key| + n))
  {
    var after := Replaced(text, i, n, key);
    assert OccursAt(after, key, i) by {
      assert after[i..i + |key|] == key;
    }
    NoOverlap(after, k, p, key, i);
    hide Replaced, OccursAt, IsPlaceholder;
    if p + |k| <= i {
      InFront(text, i, n, key, k, p);
    } else if p >= i + |key| {
      Behind(text, i, n, key, k, p);
    }
  }

  lemma InFront(text: string, i: nat, n: nat, key: string, k: string, p: nat)
    requires i + n <= |text| && p + |k| <= i && OccursAt(Replaced(text, i, n, key), k, p)
    ensures OccursAt(text, k, p)
  {
    assert Replaced(text, i, n, key)[p..p + |k|] == text[p..p + |k|];
  }

  lemma Behind(text: string, i: nat, n: nat, key: string, k: string, p: nat)
    requires i + n <= |text| && p >= i + |key| && OccursAt(Replaced(text, i, n, key), k, p)
    ensures OccursAt(text, k, p - |key| + n)
  {
    var rest := text[i + n..];
    assert text == text[..i + n] + rest;
    ShiftOccurrence(text[..i] + key, rest, k, p - i - |key|);
    ShiftOccurrence(text[..i + n], rest, k, p - i - |key|);
  }

  lemma AtSeam(text: string, i: nat, v: string, key: string)
    requires OccursAt(text, v, i)
    ensures var front, rest := text[..i], text[i + |v|..];
            text == front + (v + rest) && Replaced(text, i, |v|, key) == front + (key + rest)
  {
  }

  lemma UndoParts(front: string, v: string, rest: string, key: string)
    requires IsPlaceholder(key) && !Contains(front, key) && !Contains(rest, key)
    ensures ReplaceAll(front + (key + rest), key, v) == front + (v + rest)
  {
    hide Contains, ReplaceAll;
    LiteralPasses(front, key, rest, key, v);
    ReplacePrefix(rest, key, v);
    NoReplace(rest, key, v);
  }

  /** Where a finding's value is first found, or behind the text. */
  function Spot(s: Sanitized, f: Finding): (i: nat)
    ensures i <= |s.text| ==> OccursAt(s.text, f.value, i)
  {
    IndexFrom(s.text, f.value, 0)
  }

  /** When the placeholder goes in, the text in front of the replaced piece and the text behind
      it do not spell it. */
  ghost predicate Fresh(s: Sanitized, f: Finding) {
    Applies(s, f) ==>
      var i := Spot(s, f);
      if i <= |s.text| then
        !Contains(s.text[..i], PlaceholderOf(f)) && !Contains(s.text[i + |f.value|..], PlaceholderOf(f))
      else !Contains(s.text, PlaceholderOf(f))
  }

  /** The state in front of finding `m`. */
  function Before(input: string, findings: seq<Finding>, m: nat): Sanitized
    requires m <= |findings|
  {
    ApplyAll(input, findings[..m])
  }

  lemma NextState(input: string, findings: seq<Finding>, m: nat)
    requires m < |findings|
    ensures Before(input, findings, m + 1) == Apply(Before(input, findings, m), findings[m])
  {
    assert findings[..m + 1][..m] == findings[..m];
  }

  ghost predicate AllFresh(input: string, findings: seq<Finding>) {
    forall m | 0 <= m < |findings| :: Fresh(Before(input, findings, m), findings[m])
  }

  lemma ApplyReplaces(s: Sanitized, f: Finding)
    ensures var i := Spot(s, f);
            if Applies(s, f) && i <= |s.text|
            then i + |f.value| <= |s.text| && Apply(s, f).text == Replaced(s.text, i, |f.value|, PlaceholderOf(f))
            else Apply(s, f).text == s.text
  {
    hide Applies;
  }

  /** Once a placeholder is not in the text, only its own finding puts it there. */
  lemma StaysGone(s: Sanitized, f: Finding, k: string)
    requires IsPlaceholder(PlaceholderOf(f)) && IsPlaceholder(k) && k != PlaceholderOf(f)
    requires !Contains(s.text, k)
    ensures !Contains(Apply(s, f).text, k)
  {
    hide Apply, IsPlaceholder, Applies;
    ApplyReplaces(s, f);
    var i := Spot(s, f);
    if Applies(s, f) && i <= |s.text| {
      NoOccurrence(s.text, k);
      var after := Apply(s, f).text;
      forall p: nat | p <= |after|
        ensures !OccursAt(after, k, p)
      {
        if OccursAt(after, k, p) {
          var q := OldSpot(s.text, i, |f.value|, PlaceholderOf(f), k, p);
        }
      }
    }
  }

  ghost predicate Once(text: string, k: string) {
    forall p: nat, q: nat | OccursAt(text, k, p) && OccursAt(text, k, q) :: p == q
  }

  lemma NoOccurrence(text: string, k: string)
    requires !Contains(text, k)
    ensures forall p: nat :: !OccursAt(text, k, p)
  {
    forall p: nat
      ensures !OccursAt(text, k, p)
    {
      if OccursAt(text, k, p) {
        ContainsAt(text, k, p);
      }
    }
  }

  lemma NoneIsOnce(text: string, k: string)
    requires !Contains(text, k)
    ensures Once(text, k)
  {
    NoOccurrence(text, k);
  }

  /** Where an older placeholder was in front of the replacement. */
  lemma OldSpot(text: string, i: nat, n: nat, key: string, k: string, p: nat) returns (q: nat)
    requires i + n <= |text| && IsPlaceholder(key) && IsPlaceholder(k) && k != key
    requires OccursAt(Replaced(text, i, n, key), k, p)
    ensures OccursAt(text, k, q)
    ensures (p < i && q == p) || (p >= i + |key| && q == p - |key| + n)
  {
    Brackets(k);
    hide IsPlaceholder, OccursAt, Replaced;
    Seam(text, i, n, key, k, p);
    q := if p + |k| <= i then p else p - |key| + n;
  }

  lemma StaysOnce(s: Sanitized, f: Finding, k: string)
    requires IsPlaceholder(PlaceholderOf(f)) && IsPlaceholder(k) && Once(s.text, k) && k != PlaceholderOf(f)
    ensures Once(Apply(s, f).text, k)
  {
    hide Applies, Apply, IsPlaceholder, OccursAt, Replaced;
    ApplyReplaces(s, f);
    var i := Spot(s, f);
    if Applies(s, f) && i <= |s.text| {
      var after, n, key := Apply(s, f).text, |f.value|, PlaceholderOf(f);
      forall p: nat, q: nat | OccursAt(after, k, p) && OccursAt(after, k, q)
        ensures p == q
      {
        var p' := OldSpot(s.text, i, n, key, k, p);
        var q' := OldSpot(s.text, i, n, key, k, q);
      }
    }
  }

  /** A fresh placeholder shows at the seam only. */
  lemma OnlyAtSeam(text: string, i: nat, n: nat, key: string, p: nat)
    requires i + n <= |text| && IsPlaceholder(key) && !Contains(text[..i], key) && !Contains(text[i + n..], key)
    requires OccursAt(Replaced(text, i, n, key), key, p)
    ensures p == i
  {
    Brackets(key);
    hide IsPlaceholder, Contains, OccursAt;
    Seam(text, i, n, key, key, p);
    assert text[0..i] == text[..i] && text[i + n..|text|] == text[i + n..];
    if p + |key| <= i {
      NotInPart(text, key, p, 0, i);
    } else if p >= i + |key| {
      NotInPart(text, key, p - |key| + n, i + n, |text|);
    }
  }

  lemma NotInPart(text: string, k: string, p: nat, from: nat, to: nat)
    requires from <= p && p + |k| <= to <= |text| && !Contains(text[from..to], k)
    ensures !OccursAt(text, k, p)
  {
    InPart(text, k, p, from, to);
    NoOccurrence(text[from..to], k);
  }

  lemma InPart(text: string, k: string, p: nat, from: nat, to: nat)
    requires from <= p && p + |k| <= to <= |text|
    ensures OccursAt(text, k, p) <==> OccursAt(text[from..to], k, p - from)
  {
    assert text[..to][p..p + |k|] == text[p..p + |k|];
    assert text[..to] == text[..from] + text[from..to];
    ShiftOccurrence(text[..from], text[from..to], k, p - from);
  }

  lemma FreshIsOnce(s: Sanitized, f: Finding)
    requires IsPlaceholder(PlaceholderOf(f)) && Applies(s, f) && Fresh(s, f)
    ensures Once(Apply(s, f).text, PlaceholderOf(f))
    ensures Spot(s, f) > |s.text| ==> !Contains(Apply(s, f).text, PlaceholderOf(f))
  {
    hide Applies, Apply, IsPlaceholder, Contains, Replaced, OccursAt;
    ApplyReplaces(s, f);
    var i, k, after := Spot(s, f), PlaceholderOf(f), Apply(s, f).text;
    if i <= |s.text| {
      forall p: nat, q: nat | OccursAt(after, k, p) && OccursAt(after, k, q)
        ensures p == q
      {
        OnlyAtSeam(s.text, i, |f.value|, k, p);
        OnlyAtSeam(s.text, i, |f.value|, k, q);
      }
    } else {
      NoneIsOnce(s.text, k);
    }
  }

  /** From its own finding on a fresh placeholder shows at most once. */
  lemma {:induction false} ShowsOnce(input: string, findings: seq<Finding>, m: nat, j: nat)
    requires NumberedApart(findings) && AllFresh(input, findings) && j < m <= |findings|
    requires Applies(Before(input, findings, j), findings[j])
    ensures Once(Before(input, findings, m).text, PlaceholderOf(findings[j]))
  {
    hide IsPlaceholder, Fresh, Once, Apply, Applies;
    NextState(input, findings, m - 1);
    if m == j + 1 {
      FreshIsOnce(Before(input, findings, j), findings[j]);
    } else {
      ShowsOnce(input, findings, m - 1, j);
      StaysOnce(Before(input, findings, m - 1), findings[m - 1], PlaceholderOf(findings[j]));
    }
  }

  /** An input that spells no recorded placeholder keeps every placeholder fresh. */
  lemma UnmarkedIsFresh(input: string, findings: seq<Finding>)
    requires NumberedApart(findings) && Unmarked(input, findings)
    ensures AllFresh(input, findings)
  {
    hide NumberedApart, Contains, Applies, ApplyAll;
    forall m | 0 <= m < |findings|
      ensures Fresh(Before(input, findings, m), findings[m])
    {
      var s, f := Before(input, findings, m), findings[m];
      if Applies(s, f) {
        Ends(input, findings);
        KeepsRecord(input, findings, |findings|, m);
        GoneForGood(input, findings, 0, m, m);
        var i := Spot(s, f);
        if i <= |s.text| {
          AtSeam(s.text, i, f.value, PlaceholderOf(f));
          PartsUnmarked(s.text[..i], f.value + s.text[i + |f.value|..], PlaceholderOf(f));
          PartsUnmarked(f.value, s.text[i + |f.value|..], PlaceholderOf(f));
        }
      }
    }
  }

  /** The only occurrence of a placeholder, hit by a replacement. */
  lemma GoneAtSeam(text: string, i: nat, n: nat, key: string, k: string, q: nat)
    requires i + n <= |text| && IsPlaceholder(key) && IsPlaceholder(k) && k != key
    requires Once(text, k) && OccursAt(text, k, q) && i < q + |k| && q < i + n
    ensures !Contains(Replaced(text, i, n, key), k)
  {
    hide IsPlaceholder;
    var after := Replaced(text, i, n, key);
    forall p: nat | p <= |after|
      ensures !OccursAt(after, k, p)
    {
      if OccursAt(after, k, p) {
        Seam(text, i, n, key, k, p);
      }
    }
  }

  /** A replacement that is not clear destroys an earlier placeholder for good. */
  lemma NotClearDestroys(s: Sanitized, f: Finding) returns (k: string)
    requires !Clear(s, f) && IsPlaceholder(PlaceholderOf(f))
    requires forall k | k in s.mapping :: IsPlaceholder(k) && k != PlaceholderOf(f) && Once(s.text, k)
    ensures k in s.mapping && Contains(s.text, k) && !Contains(Apply(s, f).text, k)
  {
    hide Applies, Apply, IsPlaceholder, Once, OccursAt, Contains;
    ApplyReplaces(s, f);
    var i, n := Spot(s, f), |f.value|;
    k :| k in s.mapping && !Apart(s.text, k, i, n);
    var q: nat :| OccursAt(s.text, k, q) && q + |k| > i && i + n > q;
    ContainsAt(s.text, k, q);
    GoneAtSeam(s.text, i, n, PlaceholderOf(f), k, q);
  }

  /** The applied findings among the first `m`, last one first, without `skip`. */
  function Backwards(input: string, findings: seq<Finding>, m: nat, skip: string): seq<string>
    requires m <= |findings|
  {
    if m == 0 then []
    else
      var k := PlaceholderOf(findings[m - 1]);
      (if Applies(Before(input, findings, m - 1), findings[m - 1]) && k != skip then [k] else [])
      + Backwards(input, findings, m - 1, skip)
  }

  lemma {:induction false} BackwardsKeys(input: string, findings: seq<Finding>, m: nat, skip: string)
    requires NumberedApart(findings) && m <= |findings|
    ensures IsIteration(Backwards(input, findings, m, skip), Before(input, findings, m).mapping.Keys - {skip})
  {
    hide NumberedApart, Applies, PlaceholderOf, ReplaceFirst, ApplyAll, IsIteration;
    if m == 0 {
      Ends(input, findings);
      NoKeys(Before(input, findings, 0).mapping, skip);
    } else {
      BackwardsKeys(input, findings, m - 1, skip);
      NextState(input, findings, m - 1);
      NotMapped(input, findings, m - 1);
      var s, f, rest := Before(input, findings, m - 1), findings[m - 1], Backwards(input, findings, m - 1, skip);
      var k, keys, keys' := PlaceholderOf(f), s.mapping.Keys, Before(input, findings, m).mapping.Keys;
      if Applies(s, f) && k != skip {
        FirstKey(k, rest, keys - {skip});
        assert keys' - {skip} == (keys - {skip}) + {k};
      } else {
        assert keys' - {skip} == keys - {skip};
        assert [] + rest == rest;
      }
    }
  }

  lemma NoKeys(mapping: map<string, string>, skip: string)
    requires mapping == map[]
    ensures IsIteration([], mapping.Keys - {skip})
  {
  }

  lemma FirstKey(k: string, rest: seq<string>, keys: set<string>)
    requires IsIteration(rest, keys) && k !in keys
    ensures IsIteration([k] + rest, keys + {k})
  {
  }

  /** The map keeps what each applied finding recorded. */
  lemma {:induction false} KeepsRecord(input: string, findings: seq<Finding>, m: nat, j: nat)
    requires NumberedApart(findings) && j < m <= |findings| && Applies(Before(input, findings, j), findings[j])
    ensures var mapping := Before(input, findings, m).mapping;
            PlaceholderOf(findings[j]) in mapping && mapping[PlaceholderOf(findings[j])] == findings[j].value
  {
    hide IsPlaceholder, Applies;
    NextState(input, findings, m - 1);
    if j < m - 1 {
      KeepsRecord(input, findings, m - 1, j);
    }
  }

  /** Taking back one step of the sanitizer. */
  lemma UndoStep(input: string, findings: seq<Finding>, m: nat)
    requires NumberedApart(findings) && AllFresh(input, findings) && m < |findings|
    requires Applies(Before(input, findings, m), findings[m])
    ensures ReplaceAll(Before(input, findings, m + 1).text, PlaceholderOf(findings[m]), findings[m].value)
         == Before(input, findings, m).text
  {
    hide Applies, Apply, ReplaceAll, IsPlaceholder, Contains;
    var s, f := Before(input, findings, m), findings[m];
    assert Fresh(s, f);
    NextState(input, findings, m);
    ApplyReplaces(s, f);
    Brackets(PlaceholderOf(f));
    var i := Spot(s, f);
    if i <= |s.text| {
      AtSeam(s.text, i, f.value, PlaceholderOf(f));
      UndoParts(s.text[..i], f.value, s.text[i + |f.value|..], PlaceholderOf(f));
    } else {
      NoReplace(s.text, PlaceholderOf(f), f.value);
    }
  }

  lemma WalkOne(text: string, to: string, mapping: map<string, string>, k: string, rest: seq<string>)
    requires forall x | x in [k] + rest :: x in mapping && x != ""
    requires ReplaceAll(text, k, mapping[k]) == to
    ensures forall x | x in rest :: x in mapping && x != ""
    ensures RehydrateIn(text, mapping, [k] + rest) == RehydrateIn(to, mapping, rest)
  {
    hide ReplaceAll;
    assert ([k] + rest)[1..] == rest;
    assert forall x | x in rest :: x in [k] + rest;
  }

  /** The map that comes out in the end holds every key of an order. */
  predicate Walkable(input: string, findings: seq<Finding>, order: seq<string>) {
    forall k | k in order :: k in ApplyAll(input, findings).mapping && k != ""
  }

  /** Walking the final map from some text. */
  function Walk(input: string, findings: seq<Finding>, text: string, order: seq<string>): string
    requires Walkable(input, findings, order)
  {
    RehydrateIn(text, ApplyAll(input, findings).mapping, order)
  }

  /** Walking backwards over one finding. */
  lemma WalkBackOne(input: string, findings: seq<Finding>, m: nat, skip: string)
    requires NumberedApart(findings) && AllFresh(input, findings) && m < |findings|
    requires PlaceholderOf(findings[m]) != skip && Walkable(input, findings, Backwards(input, findings, m + 1, skip))
    ensures Walkable(input, findings, Backwards(input, findings, m, skip))
    ensures Walk(input, findings, Before(input, findings, m + 1).text, Backwards(input, findings, m + 1, skip))
         == Walk(input, findings, Before(input, findings, m).text, Backwards(input, findings, m, skip))
  {
    hide NumberedApart, AllFresh, Applies, ReplaceAll, RehydrateIn, ApplyAll;
    var k, rest := PlaceholderOf(findings[m]), Backwards(input, findings, m, skip);
    var from, to := Before(input, findings, m + 1).text, Before(input, findings, m).text;
    if Applies(Before(input, findings, m), findings[m]) {
      assert Backwards(input, findings, m + 1, skip) == [k] + rest;
      UndoStep(input, findings, m);
      KeepsRecord(input, findings, |findings|, m);
      assert findings[..|findings|] == findings;
      WalkOne(from, to, ApplyAll(input, findings).mapping, k, rest);
    } else {
      assert Backwards(input, findings, m + 1, skip) == rest;
      NotApplied(input, findings, m);
    }
  }

  /** Walking backwards from one state to an earlier one. */
  lemma {:induction false} WalkBack(input: string, findings: seq<Finding>, m: nat, j: nat, skip: string)
    requires NumberedApart(findings) && AllFresh(input, findings) && j <= m <= |findings|
    requires forall i | j <= i < m :: PlaceholderOf(findings[i]) != skip
    requires Walkable(input, findings, Backwards(input, findings, m, skip))
    ensures Walkable(input, findings, Backwards(input, findings, j, skip))
    ensures Walk(input, findings, Before(input, findings, m).text, Backwards(input, findings, m, skip))
         == Walk(input, findings, Before(input, findings, j).text, Backwards(input, findings, j, skip))
    decreases m
  {
    hide NumberedApart, AllFresh, Backwards, Walk, Walkable, Before, PlaceholderOf;
    if j < m {
      WalkBackOne(input, findings, m - 1, skip);
      WalkBack(input, findings, m - 1, j, skip);
    }
  }

  lemma NotApplied(input: string, findings: seq<Finding>, m: nat)
    requires m < |findings| && !Applies(Before(input, findings, m), findings[m])
    ensures Before(input, findings, m + 1) == Before(input, findings, m)
  {
    NextState(input, findings, m);
  }

  /** What walking the map in this order makes of the sanitized text. */
  function Restored(input: string, findings: seq<Finding>, order: seq<string>): string
    requires forall k | k in order :: k in ApplyAll(input, findings).mapping
  {
    NoEmptyKey(input, findings);
    Walk(input, findings, ApplyAll(input, findings).text, order)
  }

  /** Last placeholder first. */
  function LastFirst(input: string, findings: seq<Finding>): seq<string> {
    Backwards(input, findings, |findings|, "")
  }

  lemma LastFirstIterates(input: string, findings: seq<Finding>)
    requires NumberedApart(findings)
    ensures IsIteration(LastFirst(input, findings), ApplyAll(input, findings).mapping.Keys)
    ensures Walkable(input, findings, LastFirst(input, findings))
  {
    Ends(input, findings);
    NoEmptyKey(input, findings);
    BackwardsKeys(input, findings, |findings|, "");
    assert ApplyAll(input, findings).mapping.Keys - {""} == ApplyAll(input, findings).mapping.Keys;
  }

  /** The one order that does not mind what the findings hit: last placeholder first. */
  lemma LastFirstRestores(input: string, findings: seq<Finding>)
    requires NumberedApart(findings) && AllFresh(input, findings)
    ensures IsIteration(LastFirst(input, findings), ApplyAll(input, findings).mapping.Keys)
    ensures Restored(input, findings, LastFirst(input, findings)) == input
  {
    Ends(input, findings);
    LastFirstIterates(input, findings);
    hide NumberedApart, AllFresh, ApplyAll, Before;
    WalkBack(input, findings, |findings|, 0, "");
  }

  lemma Ends(input: string, findings: seq<Finding>)
    ensures Before(input, findings, 0) == Sanitized(input, map[])
    ensures Before(input, findings, |findings|) == ApplyAll(input, findings)
  {
    assert findings[..0] == [] && findings[..|findings|] == findings;
  }

  /** Replacing one placeholder leaves the others in the text. */
  lemma {:induction false} ReplaceKeeps(text: string, key: string, v: string, k: string, p: nat)
    requires IsPlaceholder(key) && IsPlaceholder(k) && k != key && OccursAt(text, k, p)
    ensures Contains(ReplaceAll(text, key, v), k)
    decreases |text|
  {
    hide ReplaceAll, IsPlaceholder, OccursAt, Contains;
    Brackets(key);
    Brackets(k);
    AtStart(text, k, p);
    if key <= text {
      PrefixOccurs(text, key);
      NoOverlap(text, k, p, key, 0);
      var rest := text[|key|..];
      assert text == key + rest;
      ShiftOccurrence(key, rest, k, p - |key|);
      ReplaceKeeps(rest, key, v, k, p - |key|);
      ReplacePrefix(rest, key, v);
      ContainsBehind(v, ReplaceAll(rest, key, v), k);
    } else if p == 0 {
      var rest := text[|k|..];
      assert text == k + rest;
      PassesHere(k, key, v, rest);
      ContainsInMiddle("", k, ReplaceAll(rest, key, v));
      assert "" + k + ReplaceAll(rest, key, v) == k + ReplaceAll(rest, key, v);
    } else {
      var rest := text[1..];
      assert text == [text[0]] + rest;
      ShiftOccurrence([text[0]], rest, k, p - 1);
      ReplaceKeeps(rest, key, v, k, p - 1);
      ReplaceStep(text[0], rest, key, v);
      ContainsBehind([text[0]], ReplaceAll(rest, key, v), k);
    }
  }

  lemma AtStart(text: string, k: string, p: nat)
    requires OccursAt(text, k, p)
    ensures p + |k| <= |text|
    ensures p == 0 ==> text == k + text[|k|..]
  {
  }

  lemma ContainsBehind(front: string, text: string, k: string)
    requires Contains(text, k)
    ensures Contains(front + text, k)
  {
    ContainsInMiddle(front, text, "");
    assert front + text + "" == front + text;
    ContainsTransitive(front + text, text, k);
  }

  lemma {:induction false} WalkKeeps(text: string, mapping: map<string, string>, order: seq<string>, k: string)
    requires forall x | x in order :: x in mapping && x != "" && IsPlaceholder(x) && x != k
    requires IsPlaceholder(k) && Contains(text, k)
    ensures Contains(RehydrateIn(text, mapping, order), k)
    decreases |order|
  {
    hide IsPlaceholder, ReplaceAll;
    if order != [] {
      var p: nat :| p <= |text| && OccursAt(text, k, p);
      ReplaceKeeps(text, order[0], mapping[order[0]], k, p);
      assert order == [order[0]] + order[1..];
      assert forall x | x in order[1..] :: x in order;
      WalkKeeps(ReplaceAll(text, order[0], mapping[order[0]]), mapping, order[1..], k);
    }
  }

  /** From a step that is not clear: walk the destroyed placeholder first. */
  lemma NotClearFails(input: string, findings: seq<Finding>, j: nat) returns (order: seq<string>)
    requires NumberedApart(findings) && Unmarked(input, findings) && j < |findings|
    requires !Clear(Before(input, findings, j), findings[j])
    ensures IsIteration(order, ApplyAll(input, findings).mapping.Keys)
    ensures Restored(input, findings, order) != input
  {
    hide Clear, Contains, ReplaceAll, IsPlaceholder;
    var n := |findings|;
    Ends(input, findings);
    UnmarkedIsFresh(input, findings);
    var h := Destroyed(input, findings, j);
    var k, s := PlaceholderOf(findings[h]), ApplyAll(input, findings);
    KeepsRecord(input, findings, n, h);
    BackwardsKeys(input, findings, n, k);
    NoEmptyKey(input, findings);
    var rest := Backwards(input, findings, n, k);
    order := [k] + rest;
    hide ApplyAll, Before, Backwards, PlaceholderOf;
    FirstKey(k, rest, s.mapping.Keys - {k});
    assert s.mapping.Keys == (s.mapping.Keys - {k}) + {k};
    assert IsPlaceholder(k) && !Contains(input, k);
    NoReplace(s.text, k, s.mapping[k]);
    WalkOne(s.text, s.text, s.mapping, k, rest);
    forall i | j <= i < n
      ensures PlaceholderOf(findings[i]) != k
    {
    }
    hide NumberedApart, Unmarked, AllFresh;
    WalkBack(input, findings, n, j, k);
    EarlierStays(input, findings, j, k);
  }

  /** Without its own turn a placeholder is still there when the walk is over. */
  lemma EarlierStays(input: string, findings: seq<Finding>, j: nat, k: string)
    requires NumberedApart(findings) && j < |findings|
    requires IsPlaceholder(k) && Contains(Before(input, findings, j).text, k)
    requires Walkable(input, findings, Backwards(input, findings, j, k))
    ensures Contains(Walk(input, findings, Before(input, findings, j).text, Backwards(input, findings, j, k)), k)
  {
    hide Contains, IsPlaceholder, RehydrateIn;
    var early := Backwards(input, findings, j, k);
    BackwardsKeys(input, findings, j, k);
    forall x | x in early
      ensures IsPlaceholder(x)
    {
      var i := AppliedKey(input, findings, j, x);
    }
    WalkKeeps(Before(input, findings, j).text, ApplyAll(input, findings).mapping, early, k);
  }

  /** The destroyed placeholder: in the text in front of finding `j`, never in it again. */
  lemma Destroyed(input: string, findings: seq<Finding>, j: nat) returns (h: nat)
    requires NumberedApart(findings) && AllFresh(input, findings) && j < |findings|
    requires !Clear(Before(input, findings, j), findings[j])
    ensures h < j && Applies(Before(input, findings, h), findings[h])
    ensures Contains(Before(input, findings, j).text, PlaceholderOf(findings[h]))
    ensures !Contains(Before(input, findings, |findings|).text, PlaceholderOf(findings[h]))
  {
    hide IsPlaceholder, Applies, Apply, Clear, Contains, Once, Fresh;
    var s := Before(input, findings, j);
    forall k | k in s.mapping
      ensures IsPlaceholder(k) && k != PlaceholderOf(findings[j]) && Once(s.text, k)
    {
      var i := AppliedKey(input, findings, j, k);
      ShowsOnce(input, findings, j, i);
    }
    var k := NotClearDestroys(s, findings[j]);
    h := AppliedKey(input, findings, j, k);
    NextState(input, findings, j);
    GoneForGood(input, findings, j + 1, |findings|, h);
  }

  lemma {:induction false} AppliedKey(input: string, findings: seq<Finding>, m: nat, k: string) returns (i: nat)
    requires m <= |findings| && k in Before(input, findings, m).mapping
    ensures i < m && PlaceholderOf(findings[i]) == k && Applies(Before(input, findings, i), findings[i])
  {
    hide Applies, Placeholder;
    i := 0;
    Ends(input, findings);
    if m > 0 {
      NextState(input, findings, m - 1);
      if Applies(Before(input, findings, m - 1), findings[m - 1]) && PlaceholderOf(findings[m - 1]) == k {
        i := m - 1;
      } else {
        i := AppliedKey(input, findings, m - 1, k);
      }
    }
  }

  /** Between two states in which its own finding has no turn. */
  lemma {:induction false} GoneForGood(input: string, findings: seq<Finding>, m: nat, m': nat, h: nat)
    requires NumberedApart(findings) && m <= m' <= |findings| && h < |findings| && (h < m || m' <= h)
    requires !Contains(Before(input, findings, m).text, PlaceholderOf(findings[h]))
    ensures !Contains(Before(input, findings, m').text, PlaceholderOf(findings[h]))
    decreases m'
  {
    hide IsPlaceholder, Apply, Contains;
    if m < m' {
      GoneForGood(input, findings, m, m' - 1, h);
      NextState(input, findings, m' - 1);
      StaysGone(Before(input, findings, m' - 1), findings[m' - 1], PlaceholderOf(findings[h]));
    }
  }

  /** Every order in which the map can be walked gives the input back. */
  ghost predicate AlwaysRestores(input: string, findings: seq<Finding>) {
    forall order | IsIteration(order, ApplyAll(input, findings).mapping.Keys) ::
      Restored(input, findings, order) == input
  }

  /** Exactly when rehydrating undoes sanitizing, in every iteration order: when no
      replacement hits a placeholder of an earlier one.  For findings that are numbered apart
      and an input that does not spell their placeholders. */
  lemma RoundTripIff(input: string, findings: seq<Finding>)
    requires NumberedApart(findings) && Unmarked(input, findings)
    ensures AlwaysRestores(input, findings) <==> AllClear(input, findings)
  {
    hide IsPlaceholder, Clear, Restored, Applies, Unmarked, AllLone;
    if AllClear(input, findings) {
      NumberedIsFaithful(input, findings);
      UnmarkedIsLone(input, findings);
      forall order | IsIteration(order, ApplyAll(input, findings).mapping.Keys)
        ensures Restored(input, findings, order) == input
      {
        RehydrateUndoesSanitize(input, findings, order);
        RestoredMeans(input, findings, order);
      }
    } else {
      var j :| 0 <= j < |findings| && !Clear(ApplyAll(input, findings[..j]), findings[j]);
      var order := NotClearFails(input, findings, j);
    }
  }

  lemma RestoredMeans(input: string, findings: seq<Finding>, order: seq<string>)
    requires forall k | k in order :: k in ApplyAll(input, findings).mapping && k != ""
    ensures Restored(input, findings, order)
         == RehydrateIn(ApplyAll(input, findings).text, ApplyAll(input, findings).mapping, order)
  {
  }

  /** One key, one order. */
  lemma OnlyOrder(order: seq<string>, key: string)
    requires IsIteration(order, {key})
    ensures order == [key]
  {
    assert order[0] in order;
  }

  // ---------- The same condition for input without brackets ----------

  /** Position `i` is not inside a placeholder: the last bracket before it, if any, closes one. */
  ghost predicate Outside(text: string, i: nat)
    requires i <= |text|
  {
    forall j | 0 <= j < i && text[j] == '[' :: exists k | j < k < i :: text[k] == ']'
  }

  /** What is replaced holds no bracket and does not start inside a placeholder. */
  ghost predicate Placed(s: Sanitized, f: Finding) {
    Applies(s, f) ==>
      var i := Spot(s, f);
      i <= |s.text| ==> BracketFree(f.value) && Outside(s.text, i)
  }

  ghost predicate AllPlaced(input: string, findings: seq<Finding>) {
    forall i | 0 <= i < |findings| :: Placed(ApplyAll(input, findings[..i]), findings[i])
  }

  lemma OutsideIsApart(text: string, i: nat, piece: string, k: string)
    requires OccursAt(text, piece, i) && piece != "" && BracketFree(piece) && Outside(text, i) && IsPlaceholder(k)
    ensures Apart(text, k, i, |piece|)
  {
    OccursChars(text, piece, i);
    forall q: nat | OccursAt(text, k, q)
      ensures q + |k| <= i || i + |piece| <= q
    {
      BracketsAt(text, k, q);
      assert forall j | i <= j < i + |piece| :: text[j] in piece;
      hide IsPlaceholder, OccursAt;
    }
  }

  lemma PlacedIsClear(s: Sanitized, f: Finding)
    requires Placed(s, f) && f.value != "" && forall k | k in s.mapping :: IsPlaceholder(k)
    ensures Clear(s, f)
  {
    hide Applies, IsPlaceholder, Apart, Outside, OccursAt, BracketFree;
    var i := Spot(s, f);
    if Applies(s, f) && i <= |s.text| {
      forall k | k in s.mapping
        ensures Apart(s.text, k, i, |f.value|)
      {
        OutsideIsApart(s.text, i, f.value, k);
      }
    }
  }

  /** Every bracket of the text belongs to a placeholder. */
  lemma {:induction false} BracketOwner(d: Doc, p: nat) returns (k: string, q: nat)
    requires WellFormed(d) && BracketFree(Original(d)) && p < |Render(d)|
    requires Render(d)[p] == '[' || Render(d)[p] == ']'
    ensures k in Keys(d) && IsPlaceholder(k) && OccursAt(Render(d), k, q) && q <= p < q + |k|
  {
    hide IsPlaceholder, BracketFree, OccursAt, Render, Original;
    k, q := "", 0;
    match d
    case End(t) =>
      EndText(t);
      LiteralChar(t, p);
    case Hole(b, key, o, r) =>
      HoleParts(d);
      if p < |b| {
        LiteralChar(b, p);
      } else if p < |b| + |key| {
        k, q := key, |b|;
      } else {
        k, q := BracketOwner(r, p - |b| - |key|);
        DeepOccurrence(d, k, q);
        q := q + |b| + |key|;
      }
  }

  lemma EndText(t: string)
    ensures Render(End(t)) == t && Original(End(t)) == t
  {
  }

  lemma DeepOccurrence(d: Doc, k: string, q: nat)
    requires d.Hole? && OccursAt(Render(d.rest), k, q)
    ensures OccursAt(Render(d), k, q + |d.before| + |d.key|)
  {
    Regroup(d.before, d.key, Render(d.rest));
    hide OccursAt;
    ShiftOccurrence(d.before + d.key, Render(d.rest), k, q);
  }

  lemma LiteralChar(t: string, p: nat)
    requires BracketFree(t) && p < |t|
    ensures t[p] != '[' && t[p] != ']'
  {
    assert t[p] in t;
  }

  lemma HoleParts(d: Doc)
    requires d.Hole?
    ensures Render(d) == d.before + d.key + Render(d.rest)
    ensures OccursAt(Render(d), d.key, |d.before|)
    ensures BracketFree(Original(d)) ==> BracketFree(d.before) && BracketFree(Original(d.rest))
  {
    Regroup(d.before, d.key, Render(d.rest));
    var text := Render(d);
    assert text[|d.before|..|d.before| + |d.key|] == d.key;
    PlainPieces(d.before, d.original, Original(d.rest));
  }

  lemma PlainPieces(b: string, o: string, r: string)
    ensures BracketFree(b + (o + r)) ==> BracketFree(b) && BracketFree(r)
  {
    assert forall c | c in b || c in r :: c in b + (o + r);
  }

  lemma ApartIsOutside(d: Doc, i: nat, piece: string)
    requires WellFormed(d) && BracketFree(Original(d)) && piece != "" && Free(d, i, piece)
    ensures i <= |Render(d)| && BracketFree(piece) && Outside(Render(d), i)
  {
    var text := Render(d);
    OccursChars(text, piece, i);
    forall x | 0 <= x < |piece|
      ensures piece[x] != '[' && piece[x] != ']'
    {
      assert piece[x] == text[i + x];
      if text[i + x] == '[' || text[i + x] == ']' {
        var k, q := BracketOwner(d, i + x);
      }
    }
    forall j | 0 <= j < i && text[j] == '['
      ensures exists r | j < r < i :: text[r] == ']'
    {
      var k, q := BracketOwner(d, j);
      BracketsAt(text, k, q);
      assert Apart(text, k, i, |piece|);
      assert text[q + |k| - 1] == ']';
    }
  }

  lemma ClearIsPlaced(d: Doc, input: string, s: Sanitized, f: Finding)
    requires Represents(d, input, s) && BracketFree(input) && Clear(s, f) && f.value != ""
    ensures Placed(s, f)
  {
    hide Applies, Apart, Outside, WellFormed, Recorded;
    var i := Spot(s, f);
    if Applies(s, f) && i <= |s.text| {
      RecordedKeys(d, s.mapping);
      assert Free(d, i, f.value);
      ApartIsOutside(d, i, f.value);
    }
  }

  /** For input without brackets the round trip in every order is safe exactly when each value
      that is replaced holds no bracket and starts outside the earlier placeholders. */
  lemma PlainInputIff(input: string, findings: seq<Finding>)
    requires BracketFree(input) && NumberedApart(findings)
    requires forall i | 0 <= i < |findings| :: findings[i].value != ""
    ensures AlwaysRestores(input, findings) <==> AllPlaced(input, findings)
  {
    PlainIsUnmarked(input, findings);
    hide BracketFree, IsPlaceholder, Clear, Placed, AlwaysRestores, Unmarked;
    RoundTripIff(input, findings);
    if AllClear(input, findings) {
      NumberedIsFaithful(input, findings);
      forall i | 0 <= i < |findings|
        ensures Placed(ApplyAll(input, findings[..i]), findings[i])
      {
        InitFaithful(input, findings, i);
        SanitizedRepresents(input, findings[..i]);
        ClearIsPlaced(DocOf(input, findings[..i]), input, ApplyAll(input, findings[..i]), findings[i]);
      }
    }
    if AllPlaced(input, findings) {
      forall i | 0 <= i < |findings|
        ensures Clear(ApplyAll(input, findings[..i]), findings[i])
      {
        KeysArePlaceholders(input, findings, i);
        PlacedIsClear(ApplyAll(input, findings[..i]), findings[i]);
      }
    }
  }

  lemma PlainIsUnmarked(input: string, findings: seq<Finding>)
    requires BracketFree(input)
    ensures Unmarked(input, findings)
  {
    forall k | k in ApplyAll(input, findings).mapping
      ensures !Contains(input, k)
    {
      MappedPlaceholders(input, findings, k);
      var i :| 0 <= i < |findings| && PlaceholderOf(findings[i]) == k;
      assert PlaceholderOf(findings[i])[0] == '[';
      NotContained(input, k, '[');
    }
  }

  lemma KeysArePlaceholders(input: string, findings: seq<Finding>, m: nat)
    requires NumberedApart(findings) && m <= |findings|
    ensures forall k | k in ApplyAll(input, findings[..m]).mapping :: IsPlaceholder(k)
  {
    hide IsPlaceholder;
    forall k | k in ApplyAll(input, findings[..m]).mapping
      ensures IsPlaceholder(k)
    {
      var i := AppliedKey(input, findings, m, k);
    }
  }
}
