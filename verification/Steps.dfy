/** Putting placeholders back one at a time.  Placeholders never overlap, so what one step does
    to a text commutes with every other step; and each step of a value without an opening
    bracket takes one such bracket out of the text. */
module Steps {
  import opened Strings
  import opened Sanitizing
  import opened RoundTrip

  // ---------- Counting ----------

  function Opens(text: string): nat {
    if text == "" then 0 else (if text[0] == '[' then 1 else 0) + Opens(text[1..])
  }

  lemma {:induction false} OpensJoin(a: string, b: string)
    ensures Opens(a + b) == Opens(a) + Opens(b)
  {
    if a == "" {
      assert a + b == b;
    } else {
      assert (a + b)[1..] == a[1..] + b;
      OpensJoin(a[1..], b);
    }
  }

  lemma {:induction false} NoOpens(text: string)
    requires '[' !in text
    ensures Opens(text) == 0
  {
    if text != "" {
      assert text == [text[0]] + text[1..];
      NoOpens(text[1..]);
    }
  }

  lemma {:induction false} OnePlaceholder(k: string)
    requires IsPlaceholder(k)
    ensures Opens(k) == 1
  {
    Brackets(k);
    assert '[' !in k[1..] by {
      assert forall i | 0 <= i < |k[1..]| :: k[1..][i] == k[i + 1];
    }
    NoOpens(k[1..]);
  }

  /** How often a placeholder is replaced: the opening brackets that go with it. */
  function Hits(text: string, key: string): int
    requires key != ""
  {
    Opens(text) - Opens(ReplaceAll(text, key, ""))
  }

  /** The count does not depend on what is put in, as long as that opens no bracket. */
  lemma {:induction false} OpensReplaced(text: string, key: string, v: string)
    requires key != "" && '[' !in v
    ensures Opens(ReplaceAll(text, key, v)) == Opens(text) - Hits(text, key)
    decreases |text|
  {
    hide ReplaceAll;
    if |text| < |key| {
      ReplaceNothing(text, key, v);
      ReplaceNothing(text, key, "");
    } else if key <= text {
      var rest := text[|key|..];
      assert text == key + rest;
      ReplacePrefix(rest, key, v);
      ReplacePrefix(rest, key, "");
      OpensReplaced(rest, key, v);
      OpensJoin(v, ReplaceAll(rest, key, v));
      OpensJoin("", ReplaceAll(rest, key, ""));
      OpensJoin(key, rest);
      NoOpens(v);
    } else {
      var c, rest := text[0], text[1..];
      assert text == [c] + rest;
      ReplaceStep(c, rest, key, v);
      ReplaceStep(c, rest, key, "");
      OpensReplaced(rest, key, v);
      OpensJoin([c], rest);
      OpensJoin([c], ReplaceAll(rest, key, v));
      OpensJoin([c], ReplaceAll(rest, key, ""));
    }
  }

  lemma HitsNone(text: string, key: string)
    requires key != "" && !Contains(text, key)
    ensures Hits(text, key) == 0
  {
    NoReplace(text, key, "");
  }

  /** Around any placeholder the two sides are counted apart. */
  lemma HitsAround(front: string, k: string, rest: string, key: string)
    requires IsPlaceholder(k) && IsPlaceholder(key)
    ensures key != "" && Hits(front + (k + rest), key)
                      == Hits(front, key) + (if k == key then 1 else 0) + Hits(rest, key)
  {
    hide ReplaceAll, Opens, IsPlaceholder;
    Brackets(key);
    ReplaceSplits(front, k, rest, key, "");
    OpensJoin(front, k + rest);
    OpensJoin(k, rest);
    OpensJoin(ReplaceAll(front, key, ""), ReplaceAll(k + rest, key, ""));
    OnePlaceholder(k);
    if k == key {
      ReplacePrefix(rest, key, "");
      assert "" + ReplaceAll(rest, key, "") == ReplaceAll(rest, key, "");
    } else {
      PassesHere(k, key, "", rest);
      OpensJoin(k, ReplaceAll(rest, key, ""));
    }
  }

  /** A text cut open at an occurrence. */
  lemma CutAt(text: string, k: string, p: nat)
    requires OccursAt(text, k, p)
    ensures p + |k| <= |text| && text == text[..p] + (k + text[p + |k|..])
  {
  }

  lemma {:induction false} HitsNat(text: string, key: string)
    requires IsPlaceholder(key)
    ensures key != "" && Hits(text, key) >= 0
    ensures Hits(text, key) >= 1 <==> Contains(text, key)
    decreases |text|
  {
    hide Hits, IsPlaceholder;
    Brackets(key);
    if Contains(text, key) {
      var p: nat :| p <= |text| && OccursAt(text, key, p);
      CutAt(text, key, p);
      HitsAround(text[..p], key, text[p + |key|..], key);
      HitsNat(text[..p], key);
      HitsNat(text[p + |key|..], key);
    } else {
      HitsNone(text, key);
    }
  }

  /** A whole shows a placeholder at least as often as its parts. */
  lemma {:induction false} HitsJoin(a: string, b: string, key: string)
    requires IsPlaceholder(key)
    ensures key != "" && Hits(a + b, key) >= Hits(a, key) + Hits(b, key)
    decreases |a| + |b|
  {
    hide Hits, IsPlaceholder, OccursAt;
    Brackets(key);
    if Contains(a, key) {
      var p: nat :| p <= |a| && OccursAt(a, key, p);
      CutAt(a, key, p);
      var x, y := a[..p], a[p + |key|..];
      assert a + b == x + (key + (y + b));
      HitsAround(x, key, y, key);
      HitsAround(x, key, y + b, key);
      HitsJoin(y, b, key);
    } else if Contains(b, key) {
      var p: nat :| p <= |b| && OccursAt(b, key, p);
      CutAt(b, key, p);
      var x, y := b[..p], b[p + |key|..];
      assert a + b == (a + x) + (key + y);
      HitsAround(x, key, y, key);
      HitsAround(a + x, key, y, key);
      HitsJoin(a, x, key);
    } else {
      HitsNone(a, key);
      HitsNone(b, key);
      HitsNat(a + b, key);
    }
  }

  // ---------- Steps ----------

  /** The placeholder shown at `p` put back. */
  function PutBack(text: string, p: nat, key: string, v: string): string
    requires p + |key| <= |text|
  {
    Replaced(text, p, |key|, v)
  }

  /** `to` is `from` with `n` shown placeholders put back one after the other. */
  ghost predicate Leads(from: string, to: string, mapping: map<string, string>, n: nat)
    decreases n
  {
    if n == 0 then from == to
    else exists key, p: nat | key in mapping && OccursAt(from, key, p) ::
      Leads(PutBack(from, p, key, mapping[key]), to, mapping, n - 1)
  }

  lemma OneStep(from: string, key: string, p: nat, mapping: map<string, string>)
    requires key in mapping && OccursAt(from, key, p)
    ensures Leads(from, PutBack(from, p, key, mapping[key]), mapping, 1)
  {
    assert Leads(PutBack(from, p, key, mapping[key]), PutBack(from, p, key, mapping[key]), mapping, 0);
  }

  lemma {:induction false} LeadsOn(a: string, b: string, c: string, mapping: map<string, string>, n: nat, m: nat)
    requires Leads(a, b, mapping, n) && Leads(b, c, mapping, m)
    ensures Leads(a, c, mapping, n + m)
    decreases n
  {
    if n > 0 {
      var key, p: nat :| key in mapping && OccursAt(a, key, p)
        && Leads(PutBack(a, p, key, mapping[key]), b, mapping, n - 1);
      LeadsOn(PutBack(a, p, key, mapping[key]), b, c, mapping, n - 1, m);
    }
  }

  ghost predicate Extends(mapping: map<string, string>, mapping': map<string, string>) {
    forall k | k in mapping :: k in mapping' && mapping'[k] == mapping[k]
  }

  lemma {:induction false} LeadsMore(a: string, b: string, mapping: map<string, string>, n: nat,
        mapping': map<string, string>)
    requires Leads(a, b, mapping, n) && Extends(mapping, mapping')
    ensures Leads(a, b, mapping', n)
    decreases n
  {
    if n > 0 {
      var key, p: nat :| key in mapping && OccursAt(a, key, p)
        && Leads(PutBack(a, p, key, mapping[key]), b, mapping, n - 1);
      LeadsMore(PutBack(a, p, key, mapping[key]), b, mapping, n - 1, mapping');
    }
  }

  /** Steps inside a part are steps of the whole. */
  lemma {:induction false} LeadsInside(front: string, a: string, b: string, rest: string,
        mapping: map<string, string>, n: nat)
    requires Leads(a, b, mapping, n)
    ensures Leads(front + (a + rest), front + (b + rest), mapping, n)
    decreases n
  {
    if n > 0 {
      var key, p: nat :| key in mapping && OccursAt(a, key, p)
        && Leads(PutBack(a, p, key, mapping[key]), b, mapping, n - 1);
      var a' := PutBack(a, p, key, mapping[key]);
      LeadsInside(front, a', b, rest, mapping, n - 1);
      StepInside(front, a, rest, key, p, mapping[key]);
    }
  }

  lemma StepInside(front: string, a: string, rest: string, key: string, p: nat, v: string)
    requires OccursAt(a, key, p)
    ensures OccursAt(front + (a + rest), key, |front| + p)
    ensures PutBack(front + (a + rest), |front| + p, key, v) == front + (PutBack(a, p, key, v) + rest)
  {
    var x, y := a[..p], a[p + |key|..];
    CutAt(a, key, p);
    hide OccursAt, PutBack;
    Shown(x, key, y, v);
    Nested(front, x, key, y, rest);
    Shown(front + x, key, y + rest, v);
    Nested(front, x, v, y, rest);
  }

  lemma Nested(front: string, x: string, m: string, y: string, rest: string)
    ensures front + ((x + (m + y)) + rest) == (front + x) + (m + (y + rest))
  {
    Regroup(x, m + y, rest);
    Regroup(m, y, rest);
    Regroup(front, x, m + (y + rest));
  }

  lemma Shown(front: string, key: string, rest: string, v: string)
    ensures var text := front + (key + rest);
            OccursAt(text, key, |front|) && PutBack(text, |front|, key, v) == front + (v + rest)
  {
    var text := front + (key + rest);
    assert text[|front|..|front| + |key|] == key && text[..|front|] == front && text[|front| + |key|..] == rest;
    Regroup(front, v, rest);
  }

  /** Each step takes one bracket away. */
  lemma {:induction false} LeadsDown(a: string, b: string, mapping: map<string, string>, n: nat)
    requires Leads(a, b, mapping, n) && Proper(mapping)
    ensures Opens(b) + n == Opens(a)
    decreases n
  {
    hide Opens, IsPlaceholder;
    if n > 0 {
      var key, p: nat :| key in mapping && OccursAt(a, key, p)
        && Leads(PutBack(a, p, key, mapping[key]), b, mapping, n - 1);
      var v := mapping[key];
      LeadsDown(PutBack(a, p, key, v), b, mapping, n - 1);
      CutAt(a, key, p);
      Shown(a[..p], key, a[p + |key|..], v);
      OpensJoin(a[..p], key + a[p + |key|..]);
      OpensJoin(key, a[p + |key|..]);
      OpensJoin(a[..p], v + a[p + |key|..]);
      OpensJoin(v, a[p + |key|..]);
      OnePlaceholder(key);
      NoOpens(v);
    }
  }

  /** Keys are placeholders, and no value opens a bracket. */
  ghost predicate Proper(mapping: map<string, string>) {
    forall k | k in mapping :: IsPlaceholder(k) && '[' !in mapping[k]
  }

  ghost predicate AllPlaceholders(mapping: map<string, string>) {
    forall k | k in mapping :: IsPlaceholder(k)
  }

  /** Replacing a placeholder everywhere is as many steps as it is hit. */
  lemma {:induction false} ReplaceLeads(text: string, key: string, v: string) returns (n: nat)
    requires IsPlaceholder(key)
    ensures key != "" && n == Hits(text, key) && Leads(text, ReplaceAll(text, key, v), map[key := v], n)
    decreases |text|
  {
    hide ReplaceAll, Hits, Leads, IsPlaceholder;
    Brackets(key);
    HitsNat(text, key);
    n := Hits(text, key);
    if Contains(text, key) {
      var p: nat :| p <= |text| && OccursAt(text, key, p);
      n := ReplaceFrom(text, key, v, p);
      ShownFirst(text, key, v, p, n);
      n := n + 1;
    } else {
      NoReplace(text, key, v);
      NoSteps(text, map[key := v]);
    }
  }

  lemma NoSteps(text: string, mapping: map<string, string>)
    ensures Leads(text, text, mapping, 0)
  {
  }

  lemma ShownFirst(text: string, key: string, v: string, p: nat, n: nat)
    requires key != "" && OccursAt(text, key, p)
    requires Leads(PutBack(text, p, key, v), ReplaceAll(text, key, v), map[key := v], n)
    ensures Leads(text, ReplaceAll(text, key, v), map[key := v], n + 1)
  {
    assert (map[key := v])[key] == v;
  }

  /** Any one of the shown placeholders can be put back first. */
  lemma {:induction false} ReplaceFrom(text: string, key: string, v: string, p: nat) returns (n: nat)
    requires IsPlaceholder(key) && OccursAt(text, key, p)
    ensures key != "" && n + 1 == Hits(text, key)
    ensures Leads(PutBack(text, p, key, v), ReplaceAll(text, key, v), map[key := v], n)
    decreases |text|, 0
  {
    hide ReplaceAll, Hits, Leads, IsPlaceholder, PutBack;
    Brackets(key);
    CutAt(text, key, p);
    var x, y, mapping := text[..p], text[p + |key|..], map[key := v];
    HitsAround(x, key, y, key);
    var i := ReplaceLeads(x, key, v);
    var j := ReplaceLeads(y, key, v);
    n := i + j;
    Shown(x, key, y, v);
    ReplaceSplits(x, key, y, key, v);
    ReplacePrefix(y, key, v);
    var x', y' := ReplaceAll(x, key, v), ReplaceAll(y, key, v);
    LeadsInside("", x, x', v + y, mapping, i);
    LeadsInside(x' + v, y, y', "", mapping, j);
    assert "" + (x + (v + y)) == x + (v + y) && "" + (x' + (v + y)) == x' + (v + y);
    assert (x' + v) + (y + "") == x' + (v + y) && (x' + v) + (y' + "") == x' + (v + y');
    LeadsOn(x + (v + y), x' + (v + y), x' + (v + y'), mapping, i, j);
  }

  /** Two steps at different places commute. */
  lemma StepsCommute(text: string, a: string, p: nat, va: string, b: string, q: nat, vb: string)
    requires OccursAt(text, a, p) && OccursAt(text, b, q) && p + |a| <= q
    ensures OccursAt(PutBack(text, p, a, va), b, q - |a| + |va|)
    ensures OccursAt(PutBack(text, q, b, vb), a, p)
    ensures PutBack(PutBack(text, p, a, va), q - |a| + |va|, b, vb) == PutBack(PutBack(text, q, b, vb), p, a, va)
  {
    TwoCuts(text, a, p, b, q);
    PartsCommute(text, text[..p], a, text[p + |a|..q], b, text[q + |b|..], va, vb);
  }

  lemma TwoCuts(text: string, a: string, p: nat, b: string, q: nat)
    requires OccursAt(text, a, p) && OccursAt(text, b, q) && p + |a| <= q
    ensures q + |b| <= |text| && text == text[..p] + (a + (text[p + |a|..q] + (b + text[q + |b|..])))
  {
    CutAt(text, a, p);
    Rest(text, p + |a|, b, q);
  }

  lemma Rest(text: string, m: nat, b: string, q: nat)
    requires m <= q && OccursAt(text, b, q)
    ensures q + |b| <= |text| && text[m..] == text[m..q] + (b + text[q + |b|..])
  {
  }

  lemma PartsCommute(text: string, x: string, a: string, y: string, b: string, z: string, va: string, vb: string)
    requires text == x + (a + (y + (b + z)))
    ensures var p, q := |x|, |x| + |a| + |y|;
            && OccursAt(text, a, p) && OccursAt(text, b, q)
            && OccursAt(PutBack(text, p, a, va), b, q - |a| + |va|)
            && OccursAt(PutBack(text, q, b, vb), a, p)
            && PutBack(PutBack(text, p, a, va), q - |a| + |va|, b, vb) == PutBack(PutBack(text, q, b, vb), p, a, va)
  {
    hide OccursAt, PutBack;
    Shown(x, a, y + (b + z), va);
    RegroupFour(x, a, y, b + z);
    Shown(x + a + y, b, z, vb);
    RegroupFour(x, va, y, b + z);
    Shown(x + va + y, b, z, vb);
    RegroupFour(x, a, y, vb + z);
    Shown(x, a, y + (vb + z), va);
    RegroupFour(x, va, y, vb + z);
  }

  /** A placeholder that no step is about stays, and can as well be put back first. */
  lemma {:induction false} Mirror(a: string, b: string, mapping: map<string, string>, n: nat, k: string, p: nat,
        v: string)
    returns (q: nat)
    requires Leads(a, b, mapping, n) && AllPlaceholders(mapping)
    requires IsPlaceholder(k) && k !in mapping && OccursAt(a, k, p)
    ensures OccursAt(b, k, q) && Leads(PutBack(a, p, k, v), PutBack(b, q, k, v), mapping, n)
    decreases n
  {
    hide IsPlaceholder, PutBack;
    q := p;
    if n > 0 {
      var key, r: nat :| key in mapping && OccursAt(a, key, r)
        && Leads(PutBack(a, r, key, mapping[key]), b, mapping, n - 1);
      var w := mapping[key];
      NoOverlap(a, k, p, key, r);
      var p', r' := p, r;
      if p + |k| <= r {
        StepsCommute(a, k, p, v, key, r, w);
        r' := r - |k| + |v|;
      } else {
        StepsCommute(a, key, r, w, k, p, v);
        p' := p - |key| + |w|;
      }
      q := Mirror(PutBack(a, r, key, w), b, mapping, n - 1, k, p', v);
      assert OccursAt(PutBack(a, p, k, v), key, r');
    }
  }

  /** Nor does its count go down. */
  lemma {:induction false} HitsKept(a: string, b: string, mapping: map<string, string>, n: nat, k: string)
    requires Leads(a, b, mapping, n) && AllPlaceholders(mapping) && IsPlaceholder(k) && k !in mapping
    ensures k != "" && Hits(a, k) <= Hits(b, k)
    decreases n
  {
    hide IsPlaceholder, Hits, PutBack;
    Brackets(k);
    if n > 0 {
      var key, p: nat :| key in mapping && OccursAt(a, key, p)
        && Leads(PutBack(a, p, key, mapping[key]), b, mapping, n - 1);
      var v := mapping[key];
      HitsKept(PutBack(a, p, key, v), b, mapping, n - 1, k);
      CutAt(a, key, p);
      var x, y := a[..p], a[p + |key|..];
      Shown(x, key, y, v);
      HitsAround(x, key, y, k);
      HitsJoin(x, v + y, k);
      HitsJoin(v, y, k);
      HitsNat(v, k);
    }
  }

  /** A placeholder that is hit once: replacing it everywhere is putting it back where it shows. */
  lemma OnlyHit(text: string, key: string, p: nat, v: string)
    requires IsPlaceholder(key) && OccursAt(text, key, p) && key != "" && Hits(text, key) == 1
    ensures ReplaceAll(text, key, v) == PutBack(text, p, key, v)
    ensures Once(text, key)
  {
    var x, y := text[..p], text[p + |key|..];
    CutAt(text, key, p);
    HitsAround(x, key, y, key);
    HitsNat(x, key);
    HitsNat(y, key);
    Shown(x, key, y, v);
    hide Hits, IsPlaceholder, ReplaceAll, Contains;
    UndoParts(x, v, y, key);
    forall q: nat, r: nat | OccursAt(text, key, q) && OccursAt(text, key, r)
      ensures q == r
    {
      OnlyThere(x, key, y, q);
      OnlyThere(x, key, y, r);
    }
  }

  lemma OnlyThere(x: string, key: string, y: string, q: nat)
    requires IsPlaceholder(key) && !Contains(x, key) && !Contains(y, key)
    requires OccursAt(x + (key + y), key, q)
    ensures q == |x|
  {
    var text := x + (x + y);
    assert text[..|x|] == x && text[|x| + |x|..] == y;
    Regroup(x, key, y);
    assert Replaced(text, |x|, |x|, key) == x + (key + y);
    OnlyAtSeam(text, |x|, |x|, key, q);
  }
}
