/** pkg/sanitizer/sanitizer.go: how a later finding breaks an earlier placeholder, and what
    becomes of placeholders that the input spells itself. */
module BrokenPlaceholders {
  import opened Strings
  import opened Sanitizing
  import opened RoundTrip

  // ---------- A match inside an earlier placeholder ----------

  /** The condition on where the first occurrence lies is needed.  When a password value
      also occurs as the name inside an earlier placeholder ("EMAIL" in [EMAIL_1]), that
      copy is the one replaced, and walking the map with the earlier placeholder first
      leaves it in the text. */
  lemma NestedPlaceholder(first: Finding, second: Finding, sep: string)
    requires first.kind == Plain && second.kind == Password && second.value == first.name != ""
    requires BracketFree(first.value) && BracketFree(first.name) && BracketFree(first.tag) && BracketFree(sep)
    requires IsPlaceholder(PlaceholderOf(second)) && PlaceholderOf(first) != PlaceholderOf(second)
    ensures var input, k1, k2 := first.value + (sep + first.name), PlaceholderOf(first), PlaceholderOf(second);
            var s := ApplyAll(input, [first, second]);
            && IsIteration([k1, k2], s.mapping.Keys)
            && RehydrateIn(s.text, s.mapping, [k1, k2]) == k1 + (sep + first.name)
            && RehydrateIn(s.text, s.mapping, [k1, k2]) != input
  {
    var k1, k2 := PlaceholderOf(first), PlaceholderOf(second);
    var tail := "_" + first.tag + "]" + (sep + first.name);
    NamedPlaceholder(first.name, first.tag);
    NestedText(first, second, sep);
    WalkNested(k1, k2, first.value, first.name, tail);
    PairIteration(k1, k2, first.value, first.name);
    hide RehydrateIn, ApplyAll, Placeholder, IsPlaceholder, Applies, IsIteration;
    NestedShape(k1, first.name, first.tag, sep, first.value);
  }

  /** Nor may a value swallow an earlier placeholder.  In "password=me@corp.com!" the e-mail
      pass leaves "password=[EMAIL_1]!", and the password pass records "[EMAIL_1]!", which
      starts with a bracket but does not end with one.  Walking [EMAIL_1] first leaves it. */
  lemma SwallowedPlaceholder(first: Finding, second: Finding, front: string, tail: string)
    requires first.kind == Plain && second.kind == Password
    requires IsPlaceholder(PlaceholderOf(first)) && IsPlaceholder(PlaceholderOf(second))
    requires PlaceholderOf(first) != PlaceholderOf(second)
    requires BracketFree(front) && BracketFree(first.value) && tail != "" && tail[|tail| - 1] != ']'
    requires second.value == PlaceholderOf(first) + tail
    requires forall i | 0 <= i < |front| :: !OccursAt(front + (first.value + tail), first.value, i)
    ensures var input, k1, k2 := front + (first.value + tail), PlaceholderOf(first), PlaceholderOf(second);
            var s := ApplyAll(input, [first, second]);
            && IsIteration([k1, k2], s.mapping.Keys)
            && RehydrateIn(s.text, s.mapping, [k1, k2]) == front + (k1 + tail)
            && RehydrateIn(s.text, s.mapping, [k1, k2]) != input
  {
    var input, k1, k2 := front + (first.value + tail), PlaceholderOf(first), PlaceholderOf(second);
    ApplyTwo(input, first, second);
    SwallowedText(first, second, front, tail);
    PairIteration(k1, k2, first.value, second.value);
    Brackets(k1);
    Brackets(k2);
    assert '[' in k1 && '[' in k2;
    hide ApplyAll, Placeholder, Applies, IsIteration, ReplaceAll, IsPlaceholder, Contains, RehydrateIn, Apply;
    NotContained(front, k1, '[');
    NotContained(front, k2, '[');
    SwallowedWalk(front, k1, k2, first.value, tail);
    if front + (k1 + tail) == input {
      SameEnds(front, k1, first.value, tail);
    }
  }

  lemma SameEnds(front: string, a: string, b: string, tail: string)
    requires front + (a + tail) == front + (b + tail)
    ensures a == b
  {
    assert a == (front + (a + tail))[|front|..|front| + |a|];
    assert b == (front + (b + tail))[|front|..|front| + |b|];
  }

  lemma SwallowedText(first: Finding, second: Finding, front: string, tail: string)
    requires first.kind == Plain && second.kind == Password && BracketFree(front)
    requires tail != "" && tail[|tail| - 1] != ']' && second.value == PlaceholderOf(first) + tail
    requires forall i | 0 <= i < |front| :: !OccursAt(front + (first.value + tail), first.value, i)
    ensures Apply(Apply(Sanitized(front + (first.value + tail), map[]), first), second)
         == Sanitized(front + PlaceholderOf(second),
                      map[PlaceholderOf(first) := first.value, PlaceholderOf(second) := second.value])
  {
    var k1, k2 := PlaceholderOf(first), PlaceholderOf(second);
    FirstAt(front, first.value, tail, k1);
    var text := front + (k1 + tail);
    assert text == front + (second.value + "") && front + (k2 + "") == front + k2;
    forall i | 0 <= i < |front|
      ensures !OccursAt(text, second.value, i)
    {
      LiteralChar(front, i);
      assert text[i] == front[i] && second.value[0] == '[';
      if OccursAt(text, second.value, i) {
        OccursChars(text, second.value, i);
      }
    }
    FirstAt(front, second.value, "", k2);
  }

  lemma FirstAt(front: string, p: string, rest: string, r: string)
    requires forall i | 0 <= i < |front| :: !OccursAt(front + (p + rest), p, i)
    ensures ReplaceFirst(front + (p + rest), p, r) == front + (r + rest)
  {
    var s := front + (p + rest);
    assert s[|front|..|front| + |p|] == p && OccursAt(s, p, |front|);
    assert IndexFrom(s, p, 0) == |front|;
    assert s[..|front|] == front && s[|front| + |p|..] == rest;
  }

  lemma SwallowedWalk(front: string, k1: string, k2: string, v: string, tail: string)
    requires IsPlaceholder(k1) && IsPlaceholder(k2) && k1 != k2 && k1 != "" && k2 != ""
    requires !Contains(front, k1) && !Contains(front, k2)
    ensures RehydrateIn(front + k2, map[k1 := v, k2 := k1 + tail], [k1, k2]) == front + (k1 + tail)
  {
    hide IsPlaceholder, Contains, ReplaceAll;
    var text, mapping := front + k2, map[k1 := v, k2 := k1 + tail];
    assert front + (k2 + "") == text && k2 + "" == k2 && front + ((k1 + tail) + "") == front + (k1 + tail);
    LiteralPasses(front, k2, "", k1, v);
    PassesHere(k2, k1, v, "");
    ReplaceNothing("", k1, v);
    UndoParts(front, k1 + tail, "", k2) by {
      NothingContained(k2);
    }
    assert [k1] + [k2] == [k1, k2] && [k2] + [] == [k2];
    WalkOne(text, text, mapping, k1, [k2]);
    WalkOne(text, front + (k1 + tail), mapping, k2, []);
  }

  lemma NothingContained(k: string)
    requires k != ""
    ensures !Contains("", k)
  {
  }

  lemma NestedShape(k1: string, name: string, tag: string, sep: string, value: string)
    requires k1 == ['['] + (name + ("_" + tag + "]")) && BracketFree(value)
    ensures ['['] + (name + ("_" + tag + "]" + (sep + name))) == k1 + (sep + name)
    ensures '[' !in value + (sep + name) ==> k1 + (sep + name) != value + (sep + name)
  {
    assert (k1 + (sep + name))[0] == '[';
  }

  lemma PairIteration(k1: string, k2: string, v1: string, v2: string)
    requires k1 != k2
    ensures IsIteration([k1, k2], (map[k1 := v1, k2 := v2]).Keys)
  {
    assert (map[k1 := v1, k2 := v2]).Keys == {k1, k2};
  }

  /** The earlier placeholder is nowhere in the text any more; the later one gives its name back. */
  lemma WalkNested(k1: string, k2: string, v: string, name: string, tail: string)
    requires IsPlaceholder(k1) && IsPlaceholder(k2) && k1 != k2 && '[' !in tail
    ensures RehydrateIn(['['] + (k2 + tail), map[k1 := v, k2 := name], [k1, k2]) == ['['] + (name + tail)
  {
    var text, mapping := ['['] + (k2 + tail), map[k1 := v, k2 := name];
    assert text[1] == '[';
    Brackets(k1);
    Brackets(k2);
    NoOpening(tail, k1, v);
    NoOpening(tail, k2, name);
    PassesHere(k2, k1, v, tail);
    ReplaceStep('[', k2 + tail, k1, v);
    assert (k2 + tail)[|k2|..] == tail && k2 <= k2 + tail;
    assert ReplaceAll(k2 + tail, k2, name) == name + tail;
    ReplaceStep('[', k2 + tail, k2, name);
    hide ReplaceAll;
    assert [k1, k2][1..] == [k2] && [k2][1..] == [];
    assert RehydrateIn(text, mapping, [k1, k2]) == RehydrateIn(text, mapping, [k2]);
  }

  lemma NestedText(first: Finding, second: Finding, sep: string)
    requires first.kind == Plain && second.kind == Password && second.value == first.name != ""
    requires BracketFree(first.value) && BracketFree(first.name)
    ensures ApplyAll(first.value + (sep + first.name), [first, second])
         == Sanitized(['['] + (PlaceholderOf(second) + ("_" + first.tag + "]" + (sep + first.name))),
                      map[PlaceholderOf(first) := first.value, PlaceholderOf(second) := first.name])
  {
    var input := first.value + (sep + first.name);
    var rest := "_" + first.tag + "]" + (sep + first.name);
    ApplyTwo(input, first, second);
    NestedFirst(first, sep);
    hide Apply, ApplyAll, Placeholder, Applies;
    var s1 := Apply(Sanitized(input, map[]), first);
    NameApplies(s1, second);
    NestedSecond(s1, second, rest);
  }

  lemma ApplyTwo(input: string, first: Finding, second: Finding)
    ensures ApplyAll(input, [first, second]) == Apply(Apply(Sanitized(input, map[]), first), second)
  {
    hide Apply;
    var both := [first, second];
    assert both[..1] == [first] && [first][..0] == [];
    assert ApplyAll(input, [first][..0]) == Sanitized(input, map[]);
  }

  lemma NestedFirst(first: Finding, sep: string)
    requires first.kind == Plain && first.name != ""
    ensures Apply(Sanitized(first.value + (sep + first.name), map[]), first)
         == Sanitized(['['] + first.name + ("_" + first.tag + "]" + (sep + first.name)),
                      map[PlaceholderOf(first) := first.value])
  {
    hide ReplaceFirst;
    var input := first.value + (sep + first.name);
    ReplaceFirstAt("", first.value, sep + first.name, PlaceholderOf(first));
    assert "" + first.value + (sep + first.name) == input;
    assert "" + PlaceholderOf(first) + (sep + first.name)
      == ['['] + first.name + ("_" + first.tag + "]" + (sep + first.name));
  }

  lemma NestedSecond(s: Sanitized, f: Finding, rest: string)
    requires Applies(s, f) && f.value != "" && BracketFree(f.value) && s.text == ['['] + f.value + rest
    ensures Apply(s, f) == Sanitized(['['] + (PlaceholderOf(f) + rest), s.mapping[PlaceholderOf(f) := f.value])
  {
    hide Applies, ReplaceFirst;
    ReplaceFirstAt(['['], f.value, rest, PlaceholderOf(f));
    assert ['['] + PlaceholderOf(f) + rest == ['['] + (PlaceholderOf(f) + rest);
  }

  lemma NameApplies(s: Sanitized, f: Finding)
    requires f.kind == Password && f.value != "" && BracketFree(f.value)
    ensures Applies(s, f)
  {
    assert f.value[|f.value| - 1] in f.value;
  }

  /** The first occurrence is the one behind characters that the pattern does not hold. */
  lemma ReplaceFirstAt(front: string, p: string, rest: string, r: string)
    requires front == "" || (|front| == 1 && front[0] !in p && p != "")
    ensures ReplaceFirst(front + p + rest, p, r) == front + r + rest
  {
    var s := front + p + rest;
    assert s[|front|..|front| + |p|] == p && OccursAt(s, p, |front|);
    if front != "" {
      assert p[0] in p && s[0] == front[0];
      PrefixOccurs(s, p);
    }
    assert IndexFrom(s, p, 0) == |front|;
    assert s[..|front|] == front && s[|front| + |p|..] == rest;
  }

  lemma NoOpening(tail: string, key: string, value: string)
    requires IsPlaceholder(key) && '[' !in tail
    ensures ReplaceAll(tail, key, value) == tail
  {
    forall i | 0 <= i < |tail|
      ensures !OccursAt(tail + "", key, i)
    {
      assert tail[i] in tail;
      assert i + |key| <= |tail| ==> tail[i..i + |key|][0] == tail[i];
      assert tail + "" == tail;
    }
    SkipPrefix(tail, "", key, value);
    ReplaceNothing("", key, value);
    assert tail + "" == tail;
  }

  // ---------- A placeholder that the input spells ----------

  /** An earlier answer quoted back: "[EMAIL_1] bob@x.io" becomes "[EMAIL_1] [EMAIL_1]", and the
      only order of the map makes "bob@x.io bob@x.io" of it. */
  lemma SpelledPlaceholder(f: Finding, sep: string)
    requires f.kind == Plain && IsPlaceholder(PlaceholderOf(f)) && BracketFree(sep) && BracketFree(f.value)
    requires forall i | 0 <= i < |PlaceholderOf(f)| + |sep| :: !OccursAt(PlaceholderOf(f) + sep + f.value, f.value, i)
    ensures var k := PlaceholderOf(f);
            var s := ApplyAll(k + sep + f.value, [f]);
            && s.text == k + sep + k
            && IsIteration([k], s.mapping.Keys)
            && k != "" && RehydrateIn(s.text, s.mapping, [k]) == f.value + sep + f.value
            && RehydrateIn(s.text, s.mapping, [k]) != k + sep + f.value
  {
    var k, v := PlaceholderOf(f), f.value;
    SpelledText(f, k + sep);
    Brackets(k);
    assert k[0] == '[' && BracketFree(v + sep + v) && (k + sep + v)[0] == '[';
    hide ApplyAll, Placeholder, IsPlaceholder, RehydrateIn, IsIteration;
    SpelledWalk(k, sep, v);
  }

  lemma SpelledText(f: Finding, front: string)
    requires f.kind == Plain && forall i | 0 <= i < |front| :: !OccursAt(front + f.value, f.value, i)
    ensures ApplyAll(front + f.value, [f]) == Sanitized(front + PlaceholderOf(f), map[PlaceholderOf(f) := f.value])
  {
    ApplyOne(front + f.value, f);
    assert f.value + "" == f.value && PlaceholderOf(f) + "" == PlaceholderOf(f);
    FirstAt(front, f.value, "", PlaceholderOf(f));
  }

  lemma SpelledWalk(k: string, sep: string, v: string)
    requires IsPlaceholder(k) && '[' !in sep
    ensures k != "" && IsIteration([k], (map[k := v]).Keys)
    ensures RehydrateIn(k + sep + k, map[k := v], [k]) == v + sep + v
  {
    Brackets(k);
    hide IsPlaceholder, ReplaceAll, Contains, RehydrateIn, IsIteration;
    assert sep + (k + "") == sep + k && v + (sep + (v + "")) == v + sep + v;
    NotContained(sep, k, '[');
    NothingContained(k);
    UndoParts(sep, v, "", k);
    ReplacePrefix(sep + k, k, v);
    Regroup(k, sep, k);
    WalkOnlyKey(k + sep + k, v + sep + v, k, v);
  }

  lemma WalkOnlyKey(text: string, to: string, k: string, v: string)
    requires k != "" && ReplaceAll(text, k, v) == to
    ensures IsIteration([k], (map[k := v]).Keys) && RehydrateIn(text, map[k := v], [k]) == to
  {
    assert (map[k := v]).Keys == {k};
    assert [k][1..] == [];
  }

  lemma ApplyOne(input: string, f: Finding)
    ensures ApplyAll(input, [f]) == Apply(Sanitized(input, map[]), f)
  {
    assert [f][..0] == [];
  }

  /** Not so when the copy touches what is replaced: for the name E, the text "[E_1]" becomes
      "[[E_1]_1]" and comes back. */
  lemma TouchedCopyRestores(f: Finding)
    requires f.kind == Plain && f.value == f.name != "" && BracketFree(f.name) && BracketFree(f.tag)
    ensures ApplyAll(PlaceholderOf(f), [f]).text == ['['] + (PlaceholderOf(f) + ("_" + f.tag + "]"))
    ensures AlwaysRestores(PlaceholderOf(f), [f])
  {
    var k, v, tail := PlaceholderOf(f), f.value, "_" + f.tag + "]";
    NamedPlaceholder(f.name, f.tag);
    TouchedText(f, tail);
    hide ApplyAll, Placeholder, IsPlaceholder, RehydrateIn, Restored;
    TouchedWalk(k, tail, v);
    OneKeyRestores(k, [f], k, v);
  }

  lemma TouchedText(f: Finding, tail: string)
    requires f.kind == Plain && f.value != "" && BracketFree(f.value) && PlaceholderOf(f) == ['['] + (f.value + tail)
    ensures ApplyAll(PlaceholderOf(f), [f])
         == Sanitized(['['] + (PlaceholderOf(f) + tail), map[PlaceholderOf(f) := f.value])
  {
    var k, v := PlaceholderOf(f), f.value;
    ApplyOne(k, f);
    hide ReplaceFirst, Placeholder;
    ReplaceFirstAt(['['], v, tail, k);
    assert ['['] + v + tail == k && ['['] + k + tail == ['['] + (k + tail);
  }

  lemma TouchedWalk(k: string, tail: string, v: string)
    requires IsPlaceholder(k) && '[' !in tail && k == ['['] + (v + tail)
    ensures k != "" && RehydrateIn(['['] + (k + tail), map[k := v], [k]) == k
  {
    Brackets(k);
    hide IsPlaceholder, ReplaceAll, RehydrateIn;
    NoOpening(tail, k, v);
    ReplacePrefix(tail, k, v);
    assert (['['] + (k + tail))[1] == '[';
    ReplaceStep('[', k + tail, k, v);
    WalkOnlyKey(['['] + (k + tail), k, k, v);
  }

  /** With one recorded placeholder there is one order. */
  lemma OneKeyRestores(input: string, findings: seq<Finding>, k: string, v: string)
    requires ApplyAll(input, findings).mapping == map[k := v]
    requires k != "" && RehydrateIn(ApplyAll(input, findings).text, map[k := v], [k]) == input
    ensures AlwaysRestores(input, findings)
  {
    hide ApplyAll, RehydrateIn, Restored;
    assert (map[k := v]).Keys == {k};
    forall order | IsIteration(order, {k})
      ensures Restored(input, findings, order) == input
    {
      OnlyOrder(order, k);
      RestoredMeans(input, findings, order);
    }
  }

  /** Values that open a bracket can be fixed points: an entity that reads like its own
      placeholder is replaced by itself, and any input comes back. */
  lemma OwnPlaceholderRestores(input: string, f: Finding)
    requires f.kind == Plain && f.value == PlaceholderOf(f)
    ensures AlwaysRestores(input, [f])
  {
    var k := f.value;
    ApplyOne(input, f);
    var i := IndexFrom(input, k, 0);
    var s := ApplyAll(input, [f]);
    assert s == Sanitized(input, map[k := k]) by {
      assert i <= |input| ==> input[..i] + k + input[i + |k|..] == input;
    }
    hide ApplyAll, RehydrateIn;
    ReplaceSelf(input, k);
    WalkOnlyKey(input, input, k, k);
    OneKeyRestores(input, [f], k, k);
  }

  lemma {:induction false} ReplaceSelf(text: string, k: string)
    requires k != ""
    ensures ReplaceAll(text, k, k) == text
    decreases |text|
  {
    if |text| >= |k| {
      if k <= text {
        ReplaceSelf(text[|k|..], k);
        assert text == k + text[|k|..];
      } else {
        ReplaceSelf(text[1..], k);
      }
    }
  }
}
