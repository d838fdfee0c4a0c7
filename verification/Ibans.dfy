/** pkg/sanitizer/sanitizer.go: all IBANs of a text share one placeholder, and the map keeps the
    last of them. */
module Ibans {
  import opened Strings
  import opened Sanitizing
  import opened RoundTrip
  import opened Overwritten

  const IBAN_KEY := "[IBAN_MASKED]"

  /** Every IBAN gets the same placeholder. */
  function Iban(value: string): Finding {
    Finding(Plain, "IBAN", "MASKED", value)
  }

  function Findings(values: seq<string>): (findings: seq<Finding>)
    ensures |findings| == |values|
    ensures forall i | 0 <= i < |values| :: findings[i] == Iban(values[i])
  {
    seq(|values|, i requires 0 <= i < |values| => Iban(values[i]))
  }

  /** At its turn each IBAN is found, clear of the placeholders. */
  ghost predicate Found(s: Sanitized, value: string) {
    var k := IndexFrom(s.text, value, 0);
    k <= |s.text| && Apart(s.text, IBAN_KEY, k, |value|)
  }

  function Originals(d: Doc): seq<string> {
    match d
    case End(_) => []
    case Hole(_, _, o, r) => [o] + Originals(r)
  }

  /** As many texts, as long in all, and the same ones. */
  ghost predicate SameParts(a: seq<string>, b: seq<string>) {
    |a| == |b| && TotalLength(a) == TotalLength(b) && forall o :: o in a <==> o in b
  }

  lemma PartsSwap(a: seq<string>, o: string, piece: string, rest: seq<string>)
    requires SameParts(a, [piece] + rest)
    ensures SameParts([o] + a, [piece] + ([o] + rest))
  {
    assert ([o] + a)[1..] == a && ([piece] + rest)[1..] == rest;
    assert ([piece] + ([o] + rest))[1..] == [o] + rest && ([o] + rest)[1..] == rest;
    forall x
      ensures x in [o] + a <==> x in [piece] + ([o] + rest)
    {
      assert x in [o] + a <==> x == o || x in [piece] + rest;
      assert x in [piece] + rest <==> x == piece || x in rest;
    }
  }

  lemma {:induction false} CutParts(d: Doc, i: nat, piece: string, key: string)
    requires Free(d, i, piece)
    ensures i + |piece| <= |Render(d)|
    ensures SameParts(Originals(Cut(d, i, |piece|, key)), [piece] + Originals(d))
    ensures Keys(Cut(d, i, |piece|, key)) == Keys(d) + {key}
  {
    hide Free, SameParts;
    FreeFits(d, i, piece);
    PartsRefl([piece] + Originals(d));
    if d.Hole? {
      PieceFits(d, i, piece);
      if i + |piece| <= |d.before| {
        assert d.before[i..i + |piece|] == Render(d)[i..i + |piece|];
      } else {
        var i' := i - |d.before| - |d.key|;
        BehindHole(d, i, piece);
        CutParts(d.rest, i', piece, key);
        PartsSwap(Originals(Cut(d.rest, i', |piece|, key)), d.original, piece, Originals(d.rest));
      }
    }
  }

  lemma PartsRefl(a: seq<string>)
    ensures SameParts(a, a)
  {
  }

  /** The document with every hole filled with one value. */
  function FillAll(d: Doc, value: string): string {
    match d
    case End(t) => t
    case Hole(b, _, _, r) => b + (value + FillAll(r, value))
  }

  lemma {:induction false} FillOneKey(d: Doc, key: string, value: string)
    requires Keys(d) <= {key} && key != "" && Mute(d, key)
    ensures Render(Fill(d, key, value)) == FillAll(d, value)
  {
    hide ReplaceAll, Contains;
    match d
    case End(t) =>
      NoReplace(t, key, value);
    case Hole(b, k, _, r) =>
      assert k in Keys(d);
      NoReplace(b, key, value);
      FillOneKey(r, key, value);
      PrependDoc(b + value, Fill(r, key, value));
      Regroup(b, value, FillAll(r, value));
  }

  function TotalLength(values: seq<string>): nat {
    if values == [] then 0 else |values[0]| + TotalLength(values[1..])
  }

  lemma {:induction false} TotalOfParts(a: seq<string>, b: seq<string>)
    ensures TotalLength(a + b) == TotalLength(a) + TotalLength(b)
  {
    if a == [] {
      assert a + b == b;
    } else {
      assert (a + b)[1..] == a[1..] + b;
      TotalOfParts(a[1..], b);
    }
  }

  lemma PartsAppend(a: seq<string>, piece: string, b: seq<string>, values: seq<string>)
    requires SameParts(a, [piece] + b) && SameParts(b, values)
    ensures SameParts(a, values + [piece])
  {
    TotalOfParts(values, [piece]);
    TotalOfParts([piece], b);
    forall x
      ensures x in a <==> x in values + [piece]
    {
      assert x in [piece] + b <==> x == piece || x in b;
      assert x in values + [piece] <==> x == piece || x in values;
    }
  }

  lemma {:induction false} FillAllLength(d: Doc, value: string)
    ensures |FillAll(d, value)| + TotalLength(Originals(d)) == |Original(d)| + |Originals(d)| * |value|
  {
    if d.Hole? {
      FillAllLength(d.rest, value);
      var n := |Originals(d.rest)|;
      assert Originals(d)[1..] == Originals(d.rest);
      assert (n + 1) * |value| == n * |value| + |value|;
    }
  }

  predicate AllAre(parts: seq<string>, value: string) {
    forall p | p in parts :: p == value
  }

  lemma AllAreIff(o: string, rest: seq<string>, value: string)
    ensures AllAre([o] + rest, value) <==> o == value && AllAre(rest, value)
  {
    assert o in [o] + rest && forall p | p in rest :: p in [o] + rest;
  }

  lemma {:induction false} FillAllIff(d: Doc, value: string)
    requires forall o | o in Originals(d) :: |o| == |value|
    ensures |FillAll(d, value)| == |Original(d)|
    ensures FillAll(d, value) == Original(d) <==> AllAre(Originals(d), value)
  {
    if d.Hole? {
      var o, rest := d.original, Originals(d.rest);
      assert Originals(d) == [o] + rest;
      AllAreIff(o, rest, value);
      assert o in Originals(d) && forall p | p in rest :: p in Originals(d);
      FillAllIff(d.rest, value);
      SameFront(d.before, value, FillAll(d.rest, value), o, Original(d.rest));
    }
  }

  /** The text after some IBANs, as a document with one placeholder. */
  ghost predicate IsIbanDoc(d: Doc, input: string, text: string, values: seq<string>) {
    && WellFormed(d) && Render(d) == text && Original(d) == input
    && Keys(d) <= {IBAN_KEY} && SameParts(Originals(d), values)
  }

  ghost predicate AllFound(input: string, values: seq<string>) {
    forall i | 0 <= i < |values| :: Found(ApplyAll(input, Findings(values[..i])), values[i])
  }

  /** The last IBAN of a list, seen as one more step after the others. */
  lemma LastIban(input: string, values: seq<string>)
    requires values != []
    ensures var before, v := values[..|values| - 1], values[|values| - 1];
            && ApplyAll(input, Findings(values)) == Apply(ApplyAll(input, Findings(before)), Iban(v))
            && (AllFound(input, values) ==> AllFound(input, before) && Found(ApplyAll(input, Findings(before)), v))
  {
    hide Apply, Found;
    var n := |values| - 1;
    assert Findings(values)[..n] == Findings(values[..n]);
    if AllFound(input, values) {
      hide ApplyAll;
      forall i | 0 <= i < n
        ensures Found(ApplyAll(input, Findings(values[..n][..i])), values[..n][i])
      {
        assert values[..n][..i] == values[..i];
      }
    }
  }

  lemma IbanKey()
    ensures IsPlaceholder(IBAN_KEY) && forall v :: PlaceholderOf(Iban(v)) == IBAN_KEY
  {
    assert Placeholder("IBAN", "MASKED") == IBAN_KEY;
  }

  lemma IbanStep(d: Doc, input: string, s: Sanitized, values: seq<string>, v: string) returns (d': Doc)
    requires IsIbanDoc(d, input, s.text, values) && Found(s, v)
    ensures IsIbanDoc(d', input, Apply(s, Iban(v)).text, values + [v])
  {
    hide Cut, WellFormed, Render, Original, Keys, Originals, Apart, SameParts;
    IbanKey();
    var k := IndexFrom(s.text, v, 0);
    assert Free(d, k, v);
    CutParts(d, k, v, IBAN_KEY);
    d' := Cut(d, k, |v|, IBAN_KEY);
    CutDoc(d, k, v, IBAN_KEY);
    PartsAppend(Originals(d'), v, Originals(d), values);
  }

  lemma IbanStart(input: string, values: seq<string>)
    requires values == []
    ensures IsIbanDoc(End(input), input, ApplyAll(input, Findings(values)).text, values)
  {
  }

  lemma {:induction false} IbanDoc(input: string, values: seq<string>) returns (d: Doc)
    requires AllFound(input, values)
    ensures IsIbanDoc(d, input, ApplyAll(input, Findings(values)).text, values)
  {
    hide ApplyAll, Findings, AllFound, IsIbanDoc, Found, Apply;
    if values == [] {
      d := End(input);
      IbanStart(input, values);
    } else {
      var before, v := values[..|values| - 1], values[|values| - 1];
      LastIban(input, values);
      d := IbanDoc(input, before);
      d := IbanStep(d, input, ApplyAll(input, Findings(before)), before, v);
      assert values == before + [v];
    }
  }

  lemma {:induction false} IbanMapping(input: string, values: seq<string>)
    requires values != []
    ensures ApplyAll(input, Findings(values)).mapping == map[IBAN_KEY := values[|values| - 1]]
  {
    IbanKey();
    LastIban(input, values);
    if |values| > 1 {
      IbanMapping(input, values[..|values| - 1]);
    }
  }

  /** What comes back of a text with IBANs: every hole filled with the last one. */
  lemma IbansRestored(input: string, values: seq<string>) returns (d: Doc)
    requires !Contains(input, IBAN_KEY) && values != [] && AllFound(input, values)
    ensures ApplyAll(input, Findings(values)).mapping.Keys == {IBAN_KEY}
    ensures IsIbanDoc(d, input, ApplyAll(input, Findings(values)).text, values)
    ensures Restored(input, Findings(values), [IBAN_KEY]) == FillAll(d, values[|values| - 1])
  {
    hide ReplaceAll, ApplyAll, Contains;
    var last := values[|values| - 1];
    d := IbanDoc(input, values);
    IbanMapping(input, values);
    IbanKey();
    ReplaceFills(d, IBAN_KEY, last);
    assert "" + input == input;
    UnspelledIsLone("", d, IBAN_KEY);
    LoneIsMute("", d, IBAN_KEY);
    FillOneKey(d, IBAN_KEY, last);
    var s := ApplyAll(input, Findings(values));
    assert [IBAN_KEY] + [] == [IBAN_KEY];
    Brackets(IBAN_KEY);
    WalkOne(s.text, FillAll(d, last), s.mapping, IBAN_KEY, []);
  }

  /** How long it is: as many times the last IBAN as there are IBANs, in place of all of them. */
  lemma IbanLengths(input: string, values: seq<string>)
    requires !Contains(input, IBAN_KEY) && values != [] && AllFound(input, values)
    ensures ApplyAll(input, Findings(values)).mapping.Keys == {IBAN_KEY}
    ensures |Restored(input, Findings(values), [IBAN_KEY])| + TotalLength(values)
         == |input| + |values| * |values[|values| - 1]|
  {
    var d := IbansRestored(input, values);
    FillAllLength(d, values[|values| - 1]);
  }

  lemma OneOrder(input: string, findings: seq<Finding>, key: string)
    requires ApplyAll(input, findings).mapping.Keys == {key}
    ensures AlwaysRestores(input, findings) <==> Restored(input, findings, [key]) == input
  {
    hide ApplyAll, Restored;
    assert IsIteration([key], {key});
    forall order | IsIteration(order, {key})
      ensures order == [key]
    {
      OnlyOrder(order, key);
    }
  }

  /** Texts with any number of IBANs: they can only come back when the IBANs are on average as
      long as the last, because only the last one is recorded; and when all are of one length,
      they come back exactly when all are the same. */
  lemma IbanRoundTripIff(input: string, values: seq<string>)
    requires !Contains(input, IBAN_KEY) && values != [] && AllFound(input, values)
    ensures AlwaysRestores(input, Findings(values)) ==> TotalLength(values) == |values| * |values[|values| - 1]|
    ensures (forall i | 0 <= i < |values| :: |values[i]| == |values[0]|) ==>
              (AlwaysRestores(input, Findings(values)) <==> forall i | 0 <= i < |values| :: values[i] == values[0])
  {
    hide AlwaysRestores, Restored, ApplyAll, AllFound, Contains;
    IbanLengths(input, values);
    OneOrder(input, Findings(values), IBAN_KEY);
    var d := IbansRestored(input, values);
    var last := values[|values| - 1];
    if forall i | 0 <= i < |values| :: |values[i]| == |values[0]| {
      FillAllIff(d, last);
      assert last == values[|values| - 1] && last in values;
      assert forall i | 0 <= i < |values| :: values[i] in values;
    }
  }

  /** Two IBANs, of any lengths, come back exactly when they are the same. */
  lemma TwoIbansIff(input: string, v: string, w: string)
    requires !Contains(input, IBAN_KEY) && AllFound(input, [v, w])
    ensures AlwaysRestores(input, Findings([v, w])) <==> v == w
  {
    hide AlwaysRestores, AllFound, Contains;
    var values := [v, w];
    IbanRoundTripIff(input, values);
    TotalOfParts([v], [w]);
    assert [v] + [w] == values && [v][1..] == [] && [w][1..] == [];
    assert values[0] == v && values[1] == w;
  }

  // ---------- IBANs that stand apart ----------

  predicate InNone(c: char, values: seq<string>) {
    forall i | 0 <= i < |values| :: c !in values[i]
  }

  /** What follows a placeholder is the end of the text, or a character that no IBAN holds and
      no placeholder starts with. */
  ghost predicate Bounded(text: string, values: seq<string>) {
    forall q: nat | OccursAt(text, IBAN_KEY, q) && q + |IBAN_KEY| < |text| ::
      text[q + |IBAN_KEY|] != '[' && InNone(text[q + |IBAN_KEY|], values)
  }

  /** Between two holes there is text, and it starts with a character that no IBAN holds. */
  predicate Separated(d: Doc, values: seq<string>) {
    d.Hole? ==>
      && (d.rest.Hole? ==> d.rest.before != "" && InNone(d.rest.before[0], values))
      && Separated(d.rest, values)
  }

  lemma {:induction false} BoundedIsSeparated(d: Doc, values: seq<string>)
    requires WellFormed(d) && Keys(d) <= {IBAN_KEY} && Bounded(Render(d), values)
    ensures Separated(d, values)
  {
    if d.Hole? {
      assert d.key in Keys(d) && d.key == IBAN_KEY;
      var front, rest := d.before + d.key, Render(d.rest);
      assert Render(d) == front + rest;
      HoleParts(d);
      forall q: nat | OccursAt(rest, IBAN_KEY, q) && q + |IBAN_KEY| < |rest|
        ensures rest[q + |IBAN_KEY|] != '[' && InNone(rest[q + |IBAN_KEY|], values)
      {
        ShiftOccurrence(front, rest, IBAN_KEY, q);
        assert rest[q + |IBAN_KEY|] == (front + rest)[|front| + q + |IBAN_KEY|];
      }
      BoundedIsSeparated(d.rest, values);
      NextChar(d);
    }
  }

  lemma NextChar(d: Doc)
    requires d.Hole? && WellFormed(d)
    ensures d.rest.Hole? ==>
              && |d.before| + |d.key| < |Render(d)|
              && Render(d)[|d.before| + |d.key|] == if d.rest.before == "" then '[' else d.rest.before[0]
  {
    assert Render(d) == d.before + d.key + Render(d.rest);
    if d.rest.Hole? {
      Brackets(d.rest.key);
    }
  }

  lemma {:induction false} FillSeparatedIff(d: Doc, value: string, values: seq<string>)
    requires Separated(d, values) && value in values && forall o | o in Originals(d) :: o in values
    ensures FillAll(d, value) == Original(d) <==> AllAre(Originals(d), value)
  {
    if d.Hole? {
      var o, rest := d.original, Originals(d.rest);
      assert Originals(d) == [o] + rest;
      AllAreIff(o, rest, value);
      assert o in Originals(d) && forall p | p in rest :: p in Originals(d);
      FillSeparatedIff(d.rest, value, values);
      HoleIff(d, value, values);
    }
  }

  /** The first hole, and the rest. */
  lemma HoleIff(d: Doc, value: string, values: seq<string>)
    requires d.Hole? && Separated(d, values) && value in values && d.original in values
    ensures FillAll(d, value) == Original(d) <==> value == d.original && FillAll(d.rest, value) == Original(d.rest)
  {
    var b, o, x, y := d.before, d.original, FillAll(d.rest, value), Original(d.rest);
    if b + (value + x) == b + (o + y) {
      assert value + x == (b + (value + x))[|b|..] && o + y == (b + (o + y))[|b|..];
      if d.rest.Hole? {
        var c := d.rest.before[0];
        assert x[0] == y[0] == c && c !in value && c !in o;
        assert value + [c] + x[1..] == value + x && o + [c] + y[1..] == o + y;
        SplitHead(c, value, x[1..], o, y[1..]);
      } else {
        SameTail(value, o, x);
      }
    }
  }

  lemma SameTail(v: string, o: string, t: string)
    requires v + t == o + t
    ensures v == o
  {
    assert |v| == |o| && v == (v + t)[..|v|] && o == (o + t)[..|o|];
  }

  /** IBANs of any lengths and any number, each followed by a character that none of them
      holds, such as a comma: they come back exactly when they are all the same. */
  lemma SeparatedIbansIff(input: string, values: seq<string>)
    requires !Contains(input, IBAN_KEY) && values != [] && AllFound(input, values)
    requires Bounded(ApplyAll(input, Findings(values)).text, values)
    ensures AlwaysRestores(input, Findings(values)) <==> forall i | 0 <= i < |values| :: values[i] == values[0]
  {
    hide AlwaysRestores, Restored, ApplyAll, AllFound, Contains, Bounded, Separated;
    OneOrder(input, Findings(values), IBAN_KEY) by {
      IbanLengths(input, values);
    }
    var d := IbansRestored(input, values);
    var last := values[|values| - 1];
    BoundedIsSeparated(d, values);
    assert last in values;
    FillSeparatedIff(d, last, values);
    assert forall i | 0 <= i < |values| :: values[i] in values;
  }
}
