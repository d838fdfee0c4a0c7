/** The string operations of the Go standard library that the gateway relies on,
    with the facts about them the other modules need.  A `string` stands for a Go
    string read byte by byte; where the source ranges over runes, rune by rune. */
module Strings {

  /** `p` occurs in `s` at position `i`. */
  predicate OccursAt(s: string, p: string, i: nat) {
    i + |p| <= |s| && s[i..i + |p|] == p
  }

  /** strings.Contains */
  predicate Contains(s: string, p: string) {
    exists i | 0 <= i <= |s| :: OccursAt(s, p, i)
  }

  lemma OccursChars(s: string, p: string, i: nat)
    requires OccursAt(s, p, i)
    ensures forall j | i <= j < i + |p| :: p[j - i] == s[j]
  {
    assert forall j | i <= j < i + |p| :: s[i..i + |p|][j - i] == s[j];
  }

  lemma ContainsAt(s: string, p: string, i: nat)
    requires OccursAt(s, p, i)
    ensures Contains(s, p)
  {
    assert 0 <= i <= |s|;
  }

  lemma OccursInFront(front: string, rest: string, p: string, i: nat)
    requires i + |p| <= |front|
    ensures OccursAt(front + rest, p, i) <==> OccursAt(front, p, i)
  {
    assert (front + rest)[i..i + |p|] == front[i..i + |p|];
  }

  /** An occurrence does not cover a character that the pattern does not hold. */
  lemma NotInside(text: string, p: string, i: nat, j: nat)
    requires i <= j < i + |p| && j < |text| && text[j] !in p
    ensures !OccursAt(text, p, i)
  {
    assert p[j - i] in p;
    assert i + |p| <= |text| ==> text[i..i + |p|][j - i] == text[j];
  }

  /** Containment is transitive. */
  lemma ContainsTransitive(s: string, t: string, p: string)
    requires Contains(s, t) && Contains(t, p)
    ensures Contains(s, p)
  {
    var i :| 0 <= i <= |s| && OccursAt(s, t, i);
    var j :| 0 <= j <= |t| && OccursAt(t, p, j);
    assert forall k | 0 <= k < |t| :: s[i + k] == s[i..i + |t|][k] == t[k];
    assert s[i + j..i + j + |p|] == t[j..j + |p|];
    ContainsAt(s, p, i + j);
  }

  /** Everything that occurs in `t` occurs in `a + t + b`. */
  lemma ContainsInMiddle(a: string, t: string, b: string)
    ensures Contains(a + t + b, t)
  {
    assert (a + t + b)[|a|..|a| + |t|] == t;
    ContainsAt(a + t + b, t, |a|);
  }

  /** A pattern that holds a character `s` does not hold cannot occur in `s`. */
  lemma NotContained(s: string, p: string, c: char)
    requires c in p && c !in s
    ensures !Contains(s, p)
  {
    var j :| 0 <= j < |p| && p[j] == c;
    forall i | 0 <= i <= |s|
      ensures !OccursAt(s, p, i)
    {
      assert i + |p| <= |s| ==> s[i..i + |p|][j] == s[i + j];
    }
  }

  /** strings.ReplaceAll for a non-empty pattern: leftmost occurrences, no overlaps,
      replaced text not scanned again. */
  function ReplaceAll(s: string, p: string, r: string): string
    requires p != ""
  {
    if |s| < |p| then s
    else if p <= s then r + ReplaceAll(s[|p|..], p, r)
    else [s[0]] + ReplaceAll(s[1..], p, r)
  }

  lemma PrefixOccurs(s: string, p: string)
    ensures p <= s <==> OccursAt(s, p, 0)
  {
    assert |p| <= |s| ==> s[0..0 + |p|] == s[..|p|];
  }

  /** Too short to hold the pattern. */
  lemma ReplaceNothing(s: string, p: string, r: string)
    requires |s| < |p|
    ensures ReplaceAll(s, p, r) == s
  {
  }

  lemma OccursInTail(s: string, p: string, i: nat)
    requires s != ""
    ensures OccursAt(s[1..], p, i) <==> OccursAt(s, p, i + 1)
  {
    assert i + 1 + |p| <= |s| ==> s[i + 1..i + 1 + |p|] == s[1..][i..i + |p|];
  }

  lemma ReplaceStep(c: char, rest: string, p: string, r: string)
    requires p != "" && !(p <= [c] + rest)
    ensures ReplaceAll([c] + rest, p, r) == [c] + ReplaceAll(rest, p, r)
  {
    assert ([c] + rest)[1..] == rest;
  }

  /** Text in front of every occurrence is copied. */
  lemma {:induction false} SkipPrefix(front: string, rest: string, p: string, r: string)
    requires p != ""
    requires forall i | 0 <= i < |front| :: !OccursAt(front + rest, p, i)
    ensures ReplaceAll(front + rest, p, r) == front + ReplaceAll(rest, p, r)
  {
    hide ReplaceAll;
    var s := front + rest;
    if front == "" {
      assert s == rest;
    } else {
      var tail := front[1..] + rest;
      assert s == [front[0]] + tail && s[1..] == tail;
      forall i | 0 <= i < |front[1..]|
        ensures !OccursAt(tail, p, i)
      {
        OccursInTail(s, p, i);
        assert !OccursAt(s, p, i + 1);
      }
      SkipPrefix(front[1..], rest, p, r);
      assert !OccursAt(s, p, 0);
      PrefixOccurs(s, p);
      ReplaceStep(front[0], tail, p, r);
      assert [front[0]] + (front[1..] + ReplaceAll(rest, p, r)) == front + ReplaceAll(rest, p, r);
    }
  }

  /** The first position at or after `i` where `p` occurs, or |s| + 1 when there is none. */
  function IndexFrom(s: string, p: string, i: nat): (k: nat)
    requires i <= |s| + 1
    ensures i <= k <= |s| + 1
    ensures k <= |s| ==> OccursAt(s, p, k)
    ensures forall j :: i <= j < k ==> !OccursAt(s, p, j)
    decreases |s| + 1 - i
  {
    if i == |s| + 1 then i
    else if OccursAt(s, p, i) then i
    else IndexFrom(s, p, i + 1)
  }

  /** strings.Replace(s, p, r, 1): only the first occurrence is replaced. */
  function ReplaceFirst(s: string, p: string, r: string): string {
    var k := IndexFrom(s, p, 0);
    if k > |s| then s else s[..k] + r + s[k + |p|..]
  }

  lemma FirstSeparator(sep: char, a: string, x: string)
    requires sep !in a
    ensures var s := a + [sep] + x;
            s[|a|] == sep && s[..|a|] == a && s[|a| + 1..] == x && forall i | 0 <= i < |a| :: s[i] != sep
  {
  }

  lemma LastSeparator(sep: char, a: string, x: string)
    requires sep !in x
    ensures var s := a + [sep] + x;
            s[|a|] == sep && s[..|a|] == a && s[|a| + 1..] == x && forall i | |a| < i < |s| :: s[i] != sep
  {
    var s := a + [sep] + x;
    forall i | |a| < i < |s|
      ensures s[i] != sep
    {
      assert s[i] == x[i - |a| - 1];
    }
  }

  lemma Regroup<T>(x: seq<T>, y: seq<T>, z: seq<T>)
    ensures x + (y + z) == (x + y) + z
  {
  }

  /** A separator-free head is determined by the text: the way every joined key and
      payload in the gateway is taken apart. */
  lemma SplitHead(sep: char, a: string, x: string, b: string, y: string)
    requires sep !in a && sep !in b
    requires a + [sep] + x == b + [sep] + y
    ensures a == b && x == y
  {
    FirstSeparator(sep, a, x);
    FirstSeparator(sep, b, y);
    assert |a| == |b|;
  }

  /** The mirror image: a separator-free tail is determined by the text. */
  lemma SplitTail(sep: char, a: string, x: string, b: string, y: string)
    requires sep !in x && sep !in y
    requires a + [sep] + x == b + [sep] + y
    ensures a == b && x == y
  {
    LastSeparator(sep, a, x);
    LastSeparator(sep, b, y);
    assert |a| == |b|;
  }

  // ---------- strings.Split ----------

  /** The pieces between the separators. */
  function Split(s: string, sep: char): (pieces: seq<string>)
    ensures |pieces| >= 1
  {
    if s == "" then [""] else AddFront(s[0], sep, Split(s[1..], sep))
  }

  function AddFront(c: char, sep: char, pieces: seq<string>): (pieces': seq<string>)
    requires |pieces| >= 1
    ensures |pieces'| >= 1
  {
    if c == sep then [""] + pieces else [[c] + pieces[0]] + pieces[1..]
  }

  lemma AddFrontAppend(c: char, sep: char, x: seq<string>, y: seq<string>)
    requires |x| >= 1
    ensures AddFront(c, sep, x + y) == AddFront(c, sep, x) + y
  {
    assert (x + y)[1..] == x[1..] + y;
  }

  /** Splitting at a separator splits the pieces. */
  lemma {:induction false} SplitJoined(sep: char, a: string, b: string)
    ensures Split(a + ([sep] + b), sep) == Split(a, sep) + Split(b, sep)
  {
    if a == "" {
      assert a + ([sep] + b) == [sep] + b && ([sep] + b)[1..] == b;
    } else {
      SplitJoined(sep, a[1..], b);
      assert (a + ([sep] + b))[1..] == a[1..] + ([sep] + b);
      AddFrontAppend(a[0], sep, Split(a[1..], sep), Split(b, sep));
    }
  }

  lemma {:induction false} SplitOne(sep: char, a: string)
    requires sep !in a
    ensures Split(a, sep) == [a]
  {
    if a != "" {
      SplitOne(sep, a[1..]);
      assert a == [a[0]] + a[1..];
    }
  }

  /** Go's int64, and its `int` on the 64-bit platforms the server is built for. */
  type Int64 = x: int | -0x8000_0000_0000_0000 <= x < 0x8000_0000_0000_0000

  // ---------- Numerals: %d and %b, and what strconv.ParseInt reads back ----------

  predicate IsDigit(c: char, base: nat) {
    '0' <= c && (c as int) - ('0' as int) < base
  }

  function DigitValue(c: char): int {
    (c as int) - ('0' as int)
  }

  function Digit(d: nat): char
    requires d < 10
  {
    (('0' as int) + d) as char
  }

  /** The numeral of `n`: most significant digit first, no leading zero. */
  function Numeral(n: nat, base: nat): (s: string)
    requires base == 2 || base == 10
    ensures s != ""
    ensures forall i | 0 <= i < |s| :: IsDigit(s[i], base)
  {
    if n < base then [Digit(n)] else Numeral(n / base, base) + [Digit(n % base)]
  }

  /** The value a digit string denotes; leading zeros are allowed. */
  function NumeralValue(s: string, base: nat): (n: nat)
    requires base == 2 || base == 10
    requires forall i | 0 <= i < |s| :: IsDigit(s[i], base)
  {
    if s == "" then 0
    else
      assert IsDigit(s[|s| - 1], base);
      NumeralValue(s[..|s| - 1], base) * base + DigitValue(s[|s| - 1])
  }

  lemma NumeralValueStep(s: string, d: char, base: nat)
    requires base == 2 || base == 10
    requires forall i | 0 <= i < |s + [d]| :: IsDigit((s + [d])[i], base)
    ensures IsDigit(d, base) && forall i | 0 <= i < |s| :: IsDigit(s[i], base)
    ensures NumeralValue(s + [d], base) == NumeralValue(s, base) * base + DigitValue(d)
  {
    var t := s + [d];
    assert t[|t| - 1] == d && t[..|t| - 1] == s;
    forall i | 0 <= i < |s|
      ensures IsDigit(s[i], base)
    {
      assert t[i] == s[i];
    }
  }

  lemma DivMod(n: nat, base: nat)
    requires (base == 2 || base == 10) && base <= n
    ensures n / base * base + n % base == n && n / base < n && n % base < base
  {
  }

  lemma {:induction false} NumeralRoundTrip(n: nat, base: nat)
    requires base == 2 || base == 10
    ensures NumeralValue(Numeral(n, base), base) == n
    decreases n
  {
    if n < base {
      NumeralValueStep("", Digit(n), base);
      assert "" + [Digit(n)] == [Digit(n)];
    } else {
      DivMod(n, base);
      var q, d := n / base, n % base;
      NumeralRoundTrip(q, base);
      assert Numeral(n, base) == Numeral(q, base) + [Digit(d)];
      NumeralValueStep(Numeral(q, base), Digit(d), base);
      assert DigitValue(Digit(d)) == d;
    }
  }

  /** fmt's %d */
  function Decimal(n: int): (s: string)
    ensures s != ""
    ensures forall i | 0 <= i < |s| :: IsDigit(s[i], 10) || s[i] == '-'
  {
    if n < 0 then "-" + Numeral(-n, 10) else Numeral(n, 10)
  }

  lemma DecimalInjective(m: int, n: int)
    requires Decimal(m) == Decimal(n)
    ensures m == n
  {
    var am, an := if m < 0 then -m else m, if n < 0 then -n else n;
    NumeralRoundTrip(am, 10);
    NumeralRoundTrip(an, 10);
    assert IsDigit(Numeral(am, 10)[0], 10) && IsDigit(Numeral(an, 10)[0], 10);
    assert (m < 0) == (Decimal(m)[0] == '-') && (n < 0) == (Decimal(n)[0] == '-');
    assert m < 0 ==> Decimal(m)[1..] == Numeral(am, 10);
    assert n < 0 ==> Decimal(n)[1..] == Numeral(an, 10);
  }

  /** Punctuation other than the sign never occurs in a decimal numeral. */
  lemma DecimalAvoids(n: int, c: char)
    requires !IsDigit(c, 10) && c != '-'
    ensures c !in Decimal(n)
  {
    var s := Decimal(n);
    forall i | 0 <= i < |s|
      ensures s[i] != c
    {
      assert IsDigit(s[i], 10) || s[i] == '-';
    }
  }
}
