/** pkg/integrity/chain.go: the canonical payload of an audit record and the chained
    hash.  SHA-256 (with its hex encoding) is an arbitrary function `sha`; what is
    needed of it is stated where it is used. */
module Chain {
  import opened Strings

  /** The hashed fields of one audit record; `micros` is `Timestamp.UnixMicro()`. */
  datatype LogData = LogData(
    micros: Int64,
    userId: string,
    requestId: string,
    verdict: string,
    threatDetails: string,
    riskScore: Int64)

  const GENESIS_HASH: string := "0000000000000000000000000000000000000000000000000000000000000000"

  /** `head|tail` */
  function Bar(head: string, tail: string): string {
    head + ['|'] + tail
  }

  /** Everything after the previous hash. */
  function Body(d: LogData): string {
    Bar(Decimal(d.micros), Bar(d.requestId, Bar(d.userId, Bar(d.verdict, Bar(Decimal(d.riskScore), d.threatDetails)))))
  }

  /** prevHash|timestamp|request_id|user_id|verdict|risk|details */
  function Payload(prevHash: string, d: LogData): string {
    Bar(prevHash, Body(d))
  }

  function CalculateHash(sha: string -> string, prevHash: string, d: LogData): string {
    sha(Payload(prevHash, d))
  }

  // ---------- When the payload determines the record ----------

  /** No separator in the three free-text fields that precede another field. */
  predicate PipeFree(d: LogData) {
    '|' !in d.requestId && '|' !in d.userId && '|' !in d.verdict
  }

  /** One of the details' `|`-separated pieces, other than the last, reads as an integer. */
  ghost predicate HasNumericPiece(details: string) {
    exists before, n: Int64, after :: NumericPieceAt(details, before, n, after)
  }

  ghost predicate NumericPieceAt(details: string, before: string, n: Int64, after: string) {
    (before == "" || before[|before| - 1] == '|') && details == before + Bar(Decimal(n), after)
  }

  lemma BodyPipes(d: LogData)
    ensures '|' !in Decimal(d.micros) && '|' !in Decimal(d.riskScore)
  {
    DecimalAvoids(d.micros, '|');
    DecimalAvoids(d.riskScore, '|');
  }

  /** Among records whose request id, user id and verdict hold no `|` the body is
      injective: all six fields, both integers included, are read back from it. */
  lemma BodyInjective(d: LogData, e: LogData)
    requires PipeFree(d) && PipeFree(e)
    requires Body(d) == Body(e)
    ensures d == e
  {
    BodyPipes(d);
    BodyPipes(e);
    SplitHead('|', Decimal(d.micros), AfterTime(d), Decimal(e.micros), AfterTime(e));
    DecimalInjective(d.micros, e.micros);
    SplitHead('|', d.requestId, AfterRequest(d), e.requestId, AfterRequest(e));
    SplitHead('|', d.userId, AfterUser(d), e.userId, AfterUser(e));
    SplitHead('|', d.verdict, AfterVerdict(d), e.verdict, AfterVerdict(e));
    SplitHead('|', Decimal(d.riskScore), d.threatDetails, Decimal(e.riskScore), e.threatDetails);
    DecimalInjective(d.riskScore, e.riskScore);
  }

  function AfterVerdict(d: LogData): string { Bar(Decimal(d.riskScore), d.threatDetails) }
  function AfterUser(d: LogData): string { Bar(d.verdict, AfterVerdict(d)) }
  function AfterRequest(d: LogData): string { Bar(d.userId, AfterUser(d)) }
  function AfterTime(d: LogData): string { Bar(d.requestId, AfterRequest(d)) }

  /** The payload is injective in the previous hash as well, when that is pipe-free. */
  lemma PayloadInjective(prev: string, d: LogData, prev': string, e: LogData)
    requires '|' !in prev && '|' !in prev'
    requires PipeFree(d) && PipeFree(e)
    requires Payload(prev, d) == Payload(prev', e)
    ensures prev == prev' && d == e
  {
    SplitHead('|', prev, Body(d), prev', Body(e));
    BodyInjective(d, e);
  }

  /** Field by field: the pieces of the payload of such a record between the separators are, in this
      order, the previous hash, the microseconds, the request, the user, the verdict and the risk
      score, and then those of the details. */
  lemma PayloadPieces(prev: string, d: LogData)
    requires '|' !in prev && PipeFree(d)
    ensures Split(Payload(prev, d), '|')
         == [prev, Decimal(d.micros), d.requestId, d.userId, d.verdict, Decimal(d.riskScore)]
            + Split(d.threatDetails, '|')
    ensures '|' !in d.threatDetails ==> Split(d.threatDetails, '|') == [d.threatDetails]
  {
    hide Split, Decimal;
    BodyPipes(d);
    PieceThen(prev, Body(d));
    PieceThen(Decimal(d.micros), AfterTime(d));
    PieceThen(d.requestId, AfterRequest(d));
    PieceThen(d.userId, AfterUser(d));
    PieceThen(d.verdict, AfterVerdict(d));
    PieceThen(Decimal(d.riskScore), d.threatDetails);
    if '|' !in d.threatDetails {
      SplitOne('|', d.threatDetails);
    }
  }

  lemma PieceThen(a: string, b: string)
    requires '|' !in a
    ensures Split(Bar(a, b), '|') == [a] + Split(b, '|')
  {
    hide Split;
    Regroup(a, ['|'], b);
    SplitJoined('|', a, b);
    SplitOne('|', a);
  }

  /** An instance, letter by letter. */
  lemma PayloadOfOne()
    ensures Payload("f", LogData(1500, "al", "r-1", "PASS", "none", 130)) == "f|1500|r-1|al|PASS|130|none"
  {
    DigitsOf();
    hide Decimal;
  }

  lemma DigitsOf()
    ensures Decimal(1500) == "1500" && Decimal(130) == "130"
  {
    assert Numeral(15, 10) == "15" && Numeral(150, 10) == "150" && Numeral(13, 10) == "13";
  }

  /** A different record with the same payload: an edit that no hash chain can see. */
  ghost predicate Indistinguishable(prev: string, d: LogData) {
    exists e: LogData :: e != d && Payload(prev, e) == Payload(prev, d)
  }

  /** Exactly which records have such a double: those with a `|` in the request id, the
      user id or the verdict, and those whose details hold a numeric piece. */
  lemma IndistinguishableIff(prev: string, d: LogData)
    ensures Indistinguishable(prev, d) <==> !PipeFree(d) || HasNumericPiece(d.threatDetails)
  {
    if !PipeFree(d) || HasNumericPiece(d.threatDetails) {
      var e := Double(prev, d);
    }
    if PipeFree(d) {
      forall e: LogData | e != d && Payload(prev, e) == Payload(prev, d)
        ensures HasNumericPiece(d.threatDetails)
      {
        assert Payload(prev, e)[|prev| + 1..] == Body(e) && Payload(prev, d)[|prev| + 1..] == Body(d);
        DoubleHasNumericPiece(d, e);
      }
    }
  }

  /** Building the double: one separator is re-read as part of a neighbouring field. */
  lemma Double(prev: string, d: LogData) returns (e: LogData)
    requires !PipeFree(d) || HasNumericPiece(d.threatDetails)
    ensures e != d && Payload(prev, e) == Payload(prev, d)
  {
    if '|' in d.requestId {
      var a, b := CutAtPipe(d.requestId);
      e := d.(requestId := a, userId := Bar(b, d.userId));
      Reassociate(b, d.userId, AfterUser(d));
      Reassociate(a, b, AfterRequest(d));
      assert AfterTime(e) == AfterTime(d);
    } else if '|' in d.userId {
      var a, b := CutAtPipe(d.userId);
      e := d.(userId := a, verdict := Bar(b, d.verdict));
      Reassociate(b, d.verdict, AfterVerdict(d));
      Reassociate(a, b, AfterUser(d));
      assert AfterRequest(e) == AfterRequest(d);
    } else if '|' in d.verdict {
      var a, b := CutAtPipe(d.verdict);
      e := d.(userId := Bar(d.userId, a), verdict := b);
      Reassociate(a, b, AfterVerdict(d));
      Reassociate(d.userId, a, AfterUser(e));
      assert AfterRequest(e) == AfterRequest(d);
    } else {
      e := DoubleOfDetails(d);
      assert AfterRequest(e) == AfterRequest(d);
    }
    assert Body(e) == Body(d);
  }

  lemma CutAtPipe(s: string) returns (a: string, b: string)
    requires '|' in s
    ensures s == Bar(a, b) && a != s && b != s
  {
    var i :| 0 <= i < |s| && s[i] == '|';
    a, b := s[..i], s[i + 1..];
  }

  lemma DoubleOfDetails(d: LogData) returns (e: LogData)
    requires HasNumericPiece(d.threatDetails)
    ensures e != d && AfterUser(e) == AfterUser(d)
    ensures e == d.(verdict := e.verdict, riskScore := e.riskScore, threatDetails := e.threatDetails)
  {
    hide Decimal, AfterUser;
    var before, n: Int64, after :| NumericPieceAt(d.threatDetails, before, n, after);
    var moved := Decimal(d.riskScore);
    if before == "" {
      assert d.threatDetails == Bar(Decimal(n), after);
    } else {
      var b := before[..|before| - 1];
      LastBar(before, Decimal(n), after);
      moved := Bar(moved, b);
      Reassociate(Decimal(d.riskScore), b, Bar(Decimal(n), after));
    }
    e := d.(verdict := Bar(d.verdict, moved), riskScore := n, threatDetails := after);
    MovedIntoVerdict(d, e, moved);
  }

  lemma LastBar(before: string, piece: string, after: string)
    requires before != "" && before[|before| - 1] == '|'
    ensures before + Bar(piece, after) == Bar(before[..|before| - 1], Bar(piece, after))
  {
    assert before == before[..|before| - 1] + ['|'];
  }

  /** The risk score and the details up to the numeric piece read as the end of the verdict. */
  lemma MovedIntoVerdict(d: LogData, e: LogData, moved: string)
    requires e == d.(verdict := Bar(d.verdict, moved), riskScore := e.riskScore, threatDetails := e.threatDetails)
    requires AfterVerdict(d) == Bar(moved, AfterVerdict(e))
    ensures e != d && AfterUser(e) == AfterUser(d)
  {
    Reassociate(d.verdict, moved, AfterVerdict(e));
    assert |e.verdict| > |d.verdict|;
  }

  lemma Reassociate(a: string, b: string, c: string)
    ensures Bar(Bar(a, b), c) == Bar(a, Bar(b, c))
  {
    assert (a + ['|'] + b) + ['|'] + c == a + ['|'] + (b + ['|'] + c);
  }

  /** The number of separators. */
  function Pipes(s: string): nat {
    if s == "" then 0 else (if s[0] == '|' then 1 else 0) + Pipes(s[1..])
  }

  lemma {:induction false} PipesAppend(s: string, t: string)
    ensures Pipes(s + t) == Pipes(s) + Pipes(t)
  {
    if s == "" {
      assert s + t == t;
    } else {
      PipesAppend(s[1..], t);
      assert (s + t)[1..] == s[1..] + t;
    }
  }

  lemma {:induction false} NoPipes(s: string)
    ensures Pipes(s) == 0 <==> '|' !in s
  {
    if s != "" {
      NoPipes(s[1..]);
      assert s == [s[0]] + s[1..];
    }
  }

  /** request|user|verdict| : the text in front of the risk score. */
  function BeforeRisk(d: LogData): string {
    Bar(d.requestId, Bar(d.userId, Bar(d.verdict, "")))
  }

  lemma BeforeRiskPipes(d: LogData)
    ensures AfterTime(d) == BeforeRisk(d) + AfterVerdict(d)
    ensures Pipes(BeforeRisk(d)) >= 3
    ensures Pipes(BeforeRisk(d)) == 3 <==> PipeFree(d)
    ensures BeforeRisk(d)[|BeforeRisk(d)| - 1] == '|'
  {
    var v := Bar(d.verdict, "");
    var u := Bar(d.userId, v);
    assert AfterUser(d) == v + AfterVerdict(d);
    assert AfterRequest(d) == u + AfterVerdict(d);
    assert AfterTime(d) == BeforeRisk(d) + AfterVerdict(d);
    BarPipes(d.verdict, "");
    BarPipes(d.userId, v);
    BarPipes(d.requestId, u);
    NoPipes(d.verdict);
    NoPipes(d.userId);
    NoPipes(d.requestId);
  }

  lemma BarPipes(a: string, b: string)
    ensures Pipes(Bar(a, b)) == Pipes(a) + 1 + Pipes(b)
  {
    PipesAppend(a + ['|'], b);
    PipesAppend(a, ['|']);
    assert ['|'][1..] == "";
    assert Pipes(['|']) == 1;
  }

  /** A double of a record with pipe-free fields must read its risk score out of the details. */
  lemma DoubleHasNumericPiece(d: LogData, e: LogData)
    requires PipeFree(d) && e != d && Body(e) == Body(d)
    ensures HasNumericPiece(d.threatDetails)
  {
    BodyPipes(d);
    BodyPipes(e);
    SplitHead('|', Decimal(d.micros), AfterTime(d), Decimal(e.micros), AfterTime(e));
    DecimalInjective(d.micros, e.micros);
    BeforeRiskPipes(d);
    BeforeRiskPipes(e);
    LongerFront(BeforeRisk(d), AfterVerdict(d), BeforeRisk(e), AfterVerdict(e));
    var b := BeforeRisk(e)[|BeforeRisk(d)|..];
    if b == "" {
      assert BeforeRisk(e) == BeforeRisk(d);
      BodyInjective(d, e);
    } else {
      PieceIn(d, e, b);
    }
  }

  /** Of two ways to cut one text behind a `|`, the one with no more separators in front cuts first. */
  lemma LongerFront(a: string, x: string, b: string, y: string)
    requires a + x == b + y
    requires a != "" && a[|a| - 1] == '|'
    requires Pipes(a) <= Pipes(b)
    ensures |a| <= |b| && b == a + b[|a|..] && x == b[|a|..] + y
  {
    hide Pipes;
    if |b| < |a| {
      CutTwice(b, y, a, x);
      PrefixPipes(a, b);
    } else {
      CutTwice(a, x, b, y);
    }
  }

  /** One text cut in two places. */
  lemma CutTwice(a: string, x: string, b: string, y: string)
    requires a + x == b + y && |a| <= |b|
    ensures b == a + b[|a|..] && b[..|a|] == a && x == b[|a|..] + y
  {
    var t := a + x;
    assert a == t[..|a|] && b == t[..|b|] && x == t[|a|..];
  }

  lemma PieceIn(d: LogData, e: LogData, b: string)
    requires b != "" && b[|b| - 1] == '|' && '|' !in Decimal(d.riskScore)
    requires AfterVerdict(d) == b + AfterVerdict(e)
    ensures HasNumericPiece(d.threatDetails)
  {
    var risk := Decimal(d.riskScore);
    PipeBeyond(risk, d.threatDetails, b, AfterVerdict(e));
    assert NumericPieceAt(d.threatDetails, b[|risk| + 1..], e.riskScore, e.threatDetails);
  }

  /** A proper prefix of a text that ends in `|` has fewer separators. */
  lemma PrefixPipes(a: string, p: string)
    requires |p| < |a| && a[..|p|] == p && a[|a| - 1] == '|'
    ensures Pipes(p) < Pipes(a)
  {
    var m := a[|p|..|a| - 1];
    assert a == p + m + ['|'];
    assert a == Bar(p + m, "");
    BarPipes(p + m, "");
    PipesAppend(p, m);
  }

  /** A prefix of `risk|details` that ends in `|` covers the pipe-free `risk` and its separator. */
  lemma PipeBeyond(risk: string, details: string, b: string, rest: string)
    requires '|' !in risk && Bar(risk, details) == b + rest && b != "" && b[|b| - 1] == '|'
    ensures |b| > |risk|
    ensures details == b[|risk| + 1..] + rest
    ensures b[|risk| + 1..] == "" || b[|risk| + 1..][|b| - |risk| - 2] == '|'
  {
    var t := Bar(risk, details);
    assert t[|b| - 1] == '|';
    assert forall i | 0 <= i < |risk| :: t[i] == risk[i];
    assert details == t[|risk| + 1..];
  }
}
