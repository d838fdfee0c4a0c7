/** The hash-chained audit log as `VerifyIntegrity` sees it
    (pkg/storage/postgres.go): the rows of one organization in id order. */
module AuditLog {
  import opened Chain

  datatype Row = Row(id: nat, org: int, data: LogData, previousHash: string, currentHash: string)

  datatype Failure =
    | NoFailure
    | PreviousHashMismatch(expected: string, got: string)
    | DataTampering

  datatype Report = Report(valid: bool, brokenAtId: nat, totalChecked: nat, error: Failure)

  /** Row `k` carries its predecessor's hash and its own recomputes. */
  predicate LinkOk(sha: string -> string, rows: seq<Row>, k: nat)
    requires k < |rows|
  {
    && rows[k].previousHash == ExpectedPrevious(rows, k)
    && rows[k].currentHash == CalculateHash(sha, rows[k].previousHash, rows[k].data)
  }

  function ExpectedPrevious(rows: seq<Row>, k: nat): string
    requires k <= |rows|
  {
    if k == 0 then GENESIS_HASH else rows[k - 1].currentHash
  }

  /** The report on a log whose first `k` rows are the longest good prefix. */
  function ReportAt(rows: seq<Row>, k: nat): Report
    requires k <= |rows|
  {
    if k == |rows| then Report(true, 0, k, NoFailure)
    else if rows[k].previousHash != ExpectedPrevious(rows, k) then
      Report(false, rows[k].id, k, PreviousHashMismatch(ExpectedPrevious(rows, k), rows[k].previousHash))
    else Report(false, rows[k].id, k, DataTampering)
  }

  /** `k` is where the log first breaks, or its length when it does not. */
  ghost predicate BreaksAt(sha: string -> string, rows: seq<Row>, k: nat) {
    && k <= |rows|
    && (forall j | 0 <= j < k :: LinkOk(sha, rows, j))
    && (k < |rows| ==> !LinkOk(sha, rows, k))
  }

  /** No row breaks it. */
  ghost predicate Accepted(sha: string -> string, rows: seq<Row>) {
    forall j | 0 <= j < |rows| :: LinkOk(sha, rows, j)
  }

  /** A log breaks in one place only. */
  lemma BreaksOnce(sha: string -> string, rows: seq<Row>, j: nat, k: nat)
    requires BreaksAt(sha, rows, j) && BreaksAt(sha, rows, k)
    ensures j == k
  {
  }

  /** The replay loop: what it reports is the report at the first bad link. */
  method VerifyIntegrity(sha: string -> string, rows: seq<Row>) returns (report: Report)
    ensures BreaksAt(sha, rows, report.totalChecked)
    ensures report == ReportAt(rows, report.totalChecked)
    ensures report.valid <==> forall j | 0 <= j < |rows| :: LinkOk(sha, rows, j)
    ensures report.valid ==> report.totalChecked == |rows| && report.error == NoFailure
    ensures !report.valid ==>
              var k := report.totalChecked;
              var expected := if k == 0 then GENESIS_HASH else rows[k - 1].currentHash;
              && k < |rows| && report.brokenAtId == rows[k].id
              && report.error == if rows[k].previousHash == expected then DataTampering
                                 else PreviousHashMismatch(expected, rows[k].previousHash)
  {
    hide CalculateHash;
    report := Report(true, 0, 0, NoFailure);
    var expectedPrevHash := GENESIS_HASH;
    for i := 0 to |rows|
      invariant report == Report(true, 0, i, NoFailure)
      invariant expectedPrevHash == ExpectedPrevious(rows, i)
      invariant forall j | 0 <= j < i :: LinkOk(sha, rows, j)
    {
      var row := rows[i];
      if row.previousHash != expectedPrevHash {
        report := report.(valid := false, brokenAtId := row.id,
                          error := PreviousHashMismatch(expectedPrevHash, row.previousHash));
        assert !LinkOk(sha, rows, i);
        return;
      }
      var calculatedHash := CalculateHash(sha, row.previousHash, row.data);
      if calculatedHash != row.currentHash {
        report := report.(valid := false, brokenAtId := row.id, error := DataTampering);
        assert !LinkOk(sha, rows, i);
        return;
      }
      expectedPrevHash := row.currentHash;
      report := report.(totalChecked := report.totalChecked + 1);
    }
  }

  /** What a report on the first broken row says: that row's own id, how many rows are good, and
      what is wrong with it. */
  lemma ReportNames(rows: seq<Row>, k: nat)
    requires k < |rows|
    ensures var expected := if k == 0 then GENESIS_HASH else rows[k - 1].currentHash;
            ReportAt(rows, k) == Report(false, rows[k].id, k,
              if rows[k].previousHash == expected then DataTampering
              else PreviousHashMismatch(expected, rows[k].previousHash))
  {
  }

  /** With ids in order, as the replay reads them: the report names a row that breaks the chain,
      and every row with a smaller id is good. */
  lemma NamesTheFirstBreak(sha: string -> string, rows: seq<Row>, k: nat)
    requires BreaksAt(sha, rows, k) && k < |rows|
    requires forall i, j | 0 <= i < j < |rows| :: rows[i].id < rows[j].id
    ensures forall j | 0 <= j < |rows| ::
              && (rows[j].id < ReportAt(rows, k).brokenAtId ==> LinkOk(sha, rows, j))
              && (rows[j].id == ReportAt(rows, k).brokenAtId ==> !LinkOk(sha, rows, j))
  {
    hide LinkOk;
    ReportNames(rows, k);
  }

  // ---------- Histories: what a hash in the chain stands for ----------

  /** The hash reached by chaining records with these bodies onto Genesis. */
  function ChainHash(sha: string -> string, bodies: seq<string>): string
    decreases |bodies|, 1
  {
    if bodies == [] then GENESIS_HASH
    else sha(LastPayload(sha, bodies))
  }

  /** The payload hashed for the last of these bodies. */
  function LastPayload(sha: string -> string, bodies: seq<string>): string
    requires bodies != []
    decreases |bodies|, 0
  {
    Bar(ChainHash(sha, bodies[..|bodies| - 1]), bodies[|bodies| - 1])
  }

  function Bodies(records: seq<LogData>): (bodies: seq<string>)
    ensures |bodies| == |records|
    ensures forall i | 0 <= i < |records| :: bodies[i] == Body(records[i])
  {
    seq(|records|, i requires 0 <= i < |records| => Body(records[i]))
  }

  function Records(rows: seq<Row>): (records: seq<LogData>)
    ensures |records| == |rows|
    ensures forall i | 0 <= i < |rows| :: records[i] == rows[i].data
  {
    seq(|rows|, i requires 0 <= i < |rows| => rows[i].data)
  }

  /** Every payload hashed while chaining these bodies. */
  function HashedPayloads(sha: string -> string, bodies: seq<string>): set<string> {
    if bodies == [] then {}
    else HashedPayloads(sha, bodies[..|bodies| - 1]) + {LastPayload(sha, bodies)}
  }

  /** Digests all have SHA-256's 64 hex characters (only the length matters here). */
  ghost predicate FixedLength(sha: string -> string) {
    forall s :: |sha(s)| == |GENESIS_HASH|
  }

  /** A break of the hash function: two different payloads with one digest, or a payload
      whose digest is the Genesis constant. */
  predicate HashBreak(sha: string -> string, p: string, q: string) {
    (p != q && sha(p) == sha(q)) || sha(p) == GENESIS_HASH
  }

  /** A chained hash identifies the whole history behind it: two histories of any lengths
      with one hash are the same history, or the proof hands over a break of the hash
      function among the payloads that were actually hashed. */
  lemma {:induction false} SameHashSameHistory(sha: string -> string, a: seq<string>, b: seq<string>)
    returns (p: string, q: string)
    requires FixedLength(sha)
    requires ChainHash(sha, a) == ChainHash(sha, b)
    ensures a != b ==> HashBreak(sha, p, q)
    ensures a != b ==> p in HashedPayloads(sha, a) + HashedPayloads(sha, b)
    ensures a != b && sha(p) != GENESIS_HASH ==> q in HashedPayloads(sha, b)
    decreases |a|
  {
    p, q := "", "";
    if a == [] && b == [] {
    } else if a == [] {
      p := LastPayload(sha, b);
    } else if b == [] {
      p := LastPayload(sha, a);
    } else {
      p, q := LastPayload(sha, a), LastPayload(sha, b);
      if p == q {
        var a', b' := a[..|a| - 1], b[..|b| - 1];
        var ha, hb := ChainHash(sha, a'), ChainHash(sha, b');
        assert |ha| == |hb|;
        assert ha == p[..|ha|] == q[..|hb|] == hb;
        assert a[|a| - 1] == p[|ha| + 1..] == q[|hb| + 1..] == b[|b| - 1];
        p, q := SameHashSameHistory(sha, a', b');
        if a' == b' {
          assert a == a' + [a[|a| - 1]] && b == b' + [b[|b| - 1]];
        }
      }
    }
  }

  lemma {:induction false} HashedInPrefix(sha: string -> string, bodies: seq<string>, n: nat)
    requires n <= |bodies|
    ensures HashedPayloads(sha, bodies[..n]) <= HashedPayloads(sha, bodies)
  {
    if n == |bodies| {
      assert bodies[..n] == bodies;
    } else {
      var init := bodies[..|bodies| - 1];
      HashedInPrefix(sha, init, n);
      assert init[..n] == bodies[..n];
    }
  }

  /** On an intact log the current hash of row `k - 1` is the chained hash of the first `k` records. */
  lemma {:induction false} IntactHash(sha: string -> string, rows: seq<Row>, k: nat)
    requires k <= |rows|
    requires forall j | 0 <= j < k :: LinkOk(sha, rows, j)
    ensures ExpectedPrevious(rows, k) == ChainHash(sha, Bodies(Records(rows[..k])))
  {
    if k > 0 {
      IntactHash(sha, rows, k - 1);
      assert LinkOk(sha, rows, k - 1);
      NextHash(sha, rows, k - 1);
    }
  }

  lemma NextHash(sha: string -> string, rows: seq<Row>, k: nat)
    requires k < |rows| && rows[k].previousHash == ChainHash(sha, Bodies(Records(rows[..k])))
    ensures ChainHash(sha, Bodies(Records(rows[..k + 1]))) == CalculateHash(sha, rows[k].previousHash, rows[k].data)
  {
    var bodies := Bodies(Records(rows[..k + 1]));
    assert |bodies| == k + 1 && bodies[..k] == Bodies(Records(rows[..k])) && bodies[k] == Body(rows[k].data);
  }

  /** Two different payloads with one digest, or one with the Genesis digest, among those
      that were hashed for these two logs. */
  ghost predicate BreakBetween(sha: string -> string, rows: seq<Row>, rows': seq<Row>, p: string, q: string) {
    var a, b := Bodies(Records(rows)), Bodies(Records(rows'));
    && HashBreak(sha, p, q)
    && p in HashedPayloads(sha, a) + HashedPayloads(sha, b)
    && (sha(p) != GENESIS_HASH ==> q in HashedPayloads(sha, b))
  }

  /** Tamper evidence over whole logs.  Two accepted logs that end in the same hash agree
      record by record on everything that is hashed (and so have the same length), or the
      proof exhibits a break of the hash function among the payloads hashed for them.  For
      records without separators the agreement is on all six fields. */
  lemma TamperEvidence(sha: string -> string, rows: seq<Row>, rows': seq<Row>)
    returns (p: string, q: string)
    requires FixedLength(sha)
    requires forall j | 0 <= j < |rows| :: LinkOk(sha, rows, j)
    requires forall j | 0 <= j < |rows'| :: LinkOk(sha, rows', j)
    requires ExpectedPrevious(rows, |rows|) == ExpectedPrevious(rows', |rows'|)
    ensures BreakBetween(sha, rows, rows', p, q) || Bodies(Records(rows)) == Bodies(Records(rows'))
    ensures AllPipeFree(rows) && AllPipeFree(rows') ==>
              BreakBetween(sha, rows, rows', p, q) || Records(rows) == Records(rows')
  {
    IntactHash(sha, rows, |rows|);
    IntactHash(sha, rows', |rows'|);
    assert rows[..|rows|] == rows && rows'[..|rows'|] == rows';
    var a, b := Bodies(Records(rows)), Bodies(Records(rows'));
    p, q := SameHashSameHistory(sha, a, b);
    hide HashBreak, HashedPayloads, ChainHash;
    if a == b && AllPipeFree(rows) && AllPipeFree(rows') {
      SameBodies(rows, rows');
    }
  }

  ghost predicate AllPipeFree(rows: seq<Row>) {
    forall j | 0 <= j < |rows| :: PipeFree(rows[j].data)
  }

  lemma SameBodies(rows: seq<Row>, rows': seq<Row>)
    requires AllPipeFree(rows) && AllPipeFree(rows') && Bodies(Records(rows)) == Bodies(Records(rows'))
    ensures Records(rows) == Records(rows')
  {
    var a, b := Bodies(Records(rows)), Bodies(Records(rows'));
    forall j | 0 <= j < |rows|
      ensures rows[j].data == rows'[j].data
    {
      assert a[j] == b[j];
      BodyInjective(rows[j].data, rows'[j].data);
    }
  }

  // ---------- Rows that remember the history they were chained onto ----------

  /** The row was written for the last of `history`, on top of the hash of the others. */
  predicate Wrote(sha: string -> string, row: Row, history: seq<LogData>) {
    && history != []
    && row.data == history[|history| - 1]
    && row.previousHash == ChainHash(sha, Bodies(history[..|history| - 1]))
    && row.currentHash == CalculateHash(sha, row.previousHash, row.data)
  }

  ghost predicate AllWrote(sha: string -> string, rows: seq<Row>, histories: seq<seq<LogData>>) {
    && |rows| == |histories|
    && forall j {:trigger Wrote(sha, rows[j], histories[j])} | 0 <= j < |rows| :: Wrote(sha, rows[j], histories[j])
  }

  /** The payload was hashed for one of these histories. */
  ghost predicate HashedIn(sha: string -> string, histories: seq<seq<LogData>>, payload: string) {
    exists i | 0 <= i < |histories| :: payload in HashedPayloads(sha, Bodies(histories[i]))
  }

  /** A break of the hash function among the payloads of these histories. */
  ghost predicate ShowsBreak(sha: string -> string, histories: seq<seq<LogData>>, p: string, q: string) {
    HashedIn(sha, histories, p) && HashedIn(sha, histories, q) && HashBreak(sha, p, q)
  }

  /** The rows up to and including `k` are exactly the history row `k` was written on. */
  ghost predicate KeepsHistory(rows: seq<Row>, histories: seq<seq<LogData>>, k: nat)
    requires k < |rows| == |histories|
  {
    Bodies(histories[k]) == Bodies(Records(rows[..k + 1]))
  }

  lemma WroteHash(sha: string -> string, row: Row, history: seq<LogData>)
    requires Wrote(sha, row, history)
    ensures row.currentHash == ChainHash(sha, Bodies(history))
  {
    var bodies := Bodies(history);
    assert bodies[..|bodies| - 1] == Bodies(history[..|history| - 1]);
  }

  /** A kept history makes a good link; no assumption on the hash function. */
  lemma KeptLink(sha: string -> string, rows: seq<Row>, histories: seq<seq<LogData>>, k: nat)
    requires k < |rows| == |histories|
    requires Wrote(sha, rows[k], histories[k]) && KeepsHistory(rows, histories, k)
    requires k > 0 ==> Wrote(sha, rows[k - 1], histories[k - 1]) && KeepsHistory(rows, histories, k - 1)
    ensures LinkOk(sha, rows, k)
  {
    var bodies := Bodies(histories[k]);
    assert |histories[k]| == k + 1;
    assert Bodies(histories[k][..k]) == bodies[..k] == Bodies(Records(rows[..k]));
    if k > 0 {
      WroteHash(sha, rows[k - 1], histories[k - 1]);
    }
  }

  lemma HashedInOne(sha: string -> string, histories: seq<seq<LogData>>, i: nat, j: nat, p: string)
    requires i < |histories| && j < |histories|
    requires p in HashedPayloads(sha, Bodies(histories[i])) + HashedPayloads(sha, Bodies(histories[j]))
    ensures HashedIn(sha, histories, p)
  {
  }

  /** Equal chained hashes over recorded histories are equal histories, or there is a break. */
  lemma SamePrefixes(sha: string -> string, histories: seq<seq<LogData>>, i: nat, n: nat, j: nat, m: nat)
    returns (p: string, q: string)
    requires FixedLength(sha)
    requires i < |histories| && n <= |histories[i]| && j < |histories| && m <= |histories[j]|
    requires ChainHash(sha, Bodies(histories[i])[..n]) == ChainHash(sha, Bodies(histories[j])[..m])
    ensures Bodies(histories[i])[..n] == Bodies(histories[j])[..m] || ShowsBreak(sha, histories, p, q)
  {
    var a, b := Bodies(histories[i]), Bodies(histories[j]);
    p, q := SameHashSameHistory(sha, a[..n], b[..m]);
    if a[..n] != b[..m] {
      HashedInPrefix(sha, a, n);
      HashedInPrefix(sha, b, m);
      HashedInOne(sha, histories, i, j, p);
      if sha(p) == GENESIS_HASH {
        q := p;
      } else {
        HashedInOne(sha, histories, i, j, q);
      }
    }
  }

  /** Behind an intact prefix, a good link means the row continues exactly what is kept. */
  lemma LinkContinues(sha: string -> string, rows: seq<Row>, histories: seq<seq<LogData>>, k: nat)
    returns (p: string, q: string)
    requires FixedLength(sha)
    requires k < |rows| == |histories|
    requires Wrote(sha, rows[k], histories[k]) && LinkOk(sha, rows, k)
    requires k > 0 ==> Wrote(sha, rows[k - 1], histories[k - 1])
    ensures || Bodies(histories[k])[..|histories[k]| - 1] == (if k == 0 then [] else Bodies(histories[k - 1]))
            || ShowsBreak(sha, histories, p, q)
  {
    hide LinkOk, ChainHash, ShowsBreak, FixedLength, ExpectedPrevious, CalculateHash, Bodies;
    LinkFollows(sha, rows, k);
    if k > 0 {
      p, q := SameHashContinues(sha, rows[k - 1], histories, k - 1, rows[k], k);
    } else {
      p, q := GenesisContinues(sha, rows[k], histories, k);
    }
  }

  lemma LinkFollows(sha: string -> string, rows: seq<Row>, k: nat)
    requires k < |rows| && LinkOk(sha, rows, k)
    ensures rows[k].previousHash == if k == 0 then ChainHash(sha, []) else rows[k - 1].currentHash
  {
  }

  lemma SameHashContinues(sha: string -> string, row: Row, histories: seq<seq<LogData>>, j: nat, next: Row, k: nat)
    returns (p: string, q: string)
    requires FixedLength(sha) && j < |histories| && k < |histories|
    requires Wrote(sha, row, histories[j]) && Wrote(sha, next, histories[k]) && next.previousHash == row.currentHash
    ensures Bodies(histories[k])[..|histories[k]| - 1] == Bodies(histories[j]) || ShowsBreak(sha, histories, p, q)
  {
    WroteAfter(sha, next, histories[k]);
    WroteAfter(sha, row, histories[j]);
    hide ChainHash, ShowsBreak, FixedLength, Wrote, Bodies;
    p, q := SamePrefixes(sha, histories, k, |histories[k]| - 1, j, |histories[j]|);
  }

  lemma GenesisContinues(sha: string -> string, row: Row, histories: seq<seq<LogData>>, k: nat)
    returns (p: string, q: string)
    requires FixedLength(sha) && k < |histories|
    requires Wrote(sha, row, histories[k]) && row.previousHash == ChainHash(sha, [])
    ensures Bodies(histories[k])[..|histories[k]| - 1] == [] || ShowsBreak(sha, histories, p, q)
  {
    WroteAfter(sha, row, histories[k]);
    hide ChainHash, ShowsBreak, FixedLength, Wrote, Bodies;
    assert Bodies(histories[k])[..0] == [];
    p, q := SamePrefixes(sha, histories, k, |histories[k]| - 1, k, 0);
  }

  /** The hashes a written row carries, over prefixes of its history. */
  lemma WroteAfter(sha: string -> string, row: Row, history: seq<LogData>)
    requires Wrote(sha, row, history)
    ensures history != [] && Bodies(history)[..|history|] == Bodies(history)
    ensures row.previousHash == ChainHash(sha, Bodies(history)[..|history| - 1])
    ensures row.currentHash == ChainHash(sha, Bodies(history)[..|history|])
  {
    WroteHash(sha, row, history);
    hide ChainHash, CalculateHash;
    BodiesOfPrefix(history, |history| - 1);
    BodiesOfPrefix(history, |history|);
  }

  lemma BodiesOfPrefix(history: seq<LogData>, n: nat)
    requires n <= |history|
    ensures Bodies(history)[..n] == Bodies(history[..n])
    ensures n == |history| ==> Bodies(history)[..n] == Bodies(history)
    ensures n == 0 ==> Bodies(history)[..n] == []
  {
  }

  /** Behind an intact prefix, a good link means a kept history. */
  lemma LinkKeeps(sha: string -> string, rows: seq<Row>, histories: seq<seq<LogData>>, k: nat)
    returns (p: string, q: string)
    requires FixedLength(sha)
    requires k < |rows| == |histories|
    requires Wrote(sha, rows[k], histories[k]) && LinkOk(sha, rows, k)
    requires k > 0 ==> Wrote(sha, rows[k - 1], histories[k - 1]) && KeepsHistory(rows, histories, k - 1)
    ensures KeepsHistory(rows, histories, k) || ShowsBreak(sha, histories, p, q)
  {
    p, q := LinkContinues(sha, rows, histories, k);
    if !ShowsBreak(sha, histories, p, q) {
      ExtendKept(rows, histories[k], k);
    }
  }

  /** Appending the row's own record to what precedes it, on both sides. */
  lemma ExtendKept(rows: seq<Row>, history: seq<LogData>, k: nat)
    requires k < |rows| && history != [] && history[|history| - 1] == rows[k].data
    requires Bodies(history)[..|history| - 1] == Bodies(Records(rows[..k]))
    ensures Bodies(history) == Bodies(Records(rows[..k + 1]))
  {
    var bodies, kept := Bodies(history), Bodies(Records(rows[..k + 1]));
    assert |bodies| == k + 1;
    forall i | 0 <= i < k + 1
      ensures bodies[i] == kept[i]
    {
      if i < k {
        assert bodies[i] == Bodies(Records(rows[..k]))[i] == Body(rows[i].data);
      }
    }
  }

  /** Up to the first bad link every row keeps its history. */
  lemma {:induction false} KeptAt(sha: string -> string, rows: seq<Row>, histories: seq<seq<LogData>>, k: nat)
    returns (p: string, q: string)
    requires FixedLength(sha)
    requires AllWrote(sha, rows, histories) && k < |rows|
    requires forall j | 0 <= j <= k :: LinkOk(sha, rows, j)
    ensures KeepsHistory(rows, histories, k) || ShowsBreak(sha, histories, p, q)
  {
    assert Wrote(sha, rows[k], histories[k]);
    if k > 0 {
      p, q := KeptAt(sha, rows, histories, k - 1);
      if ShowsBreak(sha, histories, p, q) {
        return;
      }
      assert Wrote(sha, rows[k - 1], histories[k - 1]);
    }
    p, q := LinkKeeps(sha, rows, histories, k);
  }

  /** `k` is the first row in front of which something it was chained onto is missing. */
  ghost predicate LosesHistoryAt(rows: seq<Row>, histories: seq<seq<LogData>>, k: nat)
    requires k <= |rows| == |histories|
  {
    && (forall j | 0 <= j < k :: KeepsHistory(rows, histories, j))
    && (k < |rows| ==> !KeepsHistory(rows, histories, k))
  }

  /** The exact verdict on any log whose rows carry a history: it breaks at the first row
      whose own history is not the rows still in front of it (or the proof shows a break of
      the hash function). */
  lemma ExactVerdict(sha: string -> string, rows: seq<Row>, histories: seq<seq<LogData>>, k: nat)
    returns (p: string, q: string)
    requires FixedLength(sha)
    requires AllWrote(sha, rows, histories) && k <= |rows|
    ensures (BreaksAt(sha, rows, k) <==> LosesHistoryAt(rows, histories, k)) || ShowsBreak(sha, histories, p, q)
  {
    p, q := "", "";
    if LosesHistoryAt(rows, histories, k) {
      forall j | 0 <= j < k
        ensures LinkOk(sha, rows, j)
      {
        KeptLink(sha, rows, histories, j);
      }
      if k < |rows| && LinkOk(sha, rows, k) {
        p, q := KeptAt(sha, rows, histories, k);
      }
    } else if BreaksAt(sha, rows, k) {
      if j :| 0 <= j < k && !KeepsHistory(rows, histories, j) {
        p, q := KeptAt(sha, rows, histories, j);
      } else {
        KeptLink(sha, rows, histories, k);
      }
    }
  }

  // ---------- Deleting rows from an intact log ----------

  /** `idx` names, in order, the rows that survive a deletion. */
  ghost predicate Increasing(idx: seq<nat>, n: nat) {
    && (forall k | 0 <= k < |idx| :: idx[k] < n)
    && (forall j, k | 0 <= j < k < |idx| :: idx[j] < idx[k])
  }

  function Survivors(rows: seq<Row>, idx: seq<nat>): (survivors: seq<Row>)
    requires forall k | 0 <= k < |idx| :: idx[k] < |rows|
    ensures |survivors| == |idx|
    ensures forall k | 0 <= k < |idx| :: survivors[k] == rows[idx[k]]
  {
    seq(|idx|, k requires 0 <= k < |idx| => rows[idx[k]])
  }

  /** Survivor `k` is the first one whose predecessor in the full log is gone. */
  ghost predicate FirstOrphan(idx: seq<nat>, k: nat) {
    && k <= |idx|
    && (forall j | 0 <= j < k :: idx[j] == j)
    && (k < |idx| ==> idx[k] != k)
  }

  lemma {:induction false} AtLeastIndex(idx: seq<nat>, n: nat, k: nat)
    requires Increasing(idx, n) && k < |idx|
    ensures k <= idx[k]
  {
    if k > 0 {
      AtLeastIndex(idx, n, k - 1);
    }
  }

  /** No survivor stands behind a removed row. */
  ghost predicate Closed(idx: seq<nat>, n: nat) {
    forall i: nat, j: nat | i < j < n && j in idx :: i in idx
  }

  lemma {:induction false} InPlace(idx: seq<nat>, n: nat, k: nat)
    requires Increasing(idx, n) && Closed(idx, n) && k < |idx|
    ensures forall i | 0 <= i <= k :: idx[i] == i
  {
    if k > 0 {
      InPlace(idx, n, k - 1);
    }
    AtLeastIndex(idx, n, k);
    assert idx[k] in idx;
    assert k in idx;
    var m :| 0 <= m < |idx| && idx[m] == k;
  }

  /** The survivors are a prefix exactly when none of them stands behind a removed row. */
  lemma PrefixIff(idx: seq<nat>, n: nat)
    requires Increasing(idx, n)
    ensures FirstOrphan(idx, |idx|) <==> Closed(idx, n)
  {
    if FirstOrphan(idx, |idx|) {
      forall i: nat, j: nat | i < j < n && j in idx
        ensures i in idx
      {
        var m :| 0 <= m < |idx| && idx[m] == j;
        assert idx[m] == m && idx[i] == i;
      }
    }
    if Closed(idx, n) && idx != [] {
      InPlace(idx, n, |idx| - 1);
    }
  }

  /** The history of every row of an intact log: all records up to its own. */
  function Prefixes(rows: seq<Row>): (histories: seq<seq<LogData>>)
    ensures |histories| == |rows|
    ensures forall k | 0 <= k < |rows| :: histories[k] == Records(rows[..k + 1])
  {
    seq(|rows|, k requires 0 <= k < |rows| => Records(rows[..k + 1]))
  }

  lemma IntactWrote(sha: string -> string, rows: seq<Row>, k: nat)
    requires k < |rows|
    requires forall j | 0 <= j < |rows| :: LinkOk(sha, rows, j)
    ensures Wrote(sha, rows[k], Records(rows[..k + 1]))
  {
    IntactHash(sha, rows, k);
    assert Records(rows[..k + 1])[..k] == Records(rows[..k]);
    assert LinkOk(sha, rows, k);
  }

  /** Removing any rows from an intact log: what is left breaks exactly at the first
      survivor whose predecessor was removed, so it is accepted exactly when the survivors
      are a prefix of the log (or the proof shows a break of the hash function). */
  lemma DeletionVerdict(sha: string -> string, rows: seq<Row>, idx: seq<nat>, k: nat)
    returns (p: string, q: string)
    requires FixedLength(sha)
    requires forall j | 0 <= j < |rows| :: LinkOk(sha, rows, j)
    requires Increasing(idx, |rows|) && k <= |idx|
    ensures (BreaksAt(sha, Survivors(rows, idx), k) <==> FirstOrphan(idx, k)) || ShowsBreak(sha, Prefixes(rows), p, q)
  {
    var rows', all := Survivors(rows, idx), Prefixes(rows);
    var histories := seq(|idx|, j requires 0 <= j < |idx| => all[idx[j]]);
    forall j | 0 <= j < |rows'|
      ensures Wrote(sha, rows'[j], histories[j])
    {
      IntactWrote(sha, rows, idx[j]);
    }
    p, q := ExactVerdict(sha, rows', histories, k);
    if ShowsBreak(sha, histories, p, q) {
      HashedInOriginal(sha, all, idx, histories, p);
      HashedInOriginal(sha, all, idx, histories, q);
    } else {
      KeptUntilOrphan(rows, idx, histories, k);
    }
  }

  lemma HashedInOriginal(sha: string -> string, all: seq<seq<LogData>>, idx: seq<nat>, histories: seq<seq<LogData>>,
        p: string)
    requires Increasing(idx, |all|) && |histories| == |idx|
    requires forall j | 0 <= j < |idx| :: histories[j] == all[idx[j]]
    requires HashedIn(sha, histories, p)
    ensures HashedIn(sha, all, p)
  {
    var i :| 0 <= i < |histories| && p in HashedPayloads(sha, Bodies(histories[i]));
    assert p in HashedPayloads(sha, Bodies(all[idx[i]]));
  }

  lemma KeptUntilOrphan(rows: seq<Row>, idx: seq<nat>, histories: seq<seq<LogData>>, k: nat)
    requires Increasing(idx, |rows|) && |histories| == |idx| && k <= |idx|
    requires forall j | 0 <= j < |idx| :: histories[j] == Records(rows[..idx[j] + 1])
    ensures LosesHistoryAt(Survivors(rows, idx), histories, k) <==> FirstOrphan(idx, k)
  {
    if FirstOrphan(idx, k) {
      OrphanIsFirst(rows, idx, histories, k);
    }
    if LosesHistoryAt(Survivors(rows, idx), histories, k) {
      LostIsOrphan(rows, idx, histories, k);
    }
  }

  lemma OrphanIsFirst(rows: seq<Row>, idx: seq<nat>, histories: seq<seq<LogData>>, k: nat)
    requires Increasing(idx, |rows|) && |histories| == |idx| && k <= |idx|
    requires forall j | 0 <= j < |idx| :: histories[j] == Records(rows[..idx[j] + 1])
    requires FirstOrphan(idx, k)
    ensures LosesHistoryAt(Survivors(rows, idx), histories, k)
  {
    hide KeepsHistory;
    forall j | 0 <= j < k
      ensures KeepsHistory(Survivors(rows, idx), histories, j)
    {
      PrefixKeeps(rows, idx, histories, j);
    }
    if k < |idx| {
      OrphanLoses(rows, idx, histories, k);
    }
  }

  lemma LostIsOrphan(rows: seq<Row>, idx: seq<nat>, histories: seq<seq<LogData>>, k: nat)
    requires Increasing(idx, |rows|) && |histories| == |idx| && k <= |idx|
    requires forall j | 0 <= j < |idx| :: histories[j] == Records(rows[..idx[j] + 1])
    requires LosesHistoryAt(Survivors(rows, idx), histories, k)
    ensures FirstOrphan(idx, k)
  {
    hide KeepsHistory;
    forall j | 0 <= j < k
      ensures idx[j] == j
    {
      OrphanLoses(rows, idx, histories, j);
    }
    if k < |idx| && idx[k] == k {
      PrefixKeeps(rows, idx, histories, k);
    }
  }

  lemma PrefixKeeps(rows: seq<Row>, idx: seq<nat>, histories: seq<seq<LogData>>, k: nat)
    requires Increasing(idx, |rows|) && |histories| == |idx| && k < |idx|
    requires forall j | 0 <= j <= k :: idx[j] == j
    requires histories[k] == Records(rows[..idx[k] + 1])
    ensures KeepsHistory(Survivors(rows, idx), histories, k)
  {
    assert idx[k] == k < |rows|;
    assert Survivors(rows, idx)[..k + 1] == rows[..k + 1];
  }

  lemma OrphanLoses(rows: seq<Row>, idx: seq<nat>, histories: seq<seq<LogData>>, k: nat)
    requires Increasing(idx, |rows|) && |histories| == |idx| && k < |idx|
    requires histories[k] == Records(rows[..idx[k] + 1])
    ensures KeepsHistory(Survivors(rows, idx), histories, k) ==> idx[k] == k
  {
    assert |Bodies(histories[k])| == idx[k] + 1;
    assert |Bodies(Records(Survivors(rows, idx)[..k + 1]))| == k + 1;
  }
}
