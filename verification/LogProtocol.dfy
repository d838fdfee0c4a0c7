/** `LogRequest` as a concurrent protocol over the shared `request_logs` table
    (pkg/storage/postgres.go): any number of writers and organizations, interleaved step
    by step, any of them rolling back at any step, with `DeleteOldAuditLogs` running at
    arbitrary moments without the lock. */
module LogProtocol {
  import opened Strings
  import opened Chain
  import opened AuditLog

  /** Nanoseconds since the Unix epoch, within the range of `UnixMicro`. */
  type Instant = x: int | -0x8000_0000_0000_0000 * 1000 <= x < 0x8000_0000_0000_0000 * 1000

  datatype Request = Request(
    timestamp: Instant,
    userId: string,
    requestId: string,
    verdict: string,
    threatDetails: string,
    riskScore: Int64,
    org: int)

  /** `UTC().Truncate(time.Microsecond)` */
  function Truncate(t: Instant): Instant {
    t - t % 1000
  }

  /** `UnixMicro()`: whole microseconds, rounded down. */
  function UnixMicro(t: Instant): Int64 {
    t / 1000
  }

  /** A TIMESTAMP column keeps the nearest microsecond; either one on a tie. */
  predicate Stores(t: Instant, micros: Int64) {
    -500 <= 1000 * micros - t <= 500
  }

  /** Why the timestamp is truncated first: whatever the column stores, what is read back
      hashes like the original exactly when less than half a microsecond was cut off. */
  lemma StoredTimeIff(t: Instant)
    ensures (forall m: Int64 | Stores(t, m) :: m == UnixMicro(t))
        <==> (t % 1000 < 500 || UnixMicro(t) == 0x7FFF_FFFF_FFFF_FFFF)
    ensures forall m: Int64 | Stores(Truncate(t), m) :: m == UnixMicro(Truncate(t)) == UnixMicro(t)
  {
    if t % 1000 >= 500 && UnixMicro(t) < 0x7FFF_FFFF_FFFF_FFFF {
      var up: Int64 := UnixMicro(t) + 1;
      assert Stores(t, up) && up != UnixMicro(t);
    }
  }

  function Hashed(r: Request): LogData {
    LogData(UnixMicro(r.timestamp), r.userId, r.requestId, r.verdict, r.threatDetails, r.riskScore)
  }

  /** Where a writer is inside `LogRequest`.  `chainedOn` and `history` record, for the
      proof, which records stand behind the hash the writer read. */
  datatype Phase =
    | Idle
    | Begun(request: Request)
    | Locked(request: Request)
    | HasPrevious(request: Request, prevHash: string, chainedOn: seq<LogData>)
    | Inserted(row: Row, history: seq<LogData>)

  datatype State = State(
    nextId: nat,                         // the SERIAL sequence; it never goes back
    table: map<nat, Row>,                // committed rows
    locks: map<int, nat>,                // pg_advisory_xact_lock(4711, org): org to writer
    writers: map<nat, Phase>,
    histories: map<nat, seq<LogData>>)   // proof record: what each row was chained onto

  datatype Action =
    | Begin(w: nat, request: Request)
    | Acquire(w: nat)
    | ReadPrevious(w: nat)
    | Insert(w: nat, micros: Int64)
    | Commit(w: nat)
    | Rollback(w: nat)
    | DeleteOld(org: int, before: int)

  function PhaseOf(s: State, w: nat): Phase {
    if w in s.writers then s.writers[w] else Idle
  }

  /** SELECT ... WHERE organization_id = org ORDER BY id, over ids below `n`. */
  function OrgRows(table: map<nat, Row>, org: int, n: nat): seq<Row> {
    if n == 0 then []
    else OrgRows(table, org, n - 1) + (if n - 1 in table && table[n - 1].org == org then [table[n - 1]] else [])
  }

  function Log(s: State, org: int): seq<Row> {
    OrgRows(s.table, org, s.nextId)
  }

  function HistoryOf(histories: map<nat, seq<LogData>>, id: nat): seq<LogData> {
    if id in histories then histories[id] else []
  }

  /** SELECT current_hash ... ORDER BY id DESC LIMIT 1, with the two Genesis fallbacks. */
  function PreviousHash(log: seq<Row>): string {
    if log == [] || log[|log| - 1].currentHash == "" then GENESIS_HASH else log[|log| - 1].currentHash
  }

  function ChainedOn(s: State, log: seq<Row>): seq<LogData> {
    if log == [] || log[|log| - 1].currentHash == "" then [] else HistoryOf(s.histories, log[|log| - 1].id)
  }

  function NewRow(sha: string -> string, s: State, r: Request, prevHash: string, micros: Int64): Row {
    Row(s.nextId, r.org, Hashed(r).(micros := micros), prevHash, CalculateHash(sha, prevHash, Hashed(r)))
  }

  /** One step.  A step that is not enabled (the lock is taken, the writer is elsewhere)
      leaves the state as it is. */
  function Step(sha: string -> string, s: State, a: Action): State {
    match a
    case Begin(w, request) =>
      if PhaseOf(s, w).Idle? then
        s.(writers := s.writers[w := Begun(request.(timestamp := Truncate(request.timestamp)))])
      else s
    case Acquire(w) =>
      var ph := PhaseOf(s, w);
      if ph.Begun? && ph.request.org !in s.locks then
        s.(locks := s.locks[ph.request.org := w], writers := s.writers[w := Locked(ph.request)])
      else s
    case ReadPrevious(w) =>
      var ph := PhaseOf(s, w);
      if ph.Locked? then
        var log := Log(s, ph.request.org);
        s.(writers := s.writers[w := HasPrevious(ph.request, PreviousHash(log), ChainedOn(s, log))])
      else s
    case Insert(w, micros) =>
      var ph := PhaseOf(s, w);
      if ph.HasPrevious? && Stores(ph.request.timestamp, micros) then
        var row := NewRow(sha, s, ph.request, ph.prevHash, micros);
        s.(nextId := s.nextId + 1,
           writers := s.writers[w := Inserted(row, ph.chainedOn + [Hashed(ph.request)])])
      else s
    case Commit(w) =>
      var ph := PhaseOf(s, w);
      if ph.Inserted? then
        s.(table := s.table[ph.row.id := ph.row],
           histories := s.histories[ph.row.id := ph.history],
           locks := s.locks - {ph.row.org},
           writers := s.writers[w := Idle])
      else s
    case Rollback(w) =>
      (match PhaseOf(s, w)
      case Idle => s
      case Begun(_) => s.(writers := s.writers[w := Idle])
      case Locked(r) => s.(locks := s.locks - {r.org}, writers := s.writers[w := Idle])
      case HasPrevious(r, _, _) => s.(locks := s.locks - {r.org}, writers := s.writers[w := Idle])
      case Inserted(row, _) => s.(locks := s.locks - {row.org}, writers := s.writers[w := Idle]))
    case DeleteOld(org, before) =>
      s.(table := map id | id in s.table && !(s.table[id].org == org
        && s.table[id].data.micros < before) :: s.table[id])
  }

  const EMPTY := State(0, map[], map[], map[], map[])

  /** The state after a schedule.  Every interleaving of any number of writers is one. */
  function Run(sha: string -> string, schedule: seq<Action>): State {
    if schedule == [] then EMPTY
    else Step(sha, Run(sha, schedule[..|schedule| - 1]), schedule[|schedule| - 1])
  }

  ghost predicate NoDeletes(schedule: seq<Action>) {
    forall i | 0 <= i < |schedule| :: !schedule[i].DeleteOld?
  }

  // ---------- What every step keeps ----------

  predicate Holds(s: State, w: nat, org: int) {
    org in s.locks && s.locks[org] == w
  }

  predicate RowInv(sha: string -> string, s: State, id: nat)
    requires id in s.table
  {
    && id < s.nextId
    && s.table[id].id == id
    && id in s.histories
    && Wrote(sha, s.table[id], s.histories[id])
  }

  ghost predicate WriterInv(sha: string -> string, s: State, w: nat) {
    match PhaseOf(s, w)
    case Idle => true
    case Begun(r) => r.timestamp % 1000 == 0
    case Locked(r) => r.timestamp % 1000 == 0 && Holds(s, w, r.org)
    case HasPrevious(r, prevHash, on) =>
      r.timestamp % 1000 == 0 && Holds(s, w, r.org) && prevHash == ChainHash(sha, Bodies(on))
    case Inserted(row, history) =>
      && Holds(s, w, row.org)
      && row.id < s.nextId
      && Wrote(sha, row, history)
      && NewestOfOrg(s, row)
  }

  /** No committed row has this id, and those of its organization have smaller ones. */
  ghost predicate NewestOfOrg(s: State, row: Row) {
    && row.id !in s.table
    && forall id | id in s.table && s.table[id].org == row.org :: id < row.id
  }

  /** Two pending rows never share an id. */
  ghost predicate DistinctPending(s: State) {
    forall v, w | v != w && PhaseOf(s, v).Inserted? && PhaseOf(s, w).Inserted? ::
      PhaseOf(s, v).row.id != PhaseOf(s, w).row.id
  }

  ghost predicate Inv(sha: string -> string, s: State) {
    && (forall id | id in s.table :: RowInv(sha, s, id))
    && (forall w {:trigger WriterInv(sha, s, w)} :: WriterInv(sha, s, w))
    && DistinctPending(s)
  }

  /** Every row of a log comes from the table, in increasing id order. */
  lemma {:induction false} LogRows(table: map<nat, Row>, org: int, n: nat)
    requires forall id | id in table :: table[id].id == id
    ensures forall k | 0 <= k < |OrgRows(table, org, n)| ::
              var row := OrgRows(table, org, n)[k];
              row.id < n && row.id in table && table[row.id] == row && row.org == org
    ensures forall j, k | 0 <= j < k < |OrgRows(table, org, n)| ::
              OrgRows(table, org, n)[j].id < OrgRows(table, org, n)[k].id
  {
    if n > 0 {
      LogRows(table, org, n - 1);
    }
  }

  /** A log depends only on its own organization's rows. */
  lemma {:induction false} SameLog(t: map<nat, Row>, t': map<nat, Row>, org: int, n: nat)
    requires forall id | id < n :: (id in t && t[id].org == org) <==> (id in t' && t'[id].org == org)
    requires forall id | id < n && id in t && t[id].org == org :: t[id] == t'[id]
    ensures OrgRows(t, org, n) == OrgRows(t', org, n)
  {
    if n > 0 {
      SameLog(t, t', org, n - 1);
    }
  }

  /** Ids that no row of the organization has do not extend its log. */
  lemma {:induction false} LongerRange(table: map<nat, Row>, org: int, m: nat, n: nat)
    requires m <= n
    requires forall id | id in table && table[id].org == org :: id < m
    ensures OrgRows(table, org, n) == OrgRows(table, org, m)
  {
    if m < n {
      LongerRange(table, org, m, n - 1);
    }
  }

  /** Committing the newest row appends it to its organization's log. */
  lemma AppendRow(table: map<nat, Row>, row: Row, n: nat)
    requires row.id < n && row.id !in table
    requires forall id | id in table && table[id].org == row.org :: id < row.id
    ensures OrgRows(table[row.id := row], row.org, n) == OrgRows(table, row.org, n) + [row]
  {
    var t := table[row.id := row];
    LongerRange(t, row.org, row.id + 1, n);
    LongerRange(table, row.org, row.id, n);
    SameLog(table, t, row.org, row.id);
  }

  /** What the writer reads under the lock is the chained hash of a recorded history. */
  lemma PreviousIsChained(sha: string -> string, s: State, org: int)
    requires FixedLength(sha) && Inv(sha, s)
    ensures PreviousHash(Log(s, org)) == ChainHash(sha, Bodies(ChainedOn(s, Log(s, org))))
  {
    hide LastPayload;
    var log := Log(s, org);
    LogRows(s.table, org, s.nextId);
    if log != [] {
      var last := log[|log| - 1];
      assert RowInv(sha, s, last.id);
      WroteHash(sha, last, s.histories[last.id]);
    }
  }

  lemma StepKeepsInv(sha: string -> string, s: State, a: Action)
    requires FixedLength(sha) && Inv(sha, s)
    ensures Inv(sha, Step(sha, s, a))
  {
    StepKeepsRows(sha, s, a);
    forall w
      ensures WriterInv(sha, Step(sha, s, a), w)
    {
      if !a.DeleteOld? && w == a.w {
        MoverInv(sha, s, a);
      } else {
        OthersInv(sha, s, a, w);
      }
    }
    forall w | PhaseOf(s, w).Inserted?
      ensures PhaseOf(s, w).row.id < s.nextId
    {
      assert WriterInv(sha, s, w);
    }
    StepKeepsDistinct(sha, s, a);
  }

  lemma StepKeepsRows(sha: string -> string, s: State, a: Action)
    requires Inv(sha, s)
    ensures forall id | id in Step(sha, s, a).table :: RowInv(sha, Step(sha, s, a), id)
  {
    var s' := Step(sha, s, a);
    forall id | id in s'.table
      ensures RowInv(sha, s', id)
    {
      if id in s.table {
        assert RowInv(sha, s, id);
      }
      if !a.DeleteOld? {
        assert WriterInv(sha, s, a.w);
      }
    }
  }

  lemma StepKeepsDistinct(sha: string -> string, s: State, a: Action)
    requires DistinctPending(s)
    requires forall w | PhaseOf(s, w).Inserted? :: PhaseOf(s, w).row.id < s.nextId
    ensures DistinctPending(Step(sha, s, a))
  {
    var s' := Step(sha, s, a);
    forall v, w | v != w && PhaseOf(s', v).Inserted? && PhaseOf(s', w).Inserted?
      ensures PhaseOf(s', v).row.id != PhaseOf(s', w).row.id
    {
      if a.DeleteOld? || v != a.w {
        SamePhase(sha, s, a, v);
      } else {
        NewIsNext(sha, s, a);
      }
      if a.DeleteOld? || w != a.w {
        SamePhase(sha, s, a, w);
      } else {
        NewIsNext(sha, s, a);
      }
      hide Step, PhaseOf;
    }
  }

  /** A row the mover has pending was pending before, or has the next id. */
  lemma NewIsNext(sha: string -> string, s: State, a: Action)
    requires !a.DeleteOld? && PhaseOf(Step(sha, s, a), a.w).Inserted?
    ensures || PhaseOf(Step(sha, s, a), a.w) == PhaseOf(s, a.w)
            || PhaseOf(Step(sha, s, a), a.w).row.id == s.nextId
  {
    hide CalculateHash, OrgRows, PreviousHash, ChainedOn, Stores, Hashed;
  }

  /** The writer that moves. */
  lemma MoverInv(sha: string -> string, s: State, a: Action)
    requires FixedLength(sha) && Inv(sha, s) && !a.DeleteOld?
    ensures WriterInv(sha, Step(sha, s, a), a.w)
  {
    hide ChainHash, CalculateHash, OrgRows, PreviousHash, ChainedOn;
    assert WriterInv(sha, s, a.w);
    var ph := PhaseOf(s, a.w);
    if a.ReadPrevious? && ph.Locked? {
      PreviousIsChained(sha, s, ph.request.org);
    } else if a.Insert? && ph.HasPrevious? && Stores(ph.request.timestamp, a.micros) {
      StoredTimeIff(ph.request.timestamp);
      var row := NewRow(sha, s, ph.request, ph.prevHash, a.micros);
      var history := ph.chainedOn + [Hashed(ph.request)];
      assert history[..|history| - 1] == ph.chainedOn;
      assert Wrote(sha, row, history);
      forall id | id in s.table
        ensures id < row.id
      {
        assert RowInv(sha, s, id);
      }
    }
  }

  /** A lock is released by its holder only. */
  lemma OthersKeepLocks(sha: string -> string, s: State, a: Action, w: nat, org: int)
    requires a.DeleteOld? || (w != a.w && WriterInv(sha, s, a.w))
    requires Holds(s, w, org)
    ensures Holds(Step(sha, s, a), w, org)
  {
    hide Wrote, ChainHash, CalculateHash, OrgRows, PreviousHash, ChainedOn, Stores, Hashed, NewestOfOrg, NewRow;
  }

  /** While its writer holds the lock, a pending row stays the newest of its organization. */
  lemma OthersKeepNewest(sha: string -> string, s: State, a: Action, w: nat)
    requires DistinctPending(s) && (a.DeleteOld? || (w != a.w && WriterInv(sha, s, a.w)))
    requires PhaseOf(s, w).Inserted? && WriterInv(sha, s, w)
    ensures PhaseOf(s, w).row.id < Step(sha, s, a).nextId && NewestOfOrg(Step(sha, s, a), PhaseOf(s, w).row)
  {
    hide Wrote, ChainHash, CalculateHash, OrgRows, PreviousHash, ChainedOn, Stores, Hashed, NewRow;
    if a.Commit? && PhaseOf(s, a.w).Inserted? {
      assert PhaseOf(s, a.w).row.id != PhaseOf(s, w).row.id;
    }
  }

  /** The writers that do not. */
  lemma OthersInv(sha: string -> string, s: State, a: Action, w: nat)
    requires Inv(sha, s) && (a.DeleteOld? || w != a.w)
    ensures WriterInv(sha, Step(sha, s, a), w)
  {
    assert WriterInv(sha, s, w);
    if !a.DeleteOld? {
      assert WriterInv(sha, s, a.w);
    }
    SamePhase(sha, s, a, w);
    var ph := PhaseOf(s, w);
    hide Step, Wrote, ChainHash, NewestOfOrg, Holds, PhaseOf;
    match ph
    case Idle =>
    case Begun(_) =>
    case Locked(r) =>
      OthersKeepLocks(sha, s, a, w, r.org);
    case HasPrevious(r, _, _) =>
      OthersKeepLocks(sha, s, a, w, r.org);
    case Inserted(row, _) =>
      OthersKeepLocks(sha, s, a, w, row.org);
      OthersKeepNewest(sha, s, a, w);
  }

  lemma SamePhase(sha: string -> string, s: State, a: Action, w: nat)
    requires a.DeleteOld? || w != a.w
    ensures PhaseOf(Step(sha, s, a), w) == PhaseOf(s, w)
  {
    hide CalculateHash, OrgRows, PreviousHash, ChainedOn, Stores, Hashed, NewRow;
  }

  lemma {:induction false} RunInv(sha: string -> string, schedule: seq<Action>)
    requires FixedLength(sha)
    ensures Inv(sha, Run(sha, schedule))
  {
    if schedule != [] {
      RunInv(sha, schedule[..|schedule| - 1]);
      StepKeepsInv(sha, Run(sha, schedule[..|schedule| - 1]), schedule[|schedule| - 1]);
    }
  }

  // ---------- Schedules without deletions ----------

  /** The records of one organization in the order their transactions committed. */
  function Committed(sha: string -> string, schedule: seq<Action>, org: int): seq<LogData> {
    if schedule == [] then []
    else
      var s, a := Run(sha, schedule[..|schedule| - 1]), schedule[|schedule| - 1];
      Committed(sha, schedule[..|schedule| - 1], org) + Records(Appended(s, a, org))
  }

  /** The row a step adds to an organization's log, if any. */
  function Appended(s: State, a: Action, org: int): seq<Row> {
    if a.Commit? && PhaseOf(s, a.w).Inserted? && PhaseOf(s, a.w).row.org == org then [PhaseOf(s, a.w).row] else []
  }

  /** Every row of the log was chained onto all the rows in front of it. */
  ghost predicate LogIntact(log: seq<Row>, histories: map<nat, seq<LogData>>) {
    forall k | 0 <= k < |log| :: HistoryOf(histories, log[k].id) == Records(log[..k + 1])
  }

  ghost predicate OrgIntact(s: State, org: int) {
    LogIntact(Log(s, org), s.histories)
  }

  ghost predicate WriterIntact(s: State, w: nat) {
    match PhaseOf(s, w)
    case HasPrevious(r, _, on) => on == Records(Log(s, r.org))
    case Inserted(row, history) => history == Records(Log(s, row.org)) + [row.data]
    case _ => true
  }

  ghost predicate Intact(s: State) {
    && (forall org {:trigger OrgIntact(s, org)} :: OrgIntact(s, org))
    && (forall w {:trigger WriterIntact(s, w)} :: WriterIntact(s, w))
  }

  /** Without deletions a step at most appends the committed row. */
  lemma LogAfter(sha: string -> string, s: State, a: Action, org: int)
    requires Inv(sha, s) && !a.DeleteOld?
    ensures Log(Step(sha, s, a), org) == Log(s, org) + Appended(s, a, org)
  {
    hide Wrote, ChainHash, CalculateHash, PreviousHash, ChainedOn, Stores, Hashed, OrgRows, NewRow;
    var s' := Step(sha, s, a);
    forall id | id in s.table
      ensures id < s.nextId && s.table[id].id == id
    {
      assert RowInv(sha, s, id);
    }
    LongerRange(s.table, org, s.nextId, s'.nextId);
    if Appended(s, a, org) != [] {
      assert WriterInv(sha, s, a.w);
      AppendRow(s.table, PhaseOf(s, a.w).row, s.nextId);
    } else if a.Commit? && PhaseOf(s, a.w).Inserted? {
      assert WriterInv(sha, s, a.w);
      SameLog(s.table, s'.table, org, s.nextId);
    } else {
      assert s'.table == s.table;
    }
  }

  lemma StepKeepsOrgIntact(sha: string -> string, s: State, a: Action, org: int)
    requires Inv(sha, s) && Intact(s) && !a.DeleteOld?
    ensures OrgIntact(Step(sha, s, a), org)
  {
    var s' := Step(sha, s, a);
    LogAfter(sha, s, a, org);
    forall id | id in s.table
      ensures s.table[id].id == id
    {
      assert RowInv(sha, s, id);
    }
    LogRows(s.table, org, s.nextId);
    assert OrgIntact(s, org);
    var log := Log(s, org);
    forall k | 0 <= k < |log|
      ensures HistoryOf(s'.histories, log[k].id) == HistoryOf(s.histories, log[k].id)
    {
      OldHistory(sha, s, a, log[k].id);
    }
    if Appended(s, a, org) != [] {
      assert WriterIntact(s, a.w);
      AppendIntact(log, PhaseOf(s, a.w).row, s.histories, s'.histories);
    } else {
      assert Log(s', org) == log;
    }
  }

  lemma AppendIntact(log: seq<Row>, row: Row, histories: map<nat, seq<LogData>>, histories': map<nat, seq<LogData>>)
    requires LogIntact(log, histories)
    requires forall k | 0 <= k < |log| :: HistoryOf(histories', log[k].id) == HistoryOf(histories, log[k].id)
    requires HistoryOf(histories', row.id) == Records(log) + [row.data]
    ensures LogIntact(log + [row], histories')
  {
    var log' := log + [row];
    forall k | 0 <= k < |log'|
      ensures HistoryOf(histories', log'[k].id) == Records(log'[..k + 1])
    {
      if k < |log| {
        assert log'[..k + 1] == log[..k + 1];
      } else {
        assert log'[..k + 1] == log';
        assert Records(log') == Records(log) + [row.data];
      }
    }
  }

  lemma OldHistory(sha: string -> string, s: State, a: Action, id: nat)
    requires Inv(sha, s) && id in s.table
    ensures HistoryOf(Step(sha, s, a).histories, id) == HistoryOf(s.histories, id)
  {
    if !a.DeleteOld? {
      assert WriterInv(sha, s, a.w);
    }
  }

  lemma StepKeepsWriterIntact(sha: string -> string, s: State, a: Action, w: nat)
    requires FixedLength(sha) && Inv(sha, s) && Intact(s) && !a.DeleteOld?
    ensures WriterIntact(Step(sha, s, a), w)
  {
    if w == a.w {
      MoverIntact(sha, s, a);
    } else {
      OthersIntact(sha, s, a, w);
    }
  }

  lemma MoverIntact(sha: string -> string, s: State, a: Action)
    requires FixedLength(sha) && Inv(sha, s) && Intact(s) && !a.DeleteOld?
    ensures WriterIntact(Step(sha, s, a), a.w)
  {
    hide ChainHash, CalculateHash, OrgRows, PreviousHash, Wrote;
    var ph := PhaseOf(s, a.w);
    assert WriterIntact(s, a.w);
    if a.ReadPrevious? && ph.Locked? {
      LogAfter(sha, s, a, ph.request.org);
      ReadsWholeLog(sha, s, ph.request.org);
    } else if a.Insert? && ph.HasPrevious? && Stores(ph.request.timestamp, a.micros) {
      LogAfter(sha, s, a, ph.request.org);
      assert WriterInv(sha, s, a.w);
      StoredTimeIff(ph.request.timestamp);
    } else if !(a.Commit? && ph.Inserted?) {
      assert Step(sha, s, a).table == s.table && Step(sha, s, a).nextId == s.nextId;
    }
  }

  /** The lock: no one else appends to the log a writer is about to extend. */
  lemma OthersIntact(sha: string -> string, s: State, a: Action, w: nat)
    requires Inv(sha, s) && Intact(s) && !a.DeleteOld? && w != a.w
    ensures WriterIntact(Step(sha, s, a), w)
  {
    hide ChainHash, CalculateHash, OrgRows, PreviousHash, Wrote;
    var ph := PhaseOf(s, w);
    assert PhaseOf(Step(sha, s, a), w) == ph;
    assert WriterIntact(s, w);
    if ph.HasPrevious? || ph.Inserted? {
      var org := if ph.HasPrevious? then ph.request.org else ph.row.org;
      LogAfter(sha, s, a, org);
      HolderExcludes(sha, s, a, w, org);
    }
  }

  lemma HolderExcludes(sha: string -> string, s: State, a: Action, w: nat, org: int)
    requires Inv(sha, s) && !a.DeleteOld? && w != a.w
    requires || (PhaseOf(s, w).HasPrevious? && PhaseOf(s, w).request.org == org)
             || (PhaseOf(s, w).Inserted? && PhaseOf(s, w).row.org == org)
    ensures Appended(s, a, org) == []
  {
    assert WriterInv(sha, s, w) && WriterInv(sha, s, a.w);
  }

  /** Under the lock, what the writer chains on is the whole log of its organization. */
  lemma ReadsWholeLog(sha: string -> string, s: State, org: int)
    requires FixedLength(sha) && Inv(sha, s) && Intact(s)
    ensures ChainedOn(s, Log(s, org)) == Records(Log(s, org))
  {
    var log := Log(s, org);
    forall id | id in s.table
      ensures s.table[id].id == id
    {
      assert RowInv(sha, s, id);
    }
    LogRows(s.table, org, s.nextId);
    assert OrgIntact(s, org);
    if log != [] {
      assert log[..|log|] == log;
      assert RowInv(sha, s, log[|log| - 1].id);
    }
  }

  lemma {:induction false} RunIntact(sha: string -> string, schedule: seq<Action>, org: int)
    requires FixedLength(sha) && NoDeletes(schedule)
    ensures Intact(Run(sha, schedule))
    ensures Records(Log(Run(sha, schedule), org)) == Committed(sha, schedule, org)
  {
    if schedule != [] {
      var before, a := schedule[..|schedule| - 1], schedule[|schedule| - 1];
      var s := Run(sha, before);
      RunIntact(sha, before, org);
      RunInv(sha, before);
      forall o
        ensures OrgIntact(Step(sha, s, a), o)
      {
        StepKeepsOrgIntact(sha, s, a, o);
      }
      forall w
        ensures WriterIntact(Step(sha, s, a), w)
      {
        StepKeepsWriterIntact(sha, s, a, w);
      }
      LogAfter(sha, s, a, org);
      assert Records(Log(s, org) + Appended(s, a, org)) == Records(Log(s, org)) + Records(Appended(s, a, org));
    }
  }

  /** Safety of the protocol.  After any schedule without deletions, every organization's
      rows in id order are its committed records in commit order, and each of them carries
      its predecessor's hash and its own: the chain `VerifyIntegrity` accepts. */
  lemma ChainStaysIntact(sha: string -> string, schedule: seq<Action>, org: int)
    requires FixedLength(sha) && NoDeletes(schedule)
    ensures var rows := Log(Run(sha, schedule), org);
            && Records(rows) == Committed(sha, schedule, org)
            && forall k | 0 <= k < |rows| :: LinkOk(sha, rows, k)
  {
    var s := Run(sha, schedule);
    var rows := Log(s, org);
    RunInv(sha, schedule);
    RunIntact(sha, schedule, org);
    var histories := LogHistories(s, org);
    LogWrote(sha, s, org);
    assert OrgIntact(s, org);
    forall k | 0 <= k < |rows|
      ensures LinkOk(sha, rows, k)
    {
      assert Wrote(sha, rows[k], histories[k]);
      if k > 0 {
        assert Wrote(sha, rows[k - 1], histories[k - 1]);
      }
      KeptLink(sha, rows, histories, k);
    }
  }

  /** The replay's answer in every such state: valid, with every committed record checked. */
  method AuditAfter(sha: string -> string, schedule: seq<Action>, org: int) returns (report: Report)
    requires FixedLength(sha) && NoDeletes(schedule)
    ensures report == Report(true, 0, |Committed(sha, schedule, org)|, NoFailure)
  {
    var rows := Log(Run(sha, schedule), org);
    report := VerifyIntegrity(sha, rows);
    ChainStaysIntact(sha, schedule, org);
    BreaksOnce(sha, rows, report.totalChecked, |rows|);
  }

  // ---------- Every schedule, deletions included ----------

  function LogHistories(s: State, org: int): (histories: seq<seq<LogData>>)
    ensures |histories| == |Log(s, org)|
    ensures forall k | 0 <= k < |histories| :: histories[k] == HistoryOf(s.histories, Log(s, org)[k].id)
  {
    seq(|Log(s, org)|, k requires 0 <= k < |Log(s, org)| => HistoryOf(s.histories, Log(s, org)[k].id))
  }

  lemma LogWrote(sha: string -> string, s: State, org: int)
    requires Inv(sha, s)
    ensures AllWrote(sha, Log(s, org), LogHistories(s, org))
  {
    forall id | id in s.table
      ensures s.table[id].id == id
    {
      assert RowInv(sha, s, id);
    }
    LogRows(s.table, org, s.nextId);
    forall k | 0 <= k < |Log(s, org)|
      ensures Wrote(sha, Log(s, org)[k], LogHistories(s, org)[k])
    {
      assert RowInv(sha, s, Log(s, org)[k].id);
    }
  }

  /** What `VerifyIntegrity` reports in every reachable state, however writers, rollbacks
      and retention runs interleave: the log breaks at the first row that was chained onto
      something other than the rows in front of it now (or the proof shows a break of the
      hash function among the payloads behind this log). */
  lemma ReachableVerdict(sha: string -> string, schedule: seq<Action>, org: int, k: nat)
    returns (p: string, q: string)
    requires FixedLength(sha)
    requires k <= |Log(Run(sha, schedule), org)|
    ensures var s := Run(sha, schedule);
            || (BreaksAt(sha, Log(s, org), k) <==> LosesHistoryAt(Log(s, org), LogHistories(s, org), k))
            || ShowsBreak(sha, LogHistories(s, org), p, q)
  {
    var s := Run(sha, schedule);
    RunInv(sha, schedule);
    LogWrote(sha, s, org);
    p, q := ExactVerdict(sha, Log(s, org), LogHistories(s, org), k);
  }

  ghost predicate SubTable(t': map<nat, Row>, t: map<nat, Row>) {
    forall id | id in t' :: id in t && t'[id] == t[id]
  }

  /** `left` is made of the rows of `rows` that `idx` names. */
  ghost predicate Selects(rows: seq<Row>, idx: seq<nat>, left: seq<Row>) {
    Increasing(idx, |rows|) && left == Survivors(rows, idx)
  }

  /** `idx` names exactly the rows at or after the threshold. */
  ghost predicate Picks(rows: seq<Row>, idx: seq<nat>, before: int) {
    forall i: nat | i < |rows| :: i in idx <==> rows[i].data.micros >= before
  }

  /** The log of what is left is made of the rows that are kept, in the same order. */
  lemma {:induction false} SubLog(t: map<nat, Row>, t': map<nat, Row>, org: int, n: nat, before: int)
    returns (idx: seq<nat>)
    requires SubTable(t', t)
    requires forall id | id in t && t[id].org == org :: id in t' <==> t[id].data.micros >= before
    ensures Selects(OrgRows(t, org, n), idx, OrgRows(t', org, n))
    ensures Picks(OrgRows(t, org, n), idx, before)
  {
    hide Selects, Picks, Survivors, Increasing;
    if n == 0 {
      idx := SelectsNothing(before);
    } else {
      var init := SubLog(t, t', org, n - 1, before);
      var rows, left := OrgRows(t, org, n - 1), OrgRows(t', org, n - 1);
      idx := init;
      assert n - 1 in t' ==> n - 1 in t && t'[n - 1] == t[n - 1];
      if n - 1 in t && t[n - 1].org == org {
        ExtendSurvivors(rows, init, left, t[n - 1]);
        PicksNext(rows, init, left, t[n - 1], before);
        if n - 1 in t' {
          idx := init + [|rows|];
        } else {
          assert left + [] == left;
        }
      } else {
        assert left + [] == left && rows + [] == rows;
      }
    }
  }

  lemma PicksNext(rows: seq<Row>, idx: seq<nat>, left: seq<Row>, row: Row, before: int)
    requires Selects(rows, idx, left) && Picks(rows, idx, before)
    ensures Picks(rows + [row], if row.data.micros >= before then idx + [|rows|] else idx, before)
  {
    var rows', idx' := rows + [row], if row.data.micros >= before then idx + [|rows|] else idx;
    assert |rows| !in idx;
    forall i: nat | i < |rows'|
      ensures i in idx' <==> rows'[i].data.micros >= before
    {
      assert i in idx' <==> i in idx || (row.data.micros >= before && i == |rows|);
    }
  }

  lemma SelectsNothing(before: int) returns (idx: seq<nat>)
    ensures Selects([], idx, []) && Picks([], idx, before)
  {
    idx := [];
  }

  lemma ExtendSurvivors(rows: seq<Row>, idx: seq<nat>, left: seq<Row>, row: Row)
    requires Selects(rows, idx, left)
    ensures Selects(rows + [row], idx, left)
    ensures Selects(rows + [row], idx + [|rows|], left + [row])
  {
    var idx' := idx + [|rows|];
    assert forall k | 0 <= k < |idx| :: idx'[k] == idx[k];
    assert Survivors(rows + [row], idx) == left;
    assert Survivors(rows + [row], idx') == left + [row];
  }

  /** Retention on any accepted log, as it is without deletions and also after an earlier run that
      emptied it: exactly the rows at or after the threshold survive, they are accepted exactly
      when they are a prefix of the log, and otherwise the report names the first survivor whose
      predecessor went (or the proof shows a break of the hash function). */
  lemma RetentionVerdict(sha: string -> string, schedule: seq<Action>, org: int, before: int)
    returns (idx: seq<nat>, p: string, q: string)
    requires FixedLength(sha) && Accepted(sha, Log(Run(sha, schedule), org))
    ensures var rows, left := Log(Run(sha, schedule), org), Log(Run(sha, schedule + [DeleteOld(org, before)]), org);
            && Selects(rows, idx, left)
            && Picks(rows, idx, before)
            && ((forall k | 0 <= k <= |left| :: BreaksAt(sha, left, k) <==> FirstOrphan(idx, k))
                || ShowsBreak(sha, Prefixes(rows), p, q))
            && forall k | 0 <= k < |left| && BreaksAt(sha, left, k) :: NamesOrphan(rows, idx, k, ReportAt(left, k))
  {
    var all := schedule + [DeleteOld(org, before)];
    var s, s' := Run(sha, schedule), Run(sha, all);
    RunNext(sha, schedule, DeleteOld(org, before));
    var rows, left := Log(s, org), Log(s', org);
    hide Run, Picks, Selects, LinkOk;
    idx := SubLog(s.table, s'.table, org, s.nextId, before);
    p, q := RetentionBreak(sha, rows, idx, left);
    forall k | 0 <= k < |left| && BreaksAt(sha, left, k)
      ensures NamesOrphan(rows, idx, k, ReportAt(left, k))
    {
      OrphanIsNamed(sha, rows, idx, left, k);
    }
  }

  /** The report blames survivor `k`: it carries the hash of the row that was in front of it
      before, and not that of the survivor in front of it now. */
  ghost predicate NamesOrphan(rows: seq<Row>, idx: seq<nat>, k: nat, report: Report) {
    && k < |idx| && idx[k] < |rows| && (k > 0 ==> idx[k - 1] < |rows|)
    && var now := if k == 0 then GENESIS_HASH else rows[idx[k - 1]].currentHash;
       var carried := if idx[k] == 0 then GENESIS_HASH else rows[idx[k] - 1].currentHash;
       report == Report(false, rows[idx[k]].id, k, PreviousHashMismatch(now, carried))
  }

  lemma OrphanIsNamed(sha: string -> string, rows: seq<Row>, idx: seq<nat>, left: seq<Row>, k: nat)
    requires Accepted(sha, rows) && Selects(rows, idx, left) && k < |left| && BreaksAt(sha, left, k)
    ensures NamesOrphan(rows, idx, k, ReportAt(left, k))
  {
    hide CalculateHash;
    ReportNames(left, k);
    assert left[k] == rows[idx[k]] && LinkOk(sha, rows, idx[k]) && !LinkOk(sha, left, k);
  }

  lemma RetentionBreak(sha: string -> string, rows: seq<Row>, idx: seq<nat>, left: seq<Row>)
    returns (p: string, q: string)
    requires FixedLength(sha) && Selects(rows, idx, left)
    requires Accepted(sha, rows)
    ensures (forall k | 0 <= k <= |left| :: BreaksAt(sha, left, k) <==> FirstOrphan(idx, k))
         || ShowsBreak(sha, Prefixes(rows), p, q)
  {
    hide BreaksAt, FirstOrphan, LinkOk, ShowsBreak;
    p, q := "", "";
    if k: nat :| k <= |left| && (BreaksAt(sha, left, k) != FirstOrphan(idx, k)) {
      p, q := DeletionVerdict(sha, rows, idx, k);
    }
  }

  /** A row that is kept stands behind one that is deleted. */
  ghost predicate KeptBehindDeleted(rows: seq<Row>, before: int) {
    exists i, j | 0 <= i < j < |rows| :: rows[i].data.micros < before <= rows[j].data.micros
  }

  /** When retention leaves an accepted log, from the timestamps alone: exactly when no row at
      or after the threshold follows an older one. */
  lemma RetentionAcceptedIff(sha: string -> string, schedule: seq<Action>, org: int, before: int)
    returns (p: string, q: string)
    requires FixedLength(sha) && Accepted(sha, Log(Run(sha, schedule), org))
    ensures var rows, left := Log(Run(sha, schedule), org), Log(Run(sha, schedule + [DeleteOld(org, before)]), org);
            || (BreaksAt(sha, left, |left|) <==> !KeptBehindDeleted(rows, before))
            || ShowsBreak(sha, Prefixes(rows), p, q)
  {
    var idx: seq<nat>;
    idx, p, q := RetentionVerdict(sha, schedule, org, before);
    var rows := Log(Run(sha, schedule), org);
    hide Run, BreaksAt, ShowsBreak, Prefixes;
    PrefixIff(idx, |rows|);
    NoneBehind(rows, idx, before);
  }

  lemma NoneBehind(rows: seq<Row>, idx: seq<nat>, before: int)
    requires Picks(rows, idx, before)
    ensures Closed(idx, |rows|) <==> !KeptBehindDeleted(rows, before)
  {
    forall i: nat | i < |rows|
      ensures i in idx <==> rows[i].data.micros >= before
    {
    }
  }

  /** Retention as it is meant: the oldest row goes and some row stays.  Then the report is
      that the chain is broken at the first row that stayed, with nothing checked. */
  lemma OldestDeletedBreaks(sha: string -> string, schedule: seq<Action>, org: int, before: int, j: nat)
    returns (p: string, q: string)
    requires FixedLength(sha) && Accepted(sha, Log(Run(sha, schedule), org))
    requires j < |Log(Run(sha, schedule), org)|
    requires Log(Run(sha, schedule), org)[0].data.micros < before <= Log(Run(sha, schedule), org)[j].data.micros
    ensures var rows, left := Log(Run(sha, schedule), org), Log(Run(sha, schedule + [DeleteOld(org, before)]), org);
            || (left != [] && BreaksAt(sha, left, 0) && !ReportAt(left, 0).valid
                && ReportAt(left, 0).totalChecked == 0 && ReportAt(left, 0).brokenAtId == left[0].id)
            || ShowsBreak(sha, Prefixes(rows), p, q)
  {
    var idx: seq<nat>;
    idx, p, q := RetentionVerdict(sha, schedule, org, before);
    var rows, left := Log(Run(sha, schedule), org), Log(Run(sha, schedule + [DeleteOld(org, before)]), org);
    hide Run, BreaksAt, ShowsBreak, Prefixes;
    assert 0 !in idx && j in idx;
    assert FirstOrphan(idx, 0);
  }

  /** Retention for one organization leaves every other organization's log as it was. */
  lemma RetentionIsScoped(sha: string -> string, schedule: seq<Action>, org: int, before: int, other: int)
    requires other != org
    ensures Log(Run(sha, schedule + [DeleteOld(org, before)]), other) == Log(Run(sha, schedule), other)
  {
    var all := schedule + [DeleteOld(org, before)];
    var s, s' := Run(sha, schedule), Run(sha, all);
    assert all[..|all| - 1] == schedule;
    SameLog(s.table, s'.table, other, s.nextId);
  }

  // ---------- Retention does not take the lock ----------

  lemma RunNext(sha: string -> string, schedule: seq<Action>, a: Action)
    ensures Run(sha, schedule + [a]) == Step(sha, Run(sha, schedule), a)
  {
    var all := schedule + [a];
    assert all[..|all| - 1] == schedule;
  }

  /** The first request is logged, the second is begun and holds the lock. */
  function Opening(first: Request, second: Request): seq<Action> {
    Logging(first) + [Begin(2, second)] + [Acquire(2)]
  }

  function FirstRow(sha: string -> string, first: Request): Row {
    Row(0, first.org, Hashed(first), GENESIS_HASH, CalculateHash(sha, GENESIS_HASH, Hashed(first)))
  }

  /** The state after the opening; the second writer's timestamp is already truncated. */
  function Opened(sha: string -> string, first: Request, second: Request): State {
    State(1, map[0 := FirstRow(sha, first)], map[second.org := 2],
          map[1 := Idle, 2 := Locked(Truncated(second))],
          map[0 := [Hashed(first)]])
  }

  lemma OpeningRuns(sha: string -> string, first: Request, second: Request)
    ensures Run(sha, Opening(first, second)) == Opened(sha, first, second)
  {
    FirstLogged(sha, first);
    hide CalculateHash, OrgRows, Run, Logging, Hashed;
    RunNext(sha, Logging(first), Begin(2, second));
    RunNext(sha, Logging(first) + [Begin(2, second)], Acquire(2));
  }

  /** While the first request is logged: nothing committed, one writer. */
  function Lone(first: Request, locked: bool, nextId: nat, phase: Phase): State {
    State(nextId, map[], if locked then map[first.org := 1] else map[], map[1 := phase], map[])
  }

  function Truncated(r: Request): Request {
    r.(timestamp := Truncate(r.timestamp))
  }

  lemma FirstBegins(sha: string -> string, first: Request)
    ensures Step(sha, EMPTY, Begin(1, first)) == Lone(first, false, 0, Begun(Truncated(first)))
    ensures Step(sha, Lone(first, false, 0, Begun(Truncated(first))), Acquire(1))
        == Lone(first, true, 0, Locked(Truncated(first)))
  {
  }

  lemma FirstReads(sha: string -> string, first: Request)
    ensures Step(sha, Lone(first, true, 0, Locked(Truncated(first))), ReadPrevious(1))
         == Lone(first, true, 0, HasPrevious(Truncated(first), GENESIS_HASH, []))
  {
    var s := Lone(first, true, 0, Locked(Truncated(first)));
    assert Log(s, first.org) == [];
  }

  lemma HashedTruncated(r: Request)
    ensures Hashed(Truncated(r)) == Hashed(r) && Stores(Truncated(r).timestamp, UnixMicro(r.timestamp))
  {
    StoredTimeIff(r.timestamp);
  }

  lemma FirstInserts(sha: string -> string, first: Request)
    ensures Step(sha, Lone(first, true, 0, HasPrevious(Truncated(first), GENESIS_HASH, [])),
                 Insert(1, UnixMicro(first.timestamp)))
         == Lone(first, true, 1, Inserted(FirstRow(sha, first), [Hashed(first)]))
  {
    HashedTruncated(first);
    hide CalculateHash, Truncate, UnixMicro, Stores;
    assert [] + [Hashed(Truncated(first))] == [Hashed(first)];
  }

  lemma FirstCommits(sha: string -> string, first: Request)
    ensures Step(sha, Lone(first, true, 1, Inserted(FirstRow(sha, first), [Hashed(first)])), Commit(1))
         == State(1, map[0 := FirstRow(sha, first)], map[], map[1 := Idle], map[0 := [Hashed(first)]])
  {
    hide CalculateHash, Hashed;
  }

  function Logging(first: Request): seq<Action> {
    [Begin(1, first)] + [Acquire(1)] + [ReadPrevious(1)] + [Insert(1, UnixMicro(first.timestamp))] + [Commit(1)]
  }

  lemma FirstLogged(sha: string -> string, first: Request)
    ensures Run(sha, Logging(first))
         == State(1, map[0 := FirstRow(sha, first)], map[], map[1 := Idle], map[0 := [Hashed(first)]])
  {
    assert Run(sha, []) == EMPTY;
    hide Step, Run, Lone, FirstRow, Hashed, Truncated;
    var a1 := [Begin(1, first)];
    assert [] + a1 == a1;
    RunNext(sha, [], Begin(1, first));
    RunNext(sha, a1, Acquire(1));
    FirstBegins(sha, first);
    RunNext(sha, a1 + [Acquire(1)], ReadPrevious(1));
    FirstReads(sha, first);
    RunNext(sha, a1 + [Acquire(1)] + [ReadPrevious(1)], Insert(1, UnixMicro(first.timestamp)));
    FirstInserts(sha, first);
    RunNext(sha, a1 + [Acquire(1)] + [ReadPrevious(1)] + [Insert(1, UnixMicro(first.timestamp))], Commit(1));
    FirstCommits(sha, first);
  }

  /** From the opening on, whichever of the second writer's read and the retention run
      comes first. */
  function Closing(sha: string -> string, s: State, readFirst: bool, second: Request, before: int): State {
    var gone := DeleteOld(second.org, before);
    var s1 := if readFirst then Step(sha, Step(sha, s, ReadPrevious(2)), gone)
              else Step(sha, Step(sha, s, gone), ReadPrevious(2));
    Step(sha, Step(sha, s1, Insert(2, UnixMicro(second.timestamp))), Commit(2))
  }

  function Race(first: Request, second: Request, before: int, readFirst: bool): seq<Action> {
    Opening(first, second)
    + (if readFirst then [ReadPrevious(2), DeleteOld(second.org, before)]
      else [DeleteOld(second.org, before), ReadPrevious(2)])
    + [Insert(2, UnixMicro(second.timestamp)), Commit(2)]
  }

  lemma RaceRuns(sha: string -> string, first: Request, second: Request, before: int, readFirst: bool)
    ensures Run(sha, Race(first, second, before, readFirst))
         == Closing(sha, Run(sha, Opening(first, second)), readFirst, second, before)
  {
    hide Step, Opening;
    var a0 := Opening(first, second);
    var x, y := DeleteOld(second.org, before), ReadPrevious(2);
    if readFirst {
      x, y := y, x;
    }
    RunNext(sha, a0, x);
    RunNext(sha, a0 + [x], y);
    RunNext(sha, a0 + [x] + [y], Insert(2, UnixMicro(second.timestamp)));
    RunNext(sha, a0 + [x] + [y] + [Insert(2, UnixMicro(second.timestamp))], Commit(2));
    assert Race(first, second, before, readFirst)
        == a0 + [x] + [y] + [Insert(2, UnixMicro(second.timestamp))] + [Commit(2)];
  }

  /** The second writer has read, and retention has run, in either order. */
  lemma ClosingReads(sha: string -> string, first: Request, second: Request, before: int, readFirst: bool)
    returns (chainedOn: seq<LogData>)
    requires first.org == second.org && UnixMicro(first.timestamp) < before && FixedLength(sha)
    ensures var s, gone := Opened(sha, first, second), DeleteOld(second.org, before);
            var prev := if readFirst then FirstRow(sha, first).currentHash else GENESIS_HASH;
            (if readFirst then Step(sha, Step(sha, s, ReadPrevious(2)), gone)
              else Step(sha, Step(sha, s, gone), ReadPrevious(2)))
            == State(1, map[], map[second.org := 2],
                     map[1 := Idle, 2 := HasPrevious(Truncated(second), prev, chainedOn)], map[0 := [Hashed(first)]])
  {
    OneRow(map[0 := FirstRow(sha, first)], FirstRow(sha, first));
    assert FirstRow(sha, first).currentHash != "" by {
      SameDigest(sha, first);
    }
    hide CalculateHash, OrgRows;
    chainedOn := if readFirst then [Hashed(first)] else [];
  }

  lemma ClosingWrites(sha: string -> string, s: State, second: Request, prev: string, chainedOn: seq<LogData>)
    requires PhaseOf(s, 2) == HasPrevious(Truncated(second), prev, chainedOn) && s.table == map[] && s.nextId == 1
    ensures var s' := Step(sha, Step(sha, s, Insert(2, UnixMicro(second.timestamp))), Commit(2));
            Log(s', second.org) == [Row(1, second.org, Hashed(second), prev, CalculateHash(sha, prev, Hashed(second)))]
  {
    HashedTruncated(second);
    hide CalculateHash, Truncate, UnixMicro, Stores;
    var s4 := Step(sha, Step(sha, s, Insert(2, UnixMicro(second.timestamp))), Commit(2));
    var row := Row(1, second.org, Hashed(second), prev, CalculateHash(sha, prev, Hashed(second)));
    assert s4.table == map[1 := row] && s4.nextId == 2;
    assert OrgRows(s4.table, second.org, 0) == [];
    assert OrgRows(s4.table, second.org, 1) == [];
    assert OrgRows(s4.table, second.org, 2) == [row];
  }

  lemma ClosingLog(sha: string -> string, first: Request, second: Request, before: int, readFirst: bool)
    requires first.org == second.org && UnixMicro(first.timestamp) < before
    requires FixedLength(sha)
    ensures var s := Closing(sha, Opened(sha, first, second), readFirst, second, before);
            var prev := if readFirst then FirstRow(sha, first).currentHash else GENESIS_HASH;
            Log(s, second.org) == [Row(1, second.org, Hashed(second), prev, CalculateHash(sha, prev, Hashed(second)))]
  {
    var chainedOn := ClosingReads(sha, first, second, before, readFirst);
    var s, gone := Opened(sha, first, second), DeleteOld(second.org, before);
    var s2 := if readFirst then Step(sha, Step(sha, s, ReadPrevious(2)), gone)
              else Step(sha, Step(sha, s, gone), ReadPrevious(2));
    hide Step, Log, CalculateHash;
    ClosingWrites(sha, s2, second, if readFirst then FirstRow(sha, first).currentHash else GENESIS_HASH, chainedOn);
  }

  lemma SameDigest(sha: string -> string, first: Request)
    ensures FirstRow(sha, first).currentHash == sha(Payload(GENESIS_HASH, Hashed(first)))
  {
  }

  lemma OneRow(table: map<nat, Row>, row: Row)
    requires table == map[0 := row]
    ensures OrgRows(table, row.org, 1) == [row] && OrgRows(map[], row.org, 1) == []
  {
    assert OrgRows(table, row.org, 0) == [] && OrgRows(map[], row.org, 0) == [];
  }

  /** Retention may empty a log and new records start from Genesis again, but not when it
      runs while a writer has read the last hash and not yet committed: with the same steps
      in that order the one remaining row points at a deleted one and the log is rejected
      (unless the deleted row's digest happens to be the Genesis constant). */
  lemma RetentionRace(sha: string -> string, first: Request, second: Request, before: int)
    requires FixedLength(sha)
    requires first.org == second.org && UnixMicro(first.timestamp) < before
    ensures var serial := Log(Run(sha, Race(first, second, before, false)), second.org);
            |serial| == 1 && LinkOk(sha, serial, 0)
    ensures var raced := Log(Run(sha, Race(first, second, before, true)), second.org);
            |raced| == 1 && (LinkOk(sha, raced, 0) <==> CalculateHash(sha, GENESIS_HASH, Hashed(first)) == GENESIS_HASH)
  {
    OpeningRuns(sha, first, second);
    RaceRuns(sha, first, second, before, false);
    RaceRuns(sha, first, second, before, true);
    ClosingLog(sha, first, second, before, false);
    ClosingLog(sha, first, second, before, true);
  }
}
