/** pkg/storage/postgres.go: which requests the rows of the audit log come from, and what they
    hold of them, over every schedule of `LogRequest` calls, rollbacks and retention runs. */
module LoggedRequests {
  import opened Strings
  import opened Chain
  import opened AuditLog
  import opened LogProtocol

  /** The state after the first `n` actions. */
  function At(sha: string -> string, schedule: seq<Action>, n: nat): State
    requires n <= |schedule|
  {
    Run(sha, schedule[..n])
  }

  lemma NextAt(sha: string -> string, schedule: seq<Action>, n: nat)
    requires n < |schedule|
    ensures At(sha, schedule, n + 1) == Step(sha, At(sha, schedule, n), schedule[n])
  {
    assert schedule[..n + 1] == schedule[..n] + [schedule[n]];
    RunNext(sha, schedule[..n], schedule[n]);
  }

  predicate IsIdle(sha: string -> string, schedule: seq<Action>, n: nat, w: nat)
    requires n <= |schedule|
  {
    PhaseOf(At(sha, schedule, n), w).Idle?
  }

  /** After `n` actions, writer `w` is in the transaction of the call that is action `b`. */
  ghost predicate InTransaction(sha: string -> string, schedule: seq<Action>, n: nat, w: nat, b: nat) {
    && b < n <= |schedule| && schedule[b].Begin? && schedule[b].w == w
    && IsIdle(sha, schedule, b, w)
    && forall i | b < i <= n :: !IsIdle(sha, schedule, i, w)
  }

  /** Action `c` commits the transaction of the call that is action `b`. */
  ghost predicate Commits(sha: string -> string, schedule: seq<Action>, b: nat, c: nat) {
    && c < |schedule| && schedule[c].Commit?
    && InTransaction(sha, schedule, c, schedule[c].w, b)
    && PhaseOf(At(sha, schedule, c), schedule[c].w).Inserted?
  }

  /** And the call was one of this organization. */
  ghost predicate CommitsFor(sha: string -> string, schedule: seq<Action>, b: nat, c: nat, org: int) {
    Commits(sha, schedule, b, c) && schedule[b].request.org == org
  }

  /** The row holds the request, field by field, with its time in whole microseconds. */
  predicate RowOf(row: Row, q: Request) {
    && row.org == q.org
    && row.data.micros == q.timestamp / 1000
    && row.data.userId == q.userId
    && row.data.requestId == q.requestId
    && row.data.verdict == q.verdict
    && row.data.threatDetails == q.threatDetails
    && row.data.riskScore == q.riskScore
  }

  /** What a writer carries of its request. */
  predicate Carries(ph: Phase, q: Request) {
    match ph
    case Idle => false
    case Begun(r) => Keeps(r, q)
    case Locked(r) => Keeps(r, q)
    case HasPrevious(r, _, _) => Keeps(r, q)
    case Inserted(row, _) => RowOf(row, q)
  }

  predicate Keeps(r: Request, q: Request) {
    r == q.(timestamp := Truncate(q.timestamp))
  }

  lemma TruncatedMicros(t: Instant)
    ensures UnixMicro(Truncate(t)) == t / 1000
    ensures forall m: Int64 | Stores(Truncate(t), m) :: m == t / 1000
  {
    StoredTimeIff(t);
  }

  // ---------- Every writer is in the transaction of one call ----------

  lemma {:induction false} WriterAsked(sha: string -> string, schedule: seq<Action>, n: nat, w: nat)
    returns (b: nat)
    requires n <= |schedule| && !IsIdle(sha, schedule, n, w)
    ensures InTransaction(sha, schedule, n, w, b) && Carries(PhaseOf(At(sha, schedule, n), w), schedule[b].request)
    decreases n
  {
    if n == 0 {
      b := 0;
      NobodyAtStart(sha, schedule, w);
    } else {
      NextAt(sha, schedule, n - 1);
      hide Step, Carries, At, Run;
      if IsIdle(sha, schedule, n - 1, w) {
        b := n - 1;
        Starts(sha, At(sha, schedule, n - 1), schedule[b], w);
      } else {
        b := WriterAsked(sha, schedule, n - 1, w);
        GoesOn(sha, At(sha, schedule, n - 1), schedule[n - 1], w, schedule[b].request);
      }
    }
  }

  lemma NobodyAtStart(sha: string -> string, schedule: seq<Action>, w: nat)
    ensures IsIdle(sha, schedule, 0, w)
  {
  }

  lemma Starts(sha: string -> string, s: State, a: Action, w: nat)
    requires PhaseOf(s, w).Idle? && !PhaseOf(Step(sha, s, a), w).Idle?
    ensures a.Begin? && a.w == w && Carries(PhaseOf(Step(sha, s, a), w), a.request)
  {
    hide CalculateHash, OrgRows, PreviousHash, ChainedOn, Stores, Hashed, NewRow;
  }

  lemma GoesOn(sha: string -> string, s: State, a: Action, w: nat, q: Request)
    requires Carries(PhaseOf(s, w), q) && !PhaseOf(Step(sha, s, a), w).Idle?
    ensures Carries(PhaseOf(Step(sha, s, a), w), q)
  {
    hide CalculateHash, OrgRows, PreviousHash, ChainedOn, Stores, Truncate, UnixMicro;
    TruncatedMicros(q.timestamp);
  }

  /** A transaction has one call and one commit. */
  lemma OneCall(sha: string -> string, schedule: seq<Action>, b: nat, b': nat, c: nat)
    requires Commits(sha, schedule, b, c) && Commits(sha, schedule, b', c)
    ensures b == b'
  {
    hide IsIdle, PhaseOf;
  }

  lemma OneCommit(sha: string -> string, schedule: seq<Action>, b: nat, c: nat, c': nat)
    requires Commits(sha, schedule, b, c) && Commits(sha, schedule, b, c')
    ensures c == c'
  {
    CommitEnds(sha, schedule, b, c);
    CommitEnds(sha, schedule, b, c');
    hide IsIdle, PhaseOf;
  }

  lemma CommitEnds(sha: string -> string, schedule: seq<Action>, b: nat, c: nat)
    requires Commits(sha, schedule, b, c)
    ensures IsIdle(sha, schedule, c + 1, schedule[c].w)
  {
    NextAt(sha, schedule, c);
    EndsIdle(sha, At(sha, schedule, c), schedule[c].w);
  }

  lemma EndsIdle(sha: string -> string, s: State, w: nat)
    requires PhaseOf(s, w).Inserted?
    ensures PhaseOf(Step(sha, s, Commit(w)), w).Idle?
  {
  }

  // ---------- What a commit adds ----------

  /** A committing writer adds one row to its organization's log, at the end: its own request;
      and nothing to any other log. */
  lemma CommitAddsRequest(sha: string -> string, schedule: seq<Action>, w: nat, org: int) returns (b: nat, row: Row)
    requires FixedLength(sha) && PhaseOf(Run(sha, schedule), w).Inserted?
    ensures Commits(sha, schedule + [Commit(w)], b, |schedule|)
    ensures schedule[b].Begin? && schedule[b].w == w && RowOf(row, schedule[b].request)
    ensures Log(Run(sha, schedule + [Commit(w)]), org)
         == Log(Run(sha, schedule), org) + if schedule[b].request.org == org then [row] else []
  {
    var n, all := |schedule|, schedule + [Commit(w)];
    assert all[..n] == schedule;
    b := WriterAsked(sha, all, n, w);
    row := PhaseOf(Run(sha, schedule), w).row;
    RunInv(sha, schedule);
    RunNext(sha, schedule, Commit(w));
    LogAfter(sha, Run(sha, schedule), Commit(w), org);
  }

  /** No other step adds a row: without a commit a log stays, or loses rows to retention. */
  lemma OnlyCommitsAdd(sha: string -> string, schedule: seq<Action>, a: Action, org: int) returns (idx: seq<nat>)
    requires FixedLength(sha)
    requires !(a.Commit? && PhaseOf(Run(sha, schedule), a.w).Inserted?)
    ensures Selects(Log(Run(sha, schedule), org), idx, Log(Run(sha, schedule + [a]), org))
    ensures !a.DeleteOld? || a.org != org ==> Log(Run(sha, schedule + [a]), org) == Log(Run(sha, schedule), org)
  {
    var s := Run(sha, schedule);
    RunInv(sha, schedule);
    RunNext(sha, schedule, a);
    if a.DeleteOld? {
      idx := AfterDelete(sha, s, a, org);
      if a.org != org {
        RetentionIsScoped(sha, schedule, a.org, a.before, org);
      }
    } else {
      LogAfter(sha, s, a, org);
      idx := All(Log(s, org));
    }
  }

  lemma All(rows: seq<Row>) returns (idx: seq<nat>)
    ensures Selects(rows, idx, rows)
  {
    idx := seq(|rows|, i requires 0 <= i < |rows| => i);
    assert Survivors(rows, idx) == rows;
  }

  lemma AfterDelete(sha: string -> string, s: State, a: Action, org: int) returns (idx: seq<nat>)
    requires a.DeleteOld?
    ensures Selects(Log(s, org), idx, Log(Step(sha, s, a), org))
  {
    var s' := Step(sha, s, a);
    if a.org == org {
      idx := SubLog(s.table, s'.table, org, s.nextId, a.before);
    } else {
      SameLog(s.table, s'.table, org, s.nextId);
      idx := All(Log(s, org));
    }
  }

  // ---------- Where the rows of a log come from ----------

  /** Row `k` of the log is the request of call `begins[k]`, committed by action `commits[k]`. */
  ghost predicate ComesFrom(sha: string -> string, schedule: seq<Action>, rows: seq<Row>, begins: seq<nat>,
        commits: seq<nat>) {
    && |begins| == |commits| == |rows|
    && (forall k | 0 <= k < |rows| :: RowFrom(sha, schedule, rows[k], begins[k], commits[k]))
    && (forall j, k | 0 <= j < k < |rows| :: commits[j] < commits[k])
  }

  ghost predicate RowFrom(sha: string -> string, schedule: seq<Action>, row: Row, b: nat, c: nat) {
    Commits(sha, schedule, b, c) && RowOf(row, schedule[b].request)
  }

  lemma CommitsLater(sha: string -> string, schedule: seq<Action>, a: Action, b: nat, c: nat)
    requires c < |schedule|
    ensures Commits(sha, schedule + [a], b, c) <==> Commits(sha, schedule, b, c)
    ensures b < c ==> (schedule + [a])[b] == schedule[b]
  {
    hide PhaseOf, Run;
    var all, w := schedule + [a], if schedule[c].Commit? then schedule[c].w else 0;
    assert forall i | 0 <= i < |schedule| :: all[i] == schedule[i];
    forall i | 0 <= i <= |schedule|
      ensures At(sha, all, i) == At(sha, schedule, i) && IsIdle(sha, all, i, w) == IsIdle(sha, schedule, i, w)
    {
      assert all[..i] == schedule[..i];
    }
    hide At, IsIdle;
    if b < c {
      assert InTransaction(sha, all, c, w, b) <==> InTransaction(sha, schedule, c, w, b);
    }
  }

  lemma RowFromLater(sha: string -> string, schedule: seq<Action>, a: Action, row: Row, b: nat, c: nat)
    requires RowFrom(sha, schedule, row, b, c)
    ensures RowFrom(sha, schedule + [a], row, b, c)
  {
    hide IsIdle, At;
    CommitsLater(sha, schedule, a, b, c);
  }

  /** The rows that stay come from where they came from. */
  lemma SelectedFrom(sha: string -> string, schedule: seq<Action>, rows: seq<Row>, idx: seq<nat>, left: seq<Row>,
        begins: seq<nat>, commits: seq<nat>)
    returns (begins': seq<nat>, commits': seq<nat>)
    requires ComesFrom(sha, schedule, rows, begins, commits) && Selects(rows, idx, left)
    ensures ComesFrom(sha, schedule, left, begins', commits')
    ensures left == rows ==> commits' == commits
  {
    begins' := seq(|idx|, k requires 0 <= k < |idx| => begins[idx[k]]);
    commits' := seq(|idx|, k requires 0 <= k < |idx| => commits[idx[k]]);
    hide RowFrom;
    if left == rows {
      AllInPlace(idx, |rows|);
    }
  }

  lemma AllInPlace(idx: seq<nat>, n: nat)
    requires Increasing(idx, n) && |idx| == n
    ensures forall k | 0 <= k < n :: idx[k] == k
  {
    forall k | 0 <= k < n
      ensures idx[k] == k
    {
      AtLeastIndex(idx, n, k);
      AtMostIndex(idx, n, k);
    }
  }

  lemma {:induction false} AtMostIndex(idx: seq<nat>, n: nat, k: nat)
    requires Increasing(idx, n) && |idx| == n && k < n
    ensures idx[k] <= k
    decreases n - k
  {
    if k + 1 < n {
      AtMostIndex(idx, n, k + 1);
    }
  }

  lemma FromLater(sha: string -> string, schedule: seq<Action>, a: Action, rows: seq<Row>, begins: seq<nat>,
        commits: seq<nat>)
    requires ComesFrom(sha, schedule, rows, begins, commits)
    ensures ComesFrom(sha, schedule + [a], rows, begins, commits)
  {
    hide RowFrom;
    forall k | 0 <= k < |rows|
      ensures RowFrom(sha, schedule + [a], rows[k], begins[k], commits[k])
    {
      RowFromLater(sha, schedule, a, rows[k], begins[k], commits[k]);
    }
  }

  lemma OneMoreRow(sha: string -> string, schedule: seq<Action>, rows: seq<Row>, begins: seq<nat>, commits: seq<nat>,
        row: Row, b: nat, c: nat)
    requires ComesFrom(sha, schedule, rows, begins, commits) && RowFrom(sha, schedule, row, b, c)
    requires forall k | 0 <= k < |commits| :: commits[k] < c
    ensures ComesFrom(sha, schedule, rows + [row], begins + [b], commits + [c])
  {
    hide RowFrom;
  }

  lemma Earlier(sha: string -> string, schedule: seq<Action>, rows: seq<Row>, begins: seq<nat>, commits: seq<nat>)
    requires ComesFrom(sha, schedule, rows, begins, commits)
    ensures forall k | 0 <= k < |commits| :: commits[k] < |schedule|
  {
    forall k | 0 <= k < |commits|
      ensures commits[k] < |schedule|
    {
      assert RowFrom(sha, schedule, rows[k], begins[k], commits[k]);
    }
  }

  /** All commits of the organization are among these. */
  ghost predicate AllCommits(sha: string -> string, schedule: seq<Action>, org: int, commits: seq<nat>) {
    forall b: nat, c: nat | CommitsFor(sha, schedule, b, c, org) :: c in commits
  }

  /** Whatever writers, rollbacks and retention runs do: the rows of an organization's log are
      requests of calls of that organization that were committed, in the order of the commits,
      field by field; no call gives two rows, and without deletions every commit gave one. */
  lemma {:induction false} RowsAreRequests(sha: string -> string, schedule: seq<Action>, org: int)
    returns (begins: seq<nat>, commits: seq<nat>)
    requires FixedLength(sha)
    ensures ComesFrom(sha, schedule, Log(Run(sha, schedule), org), begins, commits)
    ensures forall k | 0 <= k < |begins| :: CommitsFor(sha, schedule, begins[k], commits[k], org)
    ensures forall j, k | 0 <= j < k < |begins| :: begins[j] != begins[k]
    ensures NoDeletes(schedule) ==> AllCommits(sha, schedule, org, commits)
  {
    hide Run, Log, ComesFrom, Commits, NoDeletes, AllCommits, CommitsFor;
    if schedule == [] {
      begins, commits := NothingYet(sha, schedule, org);
    } else {
      var before, a := schedule[..|schedule| - 1], schedule[|schedule| - 1];
      assert schedule == before + [a];
      begins, commits := RowsAreRequests(sha, before, org);
      begins, commits := NextRows(sha, before, a, org, begins, commits);
    }
    CallsOfOrg(sha, schedule, org, begins, commits);
  }

  lemma NothingYet(sha: string -> string, schedule: seq<Action>, org: int)
    returns (begins: seq<nat>, commits: seq<nat>)
    requires schedule == []
    ensures ComesFrom(sha, schedule, Log(Run(sha, schedule), org), begins, commits)
    ensures AllCommits(sha, schedule, org, commits)
  {
    begins, commits := [], [];
  }

  lemma NextRows(sha: string -> string, schedule: seq<Action>, a: Action, org: int, begins: seq<nat>,
        commits: seq<nat>)
    returns (begins': seq<nat>, commits': seq<nat>)
    requires FixedLength(sha) && ComesFrom(sha, schedule, Log(Run(sha, schedule), org), begins, commits)
    requires NoDeletes(schedule) ==> AllCommits(sha, schedule, org, commits)
    ensures ComesFrom(sha, schedule + [a], Log(Run(sha, schedule + [a]), org), begins', commits')
    ensures NoDeletes(schedule + [a]) ==> AllCommits(sha, schedule + [a], org, commits')
  {
    hide Run, Log, ComesFrom, Commits, AllCommits, PhaseOf, NoDeletes, Selects;
    var rows := Log(Run(sha, schedule), org);
    FromLater(sha, schedule, a, rows, begins, commits);
    FewerDeletes(schedule, a);
    if a.Commit? && PhaseOf(Run(sha, schedule), a.w).Inserted? {
      begins', commits' := NextRow(sha, schedule, a, org, begins, commits);
    } else {
      var idx := OnlyCommitsAdd(sha, schedule, a, org);
      begins', commits' := SelectedFrom(sha, schedule + [a], rows, idx, Log(Run(sha, schedule + [a]), org), begins,
                                        commits);
      if NoDeletes(schedule + [a]) {
        NoNewCommit(sha, schedule, a, org, commits);
      }
    }
  }

  lemma NextRow(sha: string -> string, schedule: seq<Action>, a: Action, org: int, begins: seq<nat>,
        commits: seq<nat>)
    returns (begins': seq<nat>, commits': seq<nat>)
    requires FixedLength(sha) && a.Commit? && PhaseOf(Run(sha, schedule), a.w).Inserted?
    requires ComesFrom(sha, schedule, Log(Run(sha, schedule), org), begins, commits)
    requires ComesFrom(sha, schedule + [a], Log(Run(sha, schedule), org), begins, commits)
    ensures ComesFrom(sha, schedule + [a], Log(Run(sha, schedule + [a]), org), begins', commits')
    ensures AllCommits(sha, schedule, org, commits) ==> AllCommits(sha, schedule + [a], org, commits')
  {
    hide Run, Log, ComesFrom, Commits, AllCommits, PhaseOf, RowOf;
    var n, rows := |schedule|, Log(Run(sha, schedule), org);
    var b, row := CommitAddsRequest(sha, schedule, a.w, org);
    begins', commits' := begins, commits;
    CalledBy(sha, schedule + [a], b, n);
    if schedule[b].request.org == org {
      Earlier(sha, schedule, rows, begins, commits);
      OneMoreRow(sha, schedule + [a], rows, begins, commits, row, b, n);
      begins', commits' := begins + [b], commits + [n];
    } else {
      assert rows + [] == rows;
    }
    if AllCommits(sha, schedule, org, commits) {
      CommitIsAmong(sha, schedule, a, org, commits, commits', b);
    }
  }

  lemma FewerDeletes(schedule: seq<Action>, a: Action)
    ensures NoDeletes(schedule + [a]) <==> NoDeletes(schedule) && !a.DeleteOld?
  {
    var all := schedule + [a];
    assert all[|schedule|] == a && forall i | 0 <= i < |schedule| :: all[i] == schedule[i];
  }

  lemma CommitIsAmong(sha: string -> string, schedule: seq<Action>, a: Action, org: int, commits: seq<nat>,
        commits': seq<nat>, b: nat)
    requires AllCommits(sha, schedule, org, commits) && Commits(sha, schedule + [a], b, |schedule|)
    requires forall c | c in commits :: c in commits'
    requires CommitsFor(sha, schedule + [a], b, |schedule|, org) ==> |schedule| in commits'
    ensures AllCommits(sha, schedule + [a], org, commits')
  {
    forall b': nat, c: nat | CommitsFor(sha, schedule + [a], b', c, org)
      ensures c in commits'
    {
      AmongEarlier(sha, schedule, a, org, commits, b', c);
      if c == |schedule| {
        OneCall(sha, schedule + [a], b, b', c);
      }
    }
  }

  lemma AmongEarlier(sha: string -> string, schedule: seq<Action>, a: Action, org: int, commits: seq<nat>, b: nat,
        c: nat)
    requires AllCommits(sha, schedule, org, commits) && CommitsFor(sha, schedule + [a], b, c, org)
    ensures c in commits || c == |schedule|
  {
    hide At, IsIdle;
    if c < |schedule| {
      CommitsLater(sha, schedule, a, b, c);
      assert CommitsFor(sha, schedule, b, c, org);
    }
  }

  lemma NoNewCommit(sha: string -> string, schedule: seq<Action>, a: Action, org: int, commits: seq<nat>)
    requires AllCommits(sha, schedule, org, commits)
    requires !(a.Commit? && PhaseOf(Run(sha, schedule), a.w).Inserted?)
    ensures AllCommits(sha, schedule + [a], org, commits)
  {
    assert (schedule + [a])[..|schedule|] == schedule;
    hide Run, PhaseOf, InTransaction;
    forall b: nat, c: nat | CommitsFor(sha, schedule + [a], b, c, org)
      ensures c in commits
    {
      AmongEarlier(sha, schedule, a, org, commits, b, c);
    }
  }

  lemma CallsOfOrg(sha: string -> string, schedule: seq<Action>, org: int, begins: seq<nat>, commits: seq<nat>)
    requires FixedLength(sha) && ComesFrom(sha, schedule, Log(Run(sha, schedule), org), begins, commits)
    ensures forall k | 0 <= k < |begins| :: CommitsFor(sha, schedule, begins[k], commits[k], org)
    ensures forall j, k | 0 <= j < k < |begins| :: begins[j] != begins[k]
  {
    var rows := Log(Run(sha, schedule), org);
    OrgOfLog(sha, schedule, org);
    hide Run, Log, Commits;
    forall k | 0 <= k < |begins|
      ensures CommitsFor(sha, schedule, begins[k], commits[k], org)
    {
      assert RowFrom(sha, schedule, rows[k], begins[k], commits[k]);
    }
    forall j, k | 0 <= j < k < |begins|
      ensures begins[j] != begins[k]
    {
      assert RowFrom(sha, schedule, rows[j], begins[j], commits[j]);
      assert RowFrom(sha, schedule, rows[k], begins[k], commits[k]);
      if begins[j] == begins[k] {
        OneCommit(sha, schedule, begins[j], commits[j], commits[k]);
      }
    }
  }

  lemma CalledBy(sha: string -> string, schedule: seq<Action>, b: nat, c: nat)
    requires Commits(sha, schedule, b, c)
    ensures b < c < |schedule| && schedule[b].Begin? && schedule[c].Commit? && schedule[c].w == schedule[b].w
  {
  }

  lemma OrgOfLog(sha: string -> string, schedule: seq<Action>, org: int)
    requires FixedLength(sha)
    ensures forall k | 0 <= k < |Log(Run(sha, schedule), org)| :: Log(Run(sha, schedule), org)[k].org == org
  {
    var s := Run(sha, schedule);
    RunInv(sha, schedule);
    forall id | id in s.table
      ensures s.table[id].id == id
    {
      assert RowInv(sha, s, id);
    }
    LogRows(s.table, org, s.nextId);
  }
}
