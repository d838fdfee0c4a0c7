/** pkg/security/anomaly.go: repeated high-risk requests lock a user out for an hour.
    Times are milliseconds. */
module Anomaly {
  import opened Strings
  import opened Redis

  const WINDOW := 600_000      // 10 minutes
  const LOCKOUT := 3_600_000   // 1 hour
  const HIGH_RISK := 70
  const MAX_EVENTS := 5

  function RiskKey(userId: string): string {
    "user:" + userId + ":risk_events:10m"
  }

  function UsageKey(userId: string): string {
    "user:" + userId + ":req:1h"
  }

  function AfterRisk(db: Db, userId: string, riskScore: int, now: int): Db {
    if riskScore < HIGH_RISK then db
    else
      var counted := AfterIncr(db, RiskKey(userId), WINDOW, now);
      if CounterAfter(db, RiskKey(userId), now) > MAX_EVENTS then
        AfterSet(counted, BlockedKey(userId), "BLOCKED", LOCKOUT, now)
      else counted
  }

  predicate Locked(db: Db, userId: string, now: int) {
    GetText(db, BlockedKey(userId), now) == "BLOCKED"
  }

  class AnomalyDetector {
    const cache: Client

    constructor (cache: Client)
      ensures this.cache == cache
    {
      this.cache := cache;
    }

    method CheckAccess(userId: string, now: int) returns (allowed: bool)
      ensures allowed == !Locked(cache.db, userId, now)
    {
      var blocked := cache.IsBlocked(userId, now);
      return !blocked;
    }

    method TrackRisk(userId: string, riskScore: int, now: int)
      modifies cache
      ensures cache.db == AfterRisk(old(cache.db), userId, riskScore, now)
    {
      if riskScore < HIGH_RISK {
        return;
      }
      var count := cache.Incr(RiskKey(userId), WINDOW, now);
      if count > MAX_EVENTS {
        cache.BlockUser(userId, LOCKOUT, now);
      }
    }

    method TrackUsage(userId: string, now: int)
      modifies cache
      ensures cache.db == AfterIncr(old(cache.db), UsageKey(userId), LOCKOUT, now)
    {
      var reqCount := cache.Incr(UsageKey(userId), LOCKOUT, now);
    }
  }

  // ---------- Runs ----------

  /** Risk and usage tracking for any users, and whatever else the server does to the store. */
  datatype Event =
    | Risk(userId: string, score: int, at: int)
    | Usage(userId: string, at: int)
    | Other(key: string, entry: Entry, at: int)
    | Drop(key: string, at: int)
    | Purge(orgId: int, at: int)

  predicate EventOk(e: Event) {
    match e
    case Other(key, _, _) => !("user:" <= key)
    case Drop(key, _) => !("user:" <= key)
    case _ => true
  }

  ghost predicate IsRun(events: seq<Event>) {
    && (forall i | 0 <= i < |events| :: EventOk(events[i]))
    && (forall i, j | 0 <= i < j < |events| :: events[i].at <= events[j].at)
  }

  function AfterEvent(db: Db, e: Event): Db {
    match e
    case Risk(u, score, at) => AfterRisk(db, u, score, at)
    case Usage(u, at) => AfterIncr(db, UsageKey(u), LOCKOUT, at)
    case Other(key, entry, _) => db[key := entry]
    case Drop(key, _) => db - {key}
    case Purge(orgId, _) => AfterInvalidate(db, orgId)
  }

  function After(events: seq<Event>): Db {
    if events == [] then map[] else AfterEvent(After(events[..|events| - 1]), events[|events| - 1])
  }

  predicate IsHigh(e: Event, userId: string) {
    e.Risk? && e.userId == userId && e.score >= HIGH_RISK
  }

  /** When the user's high-risk events happened. */
  function HighTimes(events: seq<Event>, userId: string): seq<int> {
    if events == [] then []
    else
      var e := events[|events| - 1];
      HighTimes(events[..|events| - 1], userId) + (if IsHigh(e, userId) then [e.at] else [])
  }

  /** The number of events in the run of small gaps that the last one ends. */
  function Streak(times: seq<int>): nat {
    if times == [] then 0
    else
      var n := |times| - 1;
      1 + if n > 0 && times[n] - times[n - 1] < WINDOW then Streak(times[..n]) else 0
  }

  /** Event `j` ends six events with every gap under ten minutes. */
  ghost predicate EndsSix(times: seq<int>, j: nat) {
    MAX_EVENTS <= j < |times| && forall k | j - MAX_EVENTS < k <= j :: times[k] - times[k - 1] < WINDOW
  }

  /** Event `j` locks the user out until after `now`. */
  ghost predicate LocksAt(times: seq<int>, j: nat, now: int) {
    EndsSix(times, j) && now < times[j] + LOCKOUT
  }

  lemma {:induction false} StreakMeans(times: seq<int>, m: nat)
    requires m >= 1
    ensures Streak(times) >= m <==> |times| >= m && forall k | |times| - m < k < |times| ::
        times[k] - times[k - 1] < WINDOW
  {
    var n := |times| - 1;
    if m > 1 && n > 0 {
      StreakMeans(times[..n], m - 1);
      if times[n] - times[n - 1] < WINDOW && n >= m - 1 {
        assert forall k | n - (m - 1) < k < n :: times[..n][k] - times[..n][k - 1] == times[k] - times[k - 1];
      }
    }
  }

  /** The keys of one user, and of different users, never coincide. */
  lemma UserKeys(u: string, v: string)
    ensures RiskKey(u) != BlockedKey(v) && RiskKey(u) != UsageKey(v) && BlockedKey(u) != UsageKey(v)
    ensures RiskKey(u) == RiskKey(v) ==> u == v
    ensures BlockedKey(u) == BlockedKey(v) ==> u == v
    ensures "user:" <= RiskKey(u) && "user:" <= BlockedKey(u) && "user:" <= UsageKey(u)
  {
    var r, b, g := RiskKey(u), BlockedKey(v), UsageKey(v);
    assert r[|r| - 1] == 'm' && b[|b| - 1] == 'd' && g[|g| - 1] == 'h';
    assert BlockedKey(u)[|BlockedKey(u)| - 1] == 'd';
    assert r[5..|r| - 16] == u && RiskKey(v)[5..|RiskKey(v)| - 16] == v;
    if BlockedKey(u) == BlockedKey(v) {
      BlockedKeyInjective(u, v);
    }
  }

  /** The counter is the streak, and lives ten minutes from the last high-risk event. */
  ghost predicate CountsStreak(db: Db, userId: string, times: seq<int>) {
    if times == [] then RiskKey(userId) !in db
    else RiskKey(userId) in db && db[RiskKey(userId)] == Entry(Counter(Streak(times)), times[|times| - 1] + WINDOW)
  }

  /** The lock is set by the last event that ended a streak of six, and lives an hour from it. */
  ghost predicate LockedBy(db: Db, userId: string, times: seq<int>) {
    if exists j: nat :: EndsSix(times, j) then
      exists j: nat :: IsLastSix(times, j) && j < |times| && BlockedKey(userId) in db
                       && db[BlockedKey(userId)] == Entry(Text("BLOCKED"), times[j] + LOCKOUT)
    else BlockedKey(userId) !in db
  }

  ghost predicate IsLastSix(times: seq<int>, j: nat) {
    EndsSix(times, j) && forall k: nat :: EndsSix(times, k) ==> k <= j
  }

  lemma {:induction false} RunState(events: seq<Event>, userId: string)
    requires IsRun(events)
    ensures CountsStreak(After(events), userId, HighTimes(events, userId))
    ensures LockedBy(After(events), userId, HighTimes(events, userId))
  {
    if events != [] {
      var n := |events| - 1;
      var e := events[n];
      RunState(events[..n], userId);
      assert EventOk(e);
      if IsHigh(e, userId) {
        HighStep(After(events[..n]), userId, HighTimes(events[..n], userId), e);
      } else {
        OtherStep(After(events[..n]), userId, e);
        SameTimes(events, userId);
        SameKeys(After(events[..n]), After(events), userId, HighTimes(events, userId));
      }
    }
  }

  lemma SameTimes(events: seq<Event>, userId: string)
    requires events != [] && !IsHigh(events[|events| - 1], userId)
    ensures HighTimes(events, userId) == HighTimes(events[..|events| - 1], userId)
  {
  }

  lemma SameKeys(db: Db, db': Db, userId: string, times: seq<int>)
    requires forall key | key == RiskKey(userId) || key == BlockedKey(userId) ::
               (key in db' <==> key in db) && (key in db ==> db'[key] == db[key])
    requires CountsStreak(db, userId, times) && LockedBy(db, userId, times)
    ensures CountsStreak(db', userId, times) && LockedBy(db', userId, times)
  {
  }

  /** Every other event leaves the user's two keys alone. */
  lemma OtherStep(db: Db, userId: string, e: Event)
    requires EventOk(e) && !IsHigh(e, userId)
    ensures forall key | key == RiskKey(userId) || key == BlockedKey(userId) ::
              (key in AfterEvent(db, e) <==> key in db) && (key in db ==> AfterEvent(db, e)[key] == db[key])
  {
    UserKeys(userId, userId);
    if e.Risk? || e.Usage? {
      UserKeys(userId, e.userId);
      UserKeys(e.userId, userId);
    } else if e.Purge? {
      assert RiskKey(userId)[0] == 'u' && BlockedKey(userId)[0] == 'u' && OrgPrefix(e.orgId)[0] == 'o';
    }
  }

  lemma HighStep(db: Db, userId: string, times: seq<int>, e: Event)
    requires IsHigh(e, userId)
    requires CountsStreak(db, userId, times) && LockedBy(db, userId, times)
    ensures CountsStreak(AfterEvent(db, e), userId, times + [e.at])
    ensures LockedBy(AfterEvent(db, e), userId, times + [e.at])
  {
    HighCounts(db, userId, times, e);
    hide CountsStreak, AfterEvent, Streak;
    if EndsSix(times + [e.at], |times|) {
      NewLock(AfterEvent(db, e), userId, times, e.at);
    } else {
      OldLock(db, AfterEvent(db, e), userId, times, e.at);
    }
  }

  /** The counter goes on, and the lock is set at the sixth event of a streak, untouched before. */
  lemma HighCounts(db: Db, userId: string, times: seq<int>, e: Event)
    requires IsHigh(e, userId) && CountsStreak(db, userId, times)
    ensures CountsStreak(AfterEvent(db, e), userId, times + [e.at])
    ensures var db', key := AfterEvent(db, e), BlockedKey(userId);
            if EndsSix(times + [e.at], |times|) then key in db' && db'[key] == Entry(Text("BLOCKED"), e.at + LOCKOUT)
            else (key in db' <==> key in db) && (key in db ==> db'[key] == db[key])
  {
    var times', n := times + [e.at], |times|;
    UserKeys(userId, userId);
    assert times'[..n] == times;
    SixMeans(times, e.at);
    hide RiskKey, BlockedKey, EndsSix;
    assert CounterAfter(db, RiskKey(userId), e.at) == Streak(times');
  }

  lemma SixMeans(times: seq<int>, at: int)
    ensures EndsSix(times + [at], |times|) <==> Streak(times + [at]) > MAX_EVENTS
  {
    StreakMeans(times + [at], MAX_EVENTS + 1);
  }

  lemma NewLock(db: Db, userId: string, times: seq<int>, at: int)
    requires EndsSix(times + [at], |times|)
    requires BlockedKey(userId) in db && db[BlockedKey(userId)] == Entry(Text("BLOCKED"), at + LOCKOUT)
    ensures LockedBy(db, userId, times + [at])
  {
    SixesBefore(times, at);
    hide EndsSix, BlockedKey;
    assert IsLastSix(times + [at], |times|);
  }

  lemma OldLock(db: Db, db': Db, userId: string, times: seq<int>, at: int)
    requires !EndsSix(times + [at], |times|) && LockedBy(db, userId, times)
    requires BlockedKey(userId) in db' <==> BlockedKey(userId) in db
    requires BlockedKey(userId) in db ==> db'[BlockedKey(userId)] == db[BlockedKey(userId)]
    ensures LockedBy(db', userId, times + [at])
  {
    SixesBefore(times, at);
    hide EndsSix, BlockedKey;
    var times' := times + [at];
    if j: nat :| IsLastSix(times, j) && j < |times| && BlockedKey(userId) in db
                 && db[BlockedKey(userId)] == Entry(Text("BLOCKED"), times[j] + LOCKOUT) {
      assert times'[j] == times[j] && IsLastSix(times', j);
    }
  }

  /** A new event ends a streak or not; the earlier ones stay what they were. */
  lemma SixesBefore(times: seq<int>, at: int)
    ensures forall j: nat | j < |times| :: EndsSix(times + [at], j) <==> EndsSix(times, j)
    ensures forall j: nat | EndsSix(times + [at], j) :: j <= |times|
    ensures forall j: nat | EndsSix(times, j) :: j < |times|
  {
    var times' := times + [at];
    forall j: nat | j < |times|
      ensures EndsSix(times', j) <==> EndsSix(times, j)
    {
      assert forall k | 0 <= k <= j :: times'[k] == times[k];
    }
  }

  /** Times of one user's events are in order. */
  lemma {:induction false} TimesOrdered(events: seq<Event>, userId: string, now: int)
    requires forall i, j | 0 <= i < j < |events| :: events[i].at <= events[j].at
    requires forall i | 0 <= i < |events| :: events[i].at <= now
    ensures forall i, j | 0 <= i <= j < |HighTimes(events, userId)| ::
        HighTimes(events, userId)[i] <= HighTimes(events, userId)[j]
    ensures forall i | 0 <= i < |HighTimes(events, userId)| :: HighTimes(events, userId)[i] <= now
  {
    if events != [] {
      TimesOrdered(events[..|events| - 1], userId, events[|events| - 1].at);
    }
  }

  lemma RunOrdered(events: seq<Event>, userId: string)
    requires IsRun(events)
    ensures forall i, j | 0 <= i <= j < |HighTimes(events, userId)| ::
        HighTimes(events, userId)[i] <= HighTimes(events, userId)[j]
  {
    if events != [] {
      TimesOrdered(events, userId, events[|events| - 1].at);
    }
  }

  /** The lock in force is that of the latest streak, which outlasts the earlier ones. */
  lemma LatestLock(events: seq<Event>, userId: string, now: int, k: nat) returns (j: nat)
    requires IsRun(events) && EndsSix(HighTimes(events, userId), k)
    ensures EndsSix(HighTimes(events, userId), j) && HighTimes(events, userId)[k] <= HighTimes(events, userId)[j]
    ensures Locked(After(events), userId, now) <==> now < HighTimes(events, userId)[j] + LOCKOUT
  {
    hide After, CountsStreak;
    var db, times := After(events), HighTimes(events, userId);
    RunState(events, userId);
    RunOrdered(events, userId);
    j :| IsLastSix(times, j) && j < |times| && BlockedKey(userId) in db
         && db[BlockedKey(userId)] == Entry(Text("BLOCKED"), times[j] + LOCKOUT);
    assert k <= j;
  }

  /** When a user is locked out: exactly when some high-risk event of the last hour ended a
      run of at least six, each less than ten minutes after the one before it. */
  lemma LockedIff(events: seq<Event>, userId: string, now: int)
    requires IsRun(events)
    ensures Locked(After(events), userId, now) <==> exists j: nat :: LocksAt(HighTimes(events, userId), j, now)
  {
    hide After, CountsStreak;
    var times := HighTimes(events, userId);
    RunState(events, userId);
    if k: nat :| EndsSix(times, k) {
      var j := LatestLock(events, userId, now, k);
      assert Locked(After(events), userId, now) ==> LocksAt(times, j, now);
    }
    forall k: nat | LocksAt(times, k, now)
      ensures Locked(After(events), userId, now)
    {
      var j := LatestLock(events, userId, now, k);
    }
  }

  /** Six high-risk events within ten minutes always lock the user, for an hour from the last. */
  lemma SixInTenMinutesLock(events: seq<Event>, userId: string, j: nat, now: int)
    requires IsRun(events)
    requires MAX_EVENTS <= j < |HighTimes(events, userId)|
    requires HighTimes(events, userId)[j] - HighTimes(events, userId)[j - MAX_EVENTS] < WINDOW
    requires now < HighTimes(events, userId)[j] + LOCKOUT
    ensures Locked(After(events), userId, now)
  {
    RunOrdered(events, userId);
    var times := HighTimes(events, userId);
    forall k | j - MAX_EVENTS < k <= j
      ensures times[k] - times[k - 1] < WINDOW
    {
      assert times[j - MAX_EVENTS] <= times[k - 1] && times[k] <= times[j];
    }
    assert LocksAt(times, j, now);
    LockedIff(events, userId, now);
  }

  /** The window is not ten minutes long: every event renews it, so six events nine minutes
      apart, 45 minutes in all, lock the user as well. */
  lemma RenewedWindowLocks(userId: string)
    ensures var events := [Risk(userId, 70, 0), Risk(userId, 70, 540_000), Risk(userId, 70, 1_080_000),
                           Risk(userId, 70, 1_620_000), Risk(userId, 70, 2_160_000), Risk(userId, 70, 2_700_000)];
            IsRun(events) && Locked(After(events), userId, 2_700_000)
  {
    var events := [Risk(userId, 70, 0), Risk(userId, 70, 540_000), Risk(userId, 70, 1_080_000),
                   Risk(userId, 70, 1_620_000), Risk(userId, 70, 2_160_000), Risk(userId, 70, 2_700_000)];
    AllHigh(events, userId);
    assert LocksAt(HighTimes(events, userId), 5, 2_700_000);
    LockedIff(events, userId, 2_700_000);
  }

  lemma {:induction false} AllHigh(events: seq<Event>, userId: string)
    requires forall i | 0 <= i < |events| :: IsHigh(events[i], userId)
    ensures |HighTimes(events, userId)| == |events|
    ensures forall i | 0 <= i < |events| :: HighTimes(events, userId)[i] == events[i].at
  {
    if events != [] {
      AllHigh(events[..|events| - 1], userId);
    }
  }

  // ---------- The thresholds, in numbers ----------

  /** Scores of up to 69 never lock anybody out. */
  lemma LowScoresNeverLock(events: seq<Event>, userId: string, now: int)
    requires IsRun(events)
    requires forall i | 0 <= i < |events| :: events[i].Risk? && events[i].userId == userId ==> events[i].score <= 69
    ensures !Locked(After(events), userId, now)
  {
    hide After;
    NoHighTimes(events, userId);
    LockedIff(events, userId, now);
  }

  lemma {:induction false} NoHighTimes(events: seq<Event>, userId: string)
    requires forall i | 0 <= i < |events| :: !IsHigh(events[i], userId)
    ensures HighTimes(events, userId) == []
  {
    if events != [] {
      NoHighTimes(events[..|events| - 1], userId);
    }
  }

  /** The first five high-risk events never do. */
  lemma FiveNeverLock(events: seq<Event>, userId: string, now: int)
    requires IsRun(events) && |HighTimes(events, userId)| <= 5
    ensures !Locked(After(events), userId, now)
  {
    hide After;
    LockedIff(events, userId, now);
  }

  /** A gap of ten minutes starts the count anew: five events on either side of it never do. */
  lemma GapStartsAnew(events: seq<Event>, userId: string, p: nat, now: int)
    requires IsRun(events)
    requires 0 < p < |HighTimes(events, userId)| && p <= 5 && |HighTimes(events, userId)| - p <= 5
    requires HighTimes(events, userId)[p] - HighTimes(events, userId)[p - 1] >= 600_000
    ensures !Locked(After(events), userId, now)
  {
    hide After;
    LockedIff(events, userId, now);
  }

  /** Gaps of a millisecond less do not: six scores of 70 lock, for one hour from the last. */
  lemma SixLockForAnHour(events: seq<Event>, userId: string, now: int)
    requires IsRun(events) && |events| == 6
    requires forall i | 0 <= i < 6 :: events[i].Risk? && events[i].userId == userId && events[i].score >= 70
    requires forall i | 0 < i < 6 :: events[i].at - events[i - 1].at <= 599_999
    ensures Locked(After(events), userId, now) <==> now < events[5].at + 3_600_000
  {
    hide After;
    var times := HighTimes(events, userId);
    AllHigh(events, userId);
    LockedIff(events, userId, now);
    forall k | 0 < k <= 5
      ensures times[k] - times[k - 1] < WINDOW
    {
      assert events[k].at - events[k - 1].at <= 599_999;
    }
    assert EndsSix(times, 5) && forall j: nat | EndsSix(times, j) :: j == 5;
    assert LocksAt(times, 5, now) <==> now < events[5].at + 3_600_000;
  }
}
