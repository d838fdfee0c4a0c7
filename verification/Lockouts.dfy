/** pkg/proxy/handler.go with pkg/security/anomaly.go, from the outside: who is turned away, in
    scores, minutes and hours; what is counted; and how an organization without settings is judged. */
module Lockouts {
  import opened Strings
  import opened Redis
  import opened Policy
  import opened Anomaly
  import opened Gateway
  import opened Verdicts

  /** A scanned request is refused by the policy with 70 points or more for the record. */
  ghost predicate IsHighRefusal(st: State, r: Request) {
    && Scanned(st, r) && OutcomeOf(st, r).Blocked?
    && exists score | score >= 70 :: RecordedWith(st, r.(logged := true), score)
  }

  /** When that happened to a user. */
  ghost function HighRefusals(events: seq<Gateway.Event>, userId: string): seq<int> {
    if events == [] then []
    else
      var before, e := events[..|events| - 1], events[|events| - 1];
      HighRefusals(before, userId)
      + if e.Serve? && e.r.userId == userId && IsHighRefusal(StateAfter(before), e.r) then [e.r.at] else []
  }

  lemma HighIsCounted(st: State, r: Request)
    ensures IsHighRefusal(st, r) <==> CountedRefusal(st, Serve(r), r.userId)
  {
    var r' := r.(logged := true);
    var cfg := PolicyFor(st, r);
    hide Decision, ReasonFor, Mentions, Score, Gather, RecordedWith, LockedOut, CachedText, PolicyOf;
    if Scanned(st, r) {
      FreshAnswer(st, r);
      FreshBlocks(cfg, r);
      SameScan(st, cfg, r, r');
      RecordOfScan(st, r');
      SameScan(st, cfg, r, r');
      forall score | RecordedWith(st, r', score)
        ensures score == TotalRisk(cfg, r)
      {
        OneScore(st, r', score, TotalRisk(cfg, r));
      }
    }
  }

  lemma SameScan(st: State, cfg: Gateway.Config, r: Request, r': Request)
    requires r' == r.(logged := true)
    ensures (Scanned(st, r') <==> Scanned(st, r)) && Gather(cfg, r') == Gather(cfg, r)
  {
  }

  lemma {:induction false} HighTimesAre(events: seq<Gateway.Event>, userId: string)
    ensures HighRefusals(events, userId) == RefusalTimes(events, userId)
  {
    hide IsHighRefusal, CountedRefusal, StateAfter;
    if events != [] {
      var before, e := events[..|events| - 1], events[|events| - 1];
      HighTimesAre(before, userId);
      CountedIsServe(StateAfter(before), e, userId);
      if e.Serve? {
        HighIsCounted(StateAfter(before), e.r);
      }
    }
  }

  lemma CountedIsServe(st: State, e: Gateway.Event, userId: string)
    ensures CountedRefusal(st, e, userId)
       <==> e.Serve? && e.r.userId == userId && CountedRefusal(st, Serve(e.r), e.r.userId)
  {
    hide Scanned, Decision, TotalRisk, PolicyOf;
  }

  /** Refusal `j` is the sixth of six that came less than ten minutes apart, less than an hour ago. */
  ghost predicate SixthWithinHour(times: seq<int>, j: nat, now: int) {
    && 5 <= j < |times| && now < times[j] + 3_600_000
    && times[j] - times[j - 1] < 600_000 && times[j - 1] - times[j - 2] < 600_000
    && times[j - 2] - times[j - 3] < 600_000 && times[j - 3] - times[j - 4] < 600_000
    && times[j - 4] - times[j - 5] < 600_000
  }

  /** Over every run of the handler: exactly who is turned away. */
  lemma TurnedAwayIff(events: seq<Gateway.Event>, r: Request)
    requires Gateway.IsRun(events)
    ensures OutcomeOf(StateAfter(events), r) == Refused
       <==> && PolicyFor(StateAfter(events), r).anomalyDetection
            && exists j: nat :: SixthWithinHour(HighRefusals(events, r.userId), j, r.at)
  {
    hide StateAfter, OutcomeOf, PolicyOf, HighRefusals, RefusalTimes, LocksAt, SixthWithinHour;
    HighTimesAre(events, r.userId);
    RefusedIff(events, r);
    forall j: nat
      ensures SixthWithinHour(HighRefusals(events, r.userId), j, r.at)
         <==> LocksAt(RefusalTimes(events, r.userId), j, r.at)
    {
      SixthIs(RefusalTimes(events, r.userId), j, r.at);
    }
  }

  lemma SixthIs(times: seq<int>, j: nat, now: int)
    ensures SixthWithinHour(times, j, now) <==> LocksAt(times, j, now)
  {
    if LocksAt(times, j, now) {
      assert forall k | j - 5 < k <= j :: times[k] - times[k - 1] < 600_000;
    }
  }

  /** A forwarded request is counted, for an hour from the last one, while detection is on. */
  lemma ForwardedIsCounted(st: State, r: Request)
    requires Scanned(st, r) && OutcomeOf(st, r).Forwarded?
    ensures var key := "user:" + r.userId + ":req:1h";
            var db, db' := st.db, AfterRequest(st, r).db;
            if !PolicyFor(st, r).anomalyDetection then SameAt(db, db', key)
            else
              && key in db' && db'[key].expiresAt == r.at + 3_600_000
              && (!(key in db && r.at < db[key].expiresAt) ==> db'[key].value == Counter(1))
              && (forall n | key in db && r.at < db[key].expiresAt && db[key].value == Counter(n) ::
                    db'[key].value == Counter(n + 1))
  {
    assert "user:" + r.userId + ":req:1h" == UsageKey(r.userId);
    OwnKeys(r.org, r.hash, r.userId);
    FreshAnswer(st, r);
    FreshBlocks(PolicyFor(st, r), r);
    hide Decision, OrgKey, UsageKey, ActionText, LockedOut, CachedText, OutcomeOf, FreshOutcome;
  }

  /** An organization that has set nothing is judged by every detector, at MEDIUM. */
  lemma NothingSet(st: State, r: Request)
    ensures r.org !in st.policies ==> PolicyFor(st, r) == Config("MEDIUM", true, true, true, true)
    ensures r.org in st.policies && st.policies[r.org].sensitivity == "" ==>
              PolicyFor(st, r) == st.policies[r.org].(sensitivity := "MEDIUM")
  {
  }
}
