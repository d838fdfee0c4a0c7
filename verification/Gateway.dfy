/** pkg/proxy/handler.go, the decision path: lockout check, verdict cache, policy decision,
    audit record, cached verdict; and pkg/api/admin.go, the policy update.  A request and an
    update are atomic steps.  The detectors' findings come with the request; times are
    milliseconds. */
module Gateway {
  import opened Strings
  import opened Redis
  import opened Policy
  import opened Anomaly

  const TTL := 3_600_000   // 1 hour

  /** The settings the decision depends on. */
  datatype Config = Config(
    sensitivity: string,
    promptInjection: bool,
    vectorGuard: bool,
    promptLeaking: bool,
    anomalyDetection: bool)

  const DEFAULT := Config(MEDIUM, true, true, true, true)

  /** What the detectors say about a body; `mapping` holds the placeholders of the redactions. */
  datatype Signals = Signals(
    injection: real,
    vectorBlocked: bool,
    vectorScore: real,
    vectorReason: string,
    outOfDomain: bool,
    leaked: bool,
    leakReason: string,
    mapping: set<string>)

  datatype Request = Request(
    org: int,
    userId: string,
    hash: string,
    obfuscated: bool,
    body: string,
    sanitizedBody: string,
    signals: Signals,
    details: string,   // the encrypted redactions, for the log
    logged: bool,      // LogRequest commits; it returns nothing when it does not
    at: int)

  datatype Record = Record(
    org: int,
    userId: string,
    hash: string,
    action: Action,
    riskScore: int,
    details: string,
    at: int)

  datatype Outcome =
    | Refused                  // 429, locked out
    | FastForward(sent: string)
    | CachedBlock              // 403 from the cache
    | Blocked(reason: string)  // 403 from the policy
    | Forwarded(sent: string)

  datatype State = State(db: Db, policies: map<int, Config>, audit: seq<Record>)

  // ---------- The decision ----------

  /** ParseConfig: the stored settings over the defaults. */
  function PolicyOf(policies: map<int, Config>, org: int): Config {
    if org !in policies then DEFAULT
    else if policies[org].sensitivity == "" then policies[org].(sensitivity := MEDIUM)
    else policies[org]
  }

  predicate Mentions(mapping: set<string>, word: string) {
    exists k | k in mapping :: Contains(k, word)
  }

  /** Only enabled modules contribute. */
  function Gather(cfg: Config, r: Request): RiskContext {
    var s := r.signals;
    var vector := cfg.vectorGuard && (s.vectorBlocked || s.vectorScore > 0.0);
    RiskContext(
      if cfg.promptInjection then s.injection else 0.0,
      if vector then s.vectorScore else 0.0,
      if vector then s.vectorReason else "",
      cfg.promptLeaking && s.leaked,
      if cfg.promptLeaking && s.leaked then s.leakReason else "",
      r.obfuscated,
      |s.mapping|,
      Mentions(s.mapping, "PERSON"),
      Mentions(s.mapping, "MEDICAL") || Mentions(s.mapping, "HEALTH"),
      cfg.vectorGuard && s.outOfDomain)
  }

  function Decision(cfg: Config, r: Request): Action {
    Decide(Gather(cfg, r), cfg.sensitivity)
  }

  function Reason(cfg: Config, r: Request): string {
    ReasonFor(Gather(cfg, r), Decision(cfg, r))
  }

  /** What is logged with the decision: why the request was refused, or what was redacted. */
  function Details(cfg: Config, r: Request): string {
    if Decision(cfg, r) == BLOCK then Reason(cfg, r) else r.details
  }

  /** The score that is logged and counted: obfuscation is added once more. */
  function TotalRisk(cfg: Config, r: Request): int {
    Score(Gather(cfg, r), cfg.sensitivity) + if r.obfuscated then 30 else 0
  }

  function ActionText(a: Action): string {
    match a
    case PASS => "PASS"
    case MODIFY => "MODIFY"
    case BLOCK => "BLOCK"
  }

  lemma ActionTexts(a: Action)
    ensures ActionText(a) != "" && ActionText(a) != "SAFE"
    ensures ActionText(a) == "BLOCK" <==> a == BLOCK
  {
    assert ActionText(a)[0] != 'S';
  }

  // ---------- One request ----------

  predicate LockedOut(st: State, r: Request) {
    PolicyOf(st.policies, r.org).anomalyDetection && Locked(st.db, r.userId, r.at)
  }

  function CachedText(st: State, r: Request): string {
    GetText(st.db, OrgKey(r.org, r.hash), r.at)
  }

  /** The request is neither turned away nor answered from the cache. */
  predicate Scanned(st: State, r: Request) {
    !LockedOut(st, r) && CachedText(st, r) != "SAFE" && CachedText(st, r) != "BLOCK"
  }

  /** What a gateway without a verdict cache answers. */
  function FreshOutcome(cfg: Config, r: Request): Outcome {
    match Decision(cfg, r)
    case BLOCK => Blocked(Reason(cfg, r))
    case MODIFY => Forwarded(r.sanitizedBody)
    case PASS => Forwarded(r.body)
  }

  function OutcomeOf(st: State, r: Request): Outcome {
    if LockedOut(st, r) then Refused
    else if CachedText(st, r) == "SAFE" then FastForward(r.body)
    else if CachedText(st, r) == "BLOCK" then CachedBlock
    else FreshOutcome(PolicyOf(st.policies, r.org), r)
  }

  function RecordOf(cfg: Config, r: Request): Record {
    Record(r.org, r.userId, r.hash, Decision(cfg, r), TotalRisk(cfg, r), Details(cfg, r), r.at)
  }

  /** The audit log after a scanned request; a failed insert is not noticed. */
  function AuditAfterScan(cfg: Config, audit: seq<Record>, r: Request): seq<Record> {
    if r.logged then audit + [RecordOf(cfg, r)] else audit
  }

  /** The store after a scanned request: verdict, then risk or usage counters. */
  function DbAfterScan(cfg: Config, db: Db, r: Request): Db {
    var cached := AfterSet(db, OrgKey(r.org, r.hash), ActionText(Decision(cfg, r)), TTL, r.at);
    if Decision(cfg, r) == BLOCK then AfterRisk(cached, r.userId, TotalRisk(cfg, r), r.at)
    else if cfg.anomalyDetection then AfterIncr(cached, UsageKey(r.userId), LOCKOUT, r.at)
    else cached
  }

  function AfterRequest(st: State, r: Request): State {
    var cfg := PolicyOf(st.policies, r.org);
    if Scanned(st, r) then State(DbAfterScan(cfg, st.db, r), st.policies, AuditAfterScan(cfg, st.audit, r))
    else if OutcomeOf(st, r).FastForward? then st.(db := AfterIncr(st.db, UsageKey(r.userId), LOCKOUT, r.at))
    else st
  }

  function AfterUpdate(st: State, org: int, cfg: Config): State {
    State(AfterInvalidate(st.db, org), st.policies[org := cfg], st.audit)
  }

  lemma MentionsNext(mapping: set<string>, rest: set<string>, k: string, word: string)
    requires rest <= mapping && k in rest
    ensures Mentions(mapping - (rest - {k}), word) <==> Mentions(mapping - rest, word) || Contains(k, word)
  {
    assert mapping - (rest - {k}) == (mapping - rest) + {k};
  }

  /** The flags read off the placeholders, in whatever order the map is walked. */
  method InferFlags(mapping: set<string>) returns (hasPerson: bool, hasMedical: bool)
    ensures hasPerson == Mentions(mapping, "PERSON")
    ensures hasMedical == (Mentions(mapping, "MEDICAL") || Mentions(mapping, "HEALTH"))
  {
    hasPerson, hasMedical := false, false;
    var rest := mapping;
    while rest != {}
      invariant rest <= mapping
      invariant hasPerson == Mentions(mapping - rest, "PERSON")
      invariant hasMedical == (Mentions(mapping - rest, "MEDICAL") || Mentions(mapping - rest, "HEALTH"))
      decreases rest
    {
      var k :| k in rest;
      MentionsNext(mapping, rest, k, "PERSON");
      MentionsNext(mapping, rest, k, "MEDICAL");
      MentionsNext(mapping, rest, k, "HEALTH");
      hide Mentions;
      if Contains(k, "PERSON") {
        hasPerson := true;
      }
      if Contains(k, "MEDICAL") || Contains(k, "HEALTH") {
        hasMedical := true;
      }
      rest := rest - {k};
    }
    assert mapping - rest == mapping;
  }

  /** The signal-gathering phase: one module after the other, then the placeholders. */
  method GatherSignals(cfg: Config, r: Request) returns (ctx: RiskContext)
    ensures ctx == Gather(cfg, r)
  {
    hide Mentions;
    var s := r.signals;
    ctx := RiskContext(0.0, 0.0, "", false, "", r.obfuscated, 0, false, false, false);
    if cfg.promptLeaking && s.leaked {
      ctx := ctx.(leakDetected := true, leakReason := s.leakReason);
    }
    if cfg.promptInjection {
      ctx := ctx.(injectionScore := s.injection);
    }
    if cfg.vectorGuard {
      if s.vectorBlocked || s.vectorScore > 0.0 {
        ctx := ctx.(vectorScore := s.vectorScore, vectorReason := s.vectorReason);
      }
      if s.outOfDomain {
        ctx := ctx.(outOfDomain := true);
      }
    }
    var hasPerson, hasMedical := InferFlags(s.mapping);
    ctx := ctx.(piiCount := |s.mapping|, hasPerson := hasPerson, hasMedical := hasMedical);
  }

  /** `b` switches on everything `a` does, and is at least as sensitive. */
  predicate NoStricterThan(a: Config, b: Config) {
    && (a.promptInjection ==> b.promptInjection)
    && (a.vectorGuard ==> b.vectorGuard)
    && (a.promptLeaking ==> b.promptLeaking)
    && Strictness(a.sensitivity) <= Strictness(b.sensitivity)
  }

  /** Switching a module on, or raising the sensitivity, never softens a decision. */
  lemma StricterPolicyNeverSoftens(a: Config, b: Config, r: Request)
    requires NoStricterThan(a, b)
    ensures Severity(Decision(a, r)) <= Severity(Decision(b, r))
  {
    hide Truncated, Mentions;
    var x, y := Gather(a, r), Gather(b, r);
    assert Hundredths(x.injectionScore) <= Hundredths(y.injectionScore);
    assert Hundredths(x.vectorScore) <= Hundredths(y.vectorScore);
    assert Sum(x) <= Sum(y) && Bar(b.sensitivity) <= Bar(a.sensitivity);
    assert Blocks(x, a.sensitivity) ==> Blocks(y, b.sensitivity);
  }

  /** A policy update takes effect at once, drops the organization's cached verdicts, and
      changes neither the policy nor the cached verdicts of any other organization. */
  lemma UpdateIsScoped(st: State, org: int, cfg: Config, other: int, hash: string)
    ensures var st' := AfterUpdate(st, org, cfg);
            && PolicyOf(st'.policies, org)
               == cfg.(sensitivity := if cfg.sensitivity == "" then MEDIUM else cfg.sensitivity)
            && OrgKey(org, hash) !in st'.db
            && (other != org ==> PolicyOf(st'.policies, other) == PolicyOf(st.policies, other)
                                 && SameAt(st.db, st'.db, OrgKey(other, hash)))
  {
    hide OrgKey;
    InvalidateIsExact(st.db, org, org, hash);
    InvalidateIsExact(st.db, org, other, hash);
  }

  // ---------- The handlers ----------

  class ProxyHandler {
    const cache: Client
    const anomaly: AnomalyDetector
    var policies: map<int, Config>
    var audit: seq<Record>

    constructor (cache: Client)
      ensures this.cache == cache && Valid()
      ensures policies == map[] && audit == []
    {
      this.cache := cache;
      this.anomaly := new AnomalyDetector(cache);
      policies := map[];
      audit := [];
    }

    ghost predicate Valid() {
      anomaly.cache == cache
    }

    function Contents(): State
      reads this, cache
    {
      State(cache.db, policies, audit)
    }

    method LogAndCache(r: Request, action: Action, riskScore: int, details: string)
      modifies this`audit, cache
      ensures cache.db == AfterSet(old(cache.db), OrgKey(r.org, r.hash), ActionText(action), TTL, r.at)
      ensures audit == old(audit)
                       + if r.logged then [Record(r.org, r.userId, r.hash, action, riskScore, details, r.at)] else []
    {
      if r.logged {
        audit := audit + [Record(r.org, r.userId, r.hash, action, riskScore, details, r.at)];
      }
      cache.SetVerdict(OrgKey(r.org, r.hash), ActionText(action), TTL, r.at);
    }

    method ServeHTTP(r: Request) returns (out: Outcome)
      requires Valid()
      modifies this`audit, cache
      ensures out == OutcomeOf(old(Contents()), r)
      ensures Contents() == AfterRequest(old(Contents()), r)
    {
      hide Decide, Score, Gather, AfterRisk, AfterIncr, AfterSet, GetText, OrgKey, UsageKey, ReasonFor, ActionText;
      var cfg := PolicyOf(policies, r.org);
      if cfg.anomalyDetection {
        var allowed := anomaly.CheckAccess(r.userId, r.at);
        if !allowed {
          return Refused;
        }
      }
      var cacheKey := OrgKey(r.org, r.hash);
      var cached := cache.GetVerdict(cacheKey, r.at);
      if cached == "SAFE" {
        anomaly.TrackUsage(r.userId, r.at);
        return FastForward(r.body);
      } else if cached == "BLOCK" {
        return CachedBlock;
      }
      var riskCtx := GatherSignals(cfg, r);
      var verdict := AnalyzeRisk(riskCtx, cfg.sensitivity);
      var finalBody := r.body;
      var totalRisk := verdict.score + if r.obfuscated then 30 else 0;
      if verdict.action == BLOCK {
        LogAndCache(r, BLOCK, totalRisk, verdict.reason);
        anomaly.TrackRisk(r.userId, totalRisk, r.at);
        return Blocked(verdict.reason);
      } else if verdict.action == MODIFY {
        finalBody := r.sanitizedBody;
      }
      LogAndCache(r, verdict.action, totalRisk, r.details);
      if cfg.anomalyDetection {
        anomaly.TrackUsage(r.userId, r.at);
      }
      return Forwarded(finalBody);
    }

    method ServeConfig(org: int, newConfig: Config)
      modifies this`policies, cache
      ensures Contents() == AfterUpdate(old(Contents()), org, newConfig)
    {
      policies := policies[org := newConfig];
      cache.InvalidateOrg(org);
    }
  }

  // ---------- Runs ----------

  /** Requests, policy updates, and whatever other parts of the server do to their own keys. */
  datatype Event =
    | Serve(r: Request)
    | Update(org: int, cfg: Config, at: int)
    | Other(key: string, entry: Entry, at: int)
    | Drop(key: string, at: int)

  function Time(e: Event): int {
    if e.Serve? then e.r.at else e.at
  }

  predicate EventOk(e: Event) {
    match e
    case Other(key, _, _) => !("org:" <= key) && !("user:" <= key)
    case Drop(key, _) => !("user:" <= key)
    case _ => true
  }

  ghost predicate IsRun(events: seq<Event>) {
    && (forall i | 0 <= i < |events| :: EventOk(events[i]))
    && (forall i, j | 0 <= i < j < |events| :: Time(events[i]) <= Time(events[j]))
  }

  function AfterEvent(st: State, e: Event): State {
    match e
    case Serve(r) => AfterRequest(st, r)
    case Update(org, cfg, _) => AfterUpdate(st, org, cfg)
    case Other(key, entry, _) => st.(db := st.db[key := entry])
    case Drop(key, _) => st.(db := st.db - {key})
  }

  function StateAfter(events: seq<Event>): State {
    if events == [] then State(map[], map[], [])
    else AfterEvent(StateAfter(events[..|events| - 1]), events[|events| - 1])
  }

  /** Event `k` is the scan the cached verdict of (org, hash) comes from. */
  ghost predicate IsSource(events: seq<Event>, k: nat, org: int, hash: string, entry: Entry) {
    && k < |events| && events[k].Serve?
    && var r, before := events[k].r, StateAfter(events[..k]);
       && r.org == org && r.hash == hash
       && Scanned(before, r)
       && entry == Entry(Text(ActionText(Decision(PolicyOf(before.policies, org), r))), r.at + TTL)
  }

  /** The organization's policy has not been touched since event `k`. */
  predicate NoUpdateSince(events: seq<Event>, k: nat, org: int) {
    forall i | k <= i < |events| :: !(events[i].Update? && events[i].org == org)
  }

  /** Keys outside the organizations' part of the store. */
  lemma OwnKeys(org: int, hash: string, userId: string)
    ensures OrgKey(org, hash) != RiskKey(userId) && OrgKey(org, hash) != BlockedKey(userId)
    ensures OrgKey(org, hash) != UsageKey(userId) && "org:" <= OrgKey(org, hash)
  {
    assert OrgKey(org, hash)[0] == 'o' && RiskKey(userId)[0] == 'u';
    assert BlockedKey(userId)[0] == 'u' && UsageKey(userId)[0] == 'u';
  }

  /** Counters and locks leave every cached verdict alone. */
  lemma CountersKeepVerdicts(db: Db, userId: string, riskScore: int, at: int, org: int, hash: string)
    ensures SameAt(db, AfterRisk(db, userId, riskScore, at), OrgKey(org, hash))
    ensures SameAt(db, AfterIncr(db, UsageKey(userId), LOCKOUT, at), OrgKey(org, hash))
  {
    hide OrgKey, RiskKey, BlockedKey, UsageKey;
    OwnKeys(org, hash, userId);
  }

  predicate SameAt(db: Db, db': Db, key: string) {
    (key in db <==> key in db') && (key in db ==> db'[key] == db[key])
  }

  lemma ScanWrites(cfg: Config, db: Db, r: Request, org: int, hash: string)
    ensures var db' := DbAfterScan(cfg, db, r);
            if r.org == org && r.hash == hash
            then OrgKey(org, hash) in db' && db'[OrgKey(org, hash)]
              == Entry(Text(ActionText(Decision(cfg, r))), r.at + TTL)
            else SameAt(db, db', OrgKey(org, hash))
  {
    hide OrgKey, AfterRisk, AfterIncr, Decision, TotalRisk, UsageKey;
    var cached := AfterSet(db, OrgKey(r.org, r.hash), ActionText(Decision(cfg, r)), TTL, r.at);
    CountersKeepVerdicts(cached, r.userId, TotalRisk(cfg, r), r.at, org, hash);
    if OrgKey(r.org, r.hash) == OrgKey(org, hash) {
      OrgKeyInjective(r.org, r.hash, org, hash);
    }
  }

  /** One event keeps a cached verdict, removes it, or is its source. */
  lemma VerdictStep(st: State, e: Event, org: int, hash: string)
    requires EventOk(e)
    requires OrgKey(org, hash) in AfterEvent(st, e).db
    ensures e.Serve? && e.r.org == org && e.r.hash == hash && Scanned(st, e.r) ==>
              AfterEvent(st, e).db[OrgKey(org, hash)]
                == Entry(Text(ActionText(Decision(PolicyOf(st.policies, org), e.r))), e.r.at + TTL)
    ensures !(e.Serve? && e.r.org == org && e.r.hash == hash && Scanned(st, e.r)) ==>
              SameAt(st.db, AfterEvent(st, e).db, OrgKey(org, hash)) && !(e.Update? && e.org == org)
  {
    hide OrgKey, DbAfterScan, AfterIncr, AfterRisk, Decision, Scanned, OutcomeOf, PolicyOf;
    var key := OrgKey(org, hash);
    match e
    case Serve(r) =>
      ScanWrites(PolicyOf(st.policies, r.org), st.db, r, org, hash);
      CountersKeepVerdicts(st.db, r.userId, 0, r.at, org, hash);
    case Update(o, _, _) =>
      InvalidateIsExact(st.db, o, org, hash);
    case Other(k, _, _) =>
      OwnKeys(org, hash, "");
    case Drop(k, _) =>
  }

  /** Every verdict in the cache was reached by scanning an earlier request of that
      organization with that hash, under the policy the organization still has. */
  lemma {:induction false} Provenance(events: seq<Event>, org: int, hash: string) returns (k: nat)
    requires IsRun(events)
    requires OrgKey(org, hash) in StateAfter(events).db
    ensures IsSource(events, k, org, hash, StateAfter(events).db[OrgKey(org, hash)])
    ensures NoUpdateSince(events, k, org)
    ensures PolicyOf(StateAfter(events).policies, org) == PolicyOf(StateAfter(events[..k]).policies, org)
  {
    hide OrgKey, AfterEvent, Decision, Scanned, PolicyOf;
    NothingCached(events, org, hash);
    var n := |events| - 1;
    var before, e := events[..n], events[n];
    assert EventOk(e);
    VerdictStep(StateAfter(before), e, org, hash);
    PolicyStep(StateAfter(before), e, org);
    if e.Serve? && e.r.org == org && e.r.hash == hash && Scanned(StateAfter(before), e.r) {
      k := n;
    } else {
      k := Provenance(before, org, hash);
      assert before[..k] == events[..k];
    }
  }

  lemma NothingCached(events: seq<Event>, org: int, hash: string)
    requires OrgKey(org, hash) in StateAfter(events).db
    ensures events != []
  {
  }

  lemma PolicyStep(st: State, e: Event, org: int)
    requires !(e.Update? && e.org == org)
    ensures PolicyOf(AfterEvent(st, e).policies, org) == PolicyOf(st.policies, org)
  {
  }

  // ---------- What the cache can and cannot do ----------

  lemma CachedSource(events: seq<Event>, r: Request) returns (k: nat)
    requires IsRun(events) && CachedText(StateAfter(events), r) != ""
    ensures k < |events| && events[k].Serve? && r.at < events[k].r.at + TTL
    ensures IsSource(events, k, r.org, r.hash, Entry(Text(CachedText(StateAfter(events), r)), events[k].r.at + TTL))
    ensures NoUpdateSince(events, k, r.org)
    ensures PolicyOf(StateAfter(events).policies, r.org) == PolicyOf(StateAfter(events[..k]).policies, r.org)
  {
    hide OrgKey, StateAfter, Decision, Scanned, PolicyOf;
    k := Provenance(events, r.org, r.hash);
  }

  /** "SAFE" is never in the cache, so nothing is forwarded unscanned. */
  lemma NeverFastForward(events: seq<Event>, r: Request)
    requires IsRun(events)
    ensures !OutcomeOf(StateAfter(events), r).FastForward?
  {
    hide OrgKey, StateAfter, Decision, Scanned, PolicyOf, CachedText, LockedOut, ActionText;
    if CachedText(StateAfter(events), r) == "SAFE" {
      var k := CachedSource(events, r);
      ActionTexts(Decision(PolicyOf(StateAfter(events[..k]).policies, r.org), events[k].r));
    }
  }

  /** The cache only ever turns an answer into a refusal: any other request gets exactly what a
      gateway without a cache would answer, and a cached refusal repeats a decision of less
      than an hour ago on the same content under the same policy. */
  lemma CacheOnlyRefuses(events: seq<Event>, r: Request)
    requires IsRun(events) && !LockedOut(StateAfter(events), r)
    ensures OutcomeOf(StateAfter(events), r) == FreshOutcome(PolicyOf(StateAfter(events).policies, r.org), r)
         || (OutcomeOf(StateAfter(events), r) == CachedBlock
             && exists k: nat :: RefusedBefore(events, k, r, PolicyOf(StateAfter(events).policies, r.org)))
  {
    hide OrgKey, StateAfter, Decision, Scanned, PolicyOf, CachedText, ActionText;
    NeverFastForward(events, r);
    if OutcomeOf(StateAfter(events), r) == CachedBlock {
      var k := CachedSource(events, r);
      ActionTexts(Decision(PolicyOf(StateAfter(events[..k]).policies, r.org), events[k].r));
      assert RefusedBefore(events, k, r, PolicyOf(StateAfter(events).policies, r.org));
    }
  }

  /** Event `k` scanned the same content for the same organization, under `cfg`, and refused it. */
  ghost predicate RefusedBefore(events: seq<Event>, k: nat, r: Request, cfg: Config) {
    && k < |events| && events[k].Serve?
    && events[k].r.org == r.org && events[k].r.hash == r.hash && r.at < events[k].r.at + TTL
    && PolicyOf(StateAfter(events[..k]).policies, r.org) == cfg
    && Scanned(StateAfter(events[..k]), events[k].r)
    && Decision(cfg, events[k].r) == BLOCK
  }

  /** What reaches the provider was allowed by the policy in force and is sanitized if it says
      so.  Its record is in the audit log before it is sent exactly when the insert succeeds;
      a failed insert does not stop the request. */
  lemma ForwardedIsCheckedAndLogged(events: seq<Event>, r: Request)
    requires IsRun(events)
    requires OutcomeOf(StateAfter(events), r).FastForward? || OutcomeOf(StateAfter(events), r).Forwarded?
    ensures var st, st' := StateAfter(events), StateAfter(events + [Serve(r)]);
            var cfg := PolicyOf(st.policies, r.org);
            && Decision(cfg, r) != BLOCK
            && OutcomeOf(st, r) == Forwarded(if Decision(cfg, r) == MODIFY then r.sanitizedBody else r.body)
            && (st'.audit == st.audit
                  + [Record(r.org, r.userId, r.hash, Decision(cfg, r), TotalRisk(cfg, r), r.details, r.at)]
                <==> r.logged)
            && (!r.logged ==> st'.audit == st.audit)
  {
    hide OrgKey, Decision, PolicyOf, GetText, TotalRisk, DbAfterScan;
    NeverFastForward(events, r);
    assert (events + [Serve(r)])[..|events|] == events;
    CacheOnlyRefusesWhenScanned(StateAfter(events), r);
  }

  lemma CacheOnlyRefusesWhenScanned(st: State, r: Request)
    requires OutcomeOf(st, r).Forwarded?
    ensures Scanned(st, r)
  {
  }

  /** Repeats of refused content are not scanned, so they are neither logged nor counted
      towards a lockout, however many there are and whoever sends them. */
  lemma {:induction false} RepeatsLeaveNoTrace(st: State, org: int, hash: string, repeats: seq<Request>)
    requires OrgKey(org, hash) in st.db && st.db[OrgKey(org, hash)].value == Text("BLOCK")
    requires forall i | 0 <= i < |repeats| ::
               repeats[i].org == org && repeats[i].hash == hash && repeats[i].at < st.db[OrgKey(org, hash)].expiresAt
    ensures AfterAll(st, repeats) == st
    ensures forall i | 0 <= i < |repeats| :: OutcomeOf(st, repeats[i]) in {Refused, CachedBlock}
  {
    if repeats != [] {
      var n := |repeats| - 1;
      RepeatsLeaveNoTrace(st, org, hash, repeats[..n]);
      assert CachedText(st, repeats[n]) == "BLOCK";
    }
  }

  function AfterAll(st: State, requests: seq<Request>): State {
    if requests == [] then st
    else AfterRequest(AfterAll(st, requests[..|requests| - 1]), requests[|requests| - 1])
  }

  /** A refusal from the cache is what a fresh scan would say when every earlier request with
      this content was found no worse than `worst`, and `worst` being refused means that `r` is. */
  lemma RefusalCarriesOver(events: seq<Event>, r: Request, worst: Request)
    requires IsRun(events) && OutcomeOf(StateAfter(events), r) == CachedBlock
    requires forall k | 0 <= k < |events| && events[k].Serve? && events[k].r.org == r.org
        && events[k].r.hash == r.hash ::
               NoWorseThan(PolicyOf(StateAfter(events).policies, r.org), events[k].r, worst)
    requires Decision(PolicyOf(StateAfter(events).policies, r.org), worst) == BLOCK
         ==> Decision(PolicyOf(StateAfter(events).policies, r.org), r) == BLOCK
    ensures FreshOutcome(PolicyOf(StateAfter(events).policies, r.org), r).Blocked?
  {
    hide StateAfter, Scanned, PolicyOf, CachedText, OutcomeOf, FreshOutcome, Decision, NoWorseThan, LockedOut;
    NotLockedOut(StateAfter(events), r);
    CacheOnlyRefuses(events, r);
    var cfg := PolicyOf(StateAfter(events).policies, r.org);
    FreshBlocks(cfg, r);
    var k: nat :| RefusedBefore(events, k, r, cfg);
    assert NoWorseThan(cfg, events[k].r, worst);
    NoWorseIsRefused(cfg, events[k].r, worst);
  }

  lemma NotLockedOut(st: State, r: Request)
    requires OutcomeOf(st, r) == CachedBlock
    ensures !LockedOut(st, r)
  {
  }

  lemma FreshBlocks(cfg: Config, r: Request)
    ensures FreshOutcome(cfg, r).Blocked? <==> Decision(cfg, r) == BLOCK
    ensures FreshOutcome(cfg, r) != CachedBlock
  {
    hide Decision, Reason;
  }

  lemma NoWorseIsRefused(cfg: Config, a: Request, b: Request)
    requires NoWorseThan(cfg, a, b) && Decision(cfg, a) == BLOCK
    ensures Decision(cfg, b) == BLOCK
  {
    hide Decide, Gather, NoStrongerThan;
    ActionMonotone(Gather(cfg, a), Gather(cfg, b), cfg.sensitivity, cfg.sensitivity);
  }

  predicate NoWorseThan(cfg: Config, a: Request, b: Request) {
    NoStrongerThan(Gather(cfg, a), Gather(cfg, b))
  }

  /** The findings are fixed by the content; how it was spelled is not. */
  ghost predicate SameFindings(events: seq<Event>, r: Request) {
    forall k | 0 <= k < |events| && events[k].Serve? && events[k].r.org == r.org && events[k].r.hash == r.hash ::
      events[k].r.signals == r.signals
  }

  /** After these events a cached refusal of the request is what a fresh scan would say. */
  ghost predicate AgreesAfter(events: seq<Event>, cfg: Config, r: Request) {
    && IsRun(events) && SameFindings(events, r)
    && PolicyOf(StateAfter(events).policies, r.org) == cfg
    && OutcomeOf(StateAfter(events), r) == CachedBlock
    ==> FreshOutcome(cfg, r).Blocked?
  }

  function Spelled(r: Request): Request {
    r.(obfuscated := true)
  }

  /** Exactly when the cache may answer for a fresh scan, over all runs that end under a
      policy: when the obfuscated spelling being refused means that the request itself is. */
  lemma CachedRefusalAgreesIff(cfg: Config, r: Request)
    requires cfg.sensitivity != ""
    ensures (forall events :: AgreesAfter(events, cfg, r))
       <==> (Decision(cfg, Spelled(r)) == BLOCK ==> Decision(cfg, r) == BLOCK)
  {
    hide AgreesAfter, Decision;
    if Decision(cfg, Spelled(r)) == BLOCK ==> Decision(cfg, r) == BLOCK {
      forall events
        ensures AgreesAfter(events, cfg, r)
      {
        AlwaysAgrees(events, cfg, r);
      }
    } else {
      SpelledFirst(cfg, r);
    }
  }

  lemma AlwaysAgrees(events: seq<Event>, cfg: Config, r: Request)
    requires Decision(cfg, Spelled(r)) == BLOCK ==> Decision(cfg, r) == BLOCK
    ensures AgreesAfter(events, cfg, r)
  {
    hide Decision, StateAfter, PolicyOf, OutcomeOf, FreshOutcome, IsRun, Mentions;
    if IsRun(events) && SameFindings(events, r) && PolicyOf(StateAfter(events).policies, r.org) == cfg
       && OutcomeOf(StateAfter(events), r) == CachedBlock {
      forall k | 0 <= k < |events| && events[k].Serve? && events[k].r.org == r.org && events[k].r.hash == r.hash
        ensures NoWorseThan(cfg, events[k].r, Spelled(r))
      {
      }
      RefusalCarriesOver(events, r, Spelled(r));
    }
  }

  /** The policy is set, and the obfuscated spelling comes first. */
  function SpelledRun(cfg: Config, r: Request): seq<Event> {
    [Update(r.org, cfg, r.at), Serve(Spelled(r))]
  }

  lemma SpelledFirst(cfg: Config, r: Request)
    requires cfg.sensitivity != "" && Decision(cfg, Spelled(r)) == BLOCK && Decision(cfg, r) != BLOCK
    ensures !AgreesAfter(SpelledRun(cfg, r), cfg, r)
  {
    hide OrgPrefix, Decision, AfterRequest, OutcomeOf, Reason;
    var events := SpelledRun(cfg, r);
    assert events[..1] == [Update(r.org, cfg, r.at)] && events[..1][..0] == [];
    var empty := StateAfter([]);
    assert StateAfter(events[..1]) == AfterUpdate(empty, r.org, cfg);
    var st := StateAfter(events[..1]);
    assert st.db == map[] && PolicyOf(st.policies, r.org) == cfg;
    assert StateAfter(events) == AfterRequest(st, Spelled(r));
    FirstRefusalIsRepeated(st, r);
  }

  /** The obfuscated spelling comes to an empty store and is refused: so is the plain one after it. */
  lemma FirstRefusalIsRepeated(st: State, r: Request)
    requires st.db == map[] && Decision(PolicyOf(st.policies, r.org), Spelled(r)) == BLOCK
    ensures var st' := AfterRequest(st, Spelled(r));
            st'.policies == st.policies && OutcomeOf(st', r) == CachedBlock
  {
    hide OrgKey, RiskKey, BlockedKey, UsageKey, Decision, TotalRisk, PolicyOf;
    OwnKeys(r.org, r.hash, r.userId);
    UserKeys(r.userId, r.userId);
  }

  function Suspicious(org: int, hash: string, obfuscated: bool, at: int): Request {
    var signals := Signals(0.65, false, 0.0, "", false, false, "", {});
    Request(org, "anonymous", hash, obfuscated, "", "", signals, "", true, at)
  }

  /** An instance: content is hashed after normalization, so a plain prompt shares
      its verdict with an obfuscated spelling of it.  Which of the two comes first decides
      whether the plain one is refused or forwarded. */
  lemma ObfuscatedCopyRefusesPlain(org: int, hash: string, at: int)
    ensures var events := [Serve(Suspicious(org, hash, true, at))];
            IsRun(events) && OutcomeOf(StateAfter(events), Suspicious(org, hash, false, at)) == CachedBlock
    ensures OutcomeOf(StateAfter([]), Suspicious(org, hash, false, at)) == Forwarded("")
  {
    hide AfterRequest, Decision, Reason;
    var obfuscated, plain := Suspicious(org, hash, true, at), Suspicious(org, hash, false, at);
    var empty := StateAfter([]);
    assert [Serve(obfuscated)][..0] == [];
    assert StateAfter([Serve(obfuscated)]) == AfterRequest(empty, obfuscated);
    SuspiciousDecisions(org, hash, at);
    assert obfuscated == Spelled(plain);
    FirstRefusalIsRepeated(empty, plain);
  }

  lemma SuspiciousDecisions(org: int, hash: string, at: int)
    ensures Decision(DEFAULT, Suspicious(org, hash, true, at)) == BLOCK
    ensures Decision(DEFAULT, Suspicious(org, hash, false, at)) == PASS
  {
    var r := Suspicious(org, hash, false, at);
    assert !Mentions(r.signals.mapping, "PERSON") && |r.signals.mapping| == 0;
    assert Truncated(0.65) == 65;
    assert Sum(Gather(DEFAULT, r)) == 65;
  }

  // ---------- Lockout, end to end ----------

  /** What an event does to the store, as the detector's events. */
  function Steps(st: State, e: Event): seq<Anomaly.Event> {
    match e
    case Serve(r) =>
      var cfg := PolicyOf(st.policies, r.org);
      if Scanned(st, r) then
        [Anomaly.Other(OrgKey(r.org, r.hash), Entry(Text(ActionText(Decision(cfg, r))), r.at + TTL), r.at)]
        + (if Decision(cfg, r) == BLOCK then [Anomaly.Risk(r.userId, TotalRisk(cfg, r), r.at)]
           else if cfg.anomalyDetection then [Anomaly.Usage(r.userId, r.at)]
           else [])
      else if OutcomeOf(st, r).FastForward? then [Anomaly.Usage(r.userId, r.at)]
      else []
    case Update(org, _, at) => [Anomaly.Purge(org, at)]
    case Other(key, entry, at) => [Anomaly.Other(key, entry, at)]
    case Drop(key, at) => [Anomaly.Drop(key, at)]
  }

  function Trace(events: seq<Event>): seq<Anomaly.Event> {
    if events == [] then []
    else Trace(events[..|events| - 1]) + Steps(StateAfter(events[..|events| - 1]), events[|events| - 1])
  }

  /** When scanned requests of the user were refused with a total risk of 70 or more. */
  function RefusalTimes(events: seq<Event>, userId: string): seq<int> {
    if events == [] then []
    else
      var before, e := events[..|events| - 1], events[|events| - 1];
      RefusalTimes(before, userId) + (if CountedRefusal(StateAfter(before), e, userId) then [e.r.at] else [])
  }

  predicate CountedRefusal(st: State, e: Event, userId: string) {
    && e.Serve? && e.r.userId == userId && Scanned(st, e.r)
    && var cfg := PolicyOf(st.policies, e.r.org);
       Decision(cfg, e.r) == BLOCK && TotalRisk(cfg, e.r) >= HIGH_RISK
  }

  lemma AfterOne(a: seq<Anomaly.Event>, x: Anomaly.Event)
    ensures Anomaly.After(a + [x]) == Anomaly.AfterEvent(Anomaly.After(a), x)
  {
    assert (a + [x])[..|a|] == a;
  }

  lemma HighOne(a: seq<Anomaly.Event>, x: Anomaly.Event, userId: string)
    ensures HighTimes(a + [x], userId) == HighTimes(a, userId) + if IsHigh(x, userId) then [x.at] else []
  {
    assert (a + [x])[..|a|] == a;
  }

  /** Appending one event's steps. */
  lemma StepsEffect(a: seq<Anomaly.Event>, st: State, e: Event, userId: string)
    requires Anomaly.After(a) == st.db
    ensures Anomaly.After(a + Steps(st, e)) == AfterEvent(st, e).db
    ensures HighTimes(a + Steps(st, e), userId)
         == HighTimes(a, userId) + if CountedRefusal(st, e, userId) then [e.r.at] else []
  {
    hide Anomaly.After, HighTimes, OrgKey, Scanned, Decision, TotalRisk, OutcomeOf, AfterRisk, AfterIncr,
      AfterInvalidate, PolicyOf;
    var steps := Steps(st, e);
    if |steps| == 0 {
      assert a + steps == a;
    } else if |steps| == 1 {
      assert steps == [steps[0]];
      AfterOne(a, steps[0]);
      HighOne(a, steps[0], userId);
    } else {
      assert a + steps == (a + [steps[0]]) + [steps[1]];
      AfterOne(a, steps[0]);
      AfterOne(a + [steps[0]], steps[1]);
      HighOne(a, steps[0], userId);
      HighOne(a + [steps[0]], steps[1], userId);
    }
  }

  lemma {:induction false} TraceEffect(events: seq<Event>, userId: string)
    ensures Anomaly.After(Trace(events)) == StateAfter(events).db
    ensures HighTimes(Trace(events), userId) == RefusalTimes(events, userId)
  {
    hide Steps, AfterEvent, CountedRefusal;
    if events != [] {
      var before := events[..|events| - 1];
      TraceEffect(before, userId);
      StepsEffect(Trace(before), StateAfter(before), events[|events| - 1], userId);
    }
  }

  lemma StepsOk(st: State, e: Event)
    requires EventOk(e)
    ensures forall x | x in Steps(st, e) :: Anomaly.EventOk(x) && x.at == Time(e)
  {
    hide Scanned, Decision, TotalRisk, OutcomeOf, PolicyOf;
    if e.Serve? {
      OwnKeys(e.r.org, e.r.hash, "");
      assert OrgKey(e.r.org, e.r.hash)[0] == 'o';
    }
  }

  lemma {:induction false} TraceIsRun(events: seq<Event>)
    requires IsRun(events)
    ensures Anomaly.IsRun(Trace(events))
    ensures forall x | x in Trace(events) :: events != [] && x.at <= Time(events[|events| - 1])
  {
    hide Steps, StateAfter;
    if events != [] {
      var before, e := events[..|events| - 1], events[|events| - 1];
      TraceIsRun(before);
      StepsOk(StateAfter(before), e);
    }
  }

  /** A request is turned away exactly when detection is on and, within the last hour, one of
      the user's counted refusals ended a run of six with gaps under ten minutes.  Refusals
      from the cache, and whatever policy updates remove, play no part in it. */
  lemma RefusedIff(events: seq<Event>, r: Request)
    requires IsRun(events)
    ensures OutcomeOf(StateAfter(events), r) == Refused
       <==> PolicyOf(StateAfter(events).policies, r.org).anomalyDetection
            && exists j: nat :: LocksAt(RefusalTimes(events, r.userId), j, r.at)
  {
    hide Trace, Anomaly.After, HighTimes, LocksAt, Locked, Decision, CachedText;
    TraceEffect(events, r.userId);
    TraceIsRun(events);
    LockedIff(Trace(events), r.userId, r.at);
  }
}
