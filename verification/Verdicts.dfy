/** pkg/policy/engine.go and pkg/proxy/handler.go, from the outside: what each finding does to the
    answer, the recorded score and the recorded reason of a request, in points and thresholds. */
module Verdicts {
  import opened Strings
  import opened Redis
  import opened Policy
  import opened Anomaly
  import opened Gateway

  // ---------- The risk matrix ----------

  /** What the findings add up to. */
  function Points(obfuscated: bool, foreign: bool, leaked: bool, person: bool, injection: real, vector: real): int {
    (if obfuscated then 30 else 0) + (if foreign then 30 else 0) + (if leaked then 100 else 0)
    + (if person then 20 else 0)
    + (if injection > 0.0 then (injection * 100.0).Floor else 0)
    + (if vector > 0.0 then (vector * 100.0).Floor else 0)
  }

  lemma SumIs(ctx: RiskContext)
    ensures Sum(ctx) == Points(ctx.obfuscated, ctx.outOfDomain, ctx.leakDetected, ctx.hasPerson, ctx.injectionScore,
                               ctx.vectorScore)
  {
  }

  /** Exactly which verdict, from the findings. */
  lemma VerdictIff(ctx: RiskContext, sensitivity: string)
    ensures var points := Points(ctx.obfuscated, ctx.outOfDomain, ctx.leakDetected, ctx.hasPerson, ctx.injectionScore,
                               ctx.vectorScore);
            && (Decide(ctx, sensitivity) == BLOCK <==>
                  || ctx.vectorScore > 0.82
                  || (ctx.hasPerson && ctx.hasMedical)
                  || (ctx.injectionScore > 0.6 && ctx.obfuscated)
                  || points >= if sensitivity == "LOW" then 90 else if sensitivity == "HIGH" then 50 else 80)
            && (Decide(ctx, sensitivity) == PASS <==>
                  Decide(ctx, sensitivity) != BLOCK && ctx.piiCount == 0 && !ctx.hasPerson)
  {
    SumIs(ctx);
    hide Sum, Points;
  }

  /** The score, outside the two combinations that force it. */
  lemma ScoreIs(ctx: RiskContext, sensitivity: string)
    requires !(ctx.hasPerson && ctx.hasMedical) && !(ctx.injectionScore > 0.6 && ctx.obfuscated)
    ensures var points := Points(ctx.obfuscated, ctx.outOfDomain, ctx.leakDetected, ctx.hasPerson, ctx.injectionScore,
                               ctx.vectorScore);
            Score(ctx, sensitivity)
            == if sensitivity == "HIGH" then points + 10 else if sensitivity == "LOW" && points < 50 then 0 else points
  {
    SumIs(ctx);
    hide Sum, Points;
  }

  /** And in them. */
  lemma ForcedScore(ctx: RiskContext, sensitivity: string)
    requires (ctx.hasPerson && ctx.hasMedical) || (ctx.injectionScore > 0.6 && ctx.obfuscated)
    ensures Score(ctx, sensitivity)
         == (if sensitivity == "HIGH" then 110 else 100) + if ctx.hasPerson && !ctx.hasMedical then 20 else 0
  {
  }

  const NOTHING := RiskContext(0.0, 0.0, "", false, "", false, 0, false, false, false)

  /** One finding alone. */
  lemma SingleFindings(sensitivity: string, x: real)
    requires sensitivity == "LOW" || sensitivity == "MEDIUM" || sensitivity == "HIGH"
    ensures Decide(NOTHING, sensitivity) == PASS
    ensures Decide(NOTHING.(leakDetected := true), sensitivity) == BLOCK
    ensures Decide(NOTHING.(obfuscated := true), sensitivity) == PASS
    ensures Decide(NOTHING.(outOfDomain := true), sensitivity) == PASS
    ensures Decide(NOTHING.(hasPerson := true), sensitivity) == MODIFY
    ensures Decide(NOTHING.(injectionScore := x), sensitivity) == BLOCK
       <==> x >= if sensitivity == "LOW" then 0.9 else if sensitivity == "HIGH" then 0.5 else 0.8
    ensures Decide(NOTHING.(vectorScore := x), sensitivity) == BLOCK
       <==> if sensitivity == "HIGH" then x >= 0.5 else if sensitivity == "MEDIUM" then x >= 0.8 else x > 0.82
  {
    hide Decide;
    VerdictIff(NOTHING, sensitivity);
    VerdictIff(NOTHING.(leakDetected := true), sensitivity);
    VerdictIff(NOTHING.(obfuscated := true), sensitivity);
    VerdictIff(NOTHING.(outOfDomain := true), sensitivity);
    VerdictIff(NOTHING.(hasPerson := true), sensitivity);
    VerdictIff(NOTHING.(injectionScore := x), sensitivity);
    VerdictIff(NOTHING.(vectorScore := x), sensitivity);
  }

  /** Obfuscation, a foreign domain and a person's name: any two block at HIGH only, all three
      at MEDIUM as well. */
  lemma Together(sensitivity: string)
    requires sensitivity == "LOW" || sensitivity == "MEDIUM" || sensitivity == "HIGH"
    ensures Decide(NOTHING.(obfuscated := true, outOfDomain := true), sensitivity) == BLOCK <==> sensitivity == "HIGH"
    ensures Decide(NOTHING.(obfuscated := true, hasPerson := true), sensitivity) == BLOCK <==> sensitivity == "HIGH"
    ensures Decide(NOTHING.(outOfDomain := true, hasPerson := true), sensitivity) == BLOCK <==> sensitivity == "HIGH"
    ensures Decide(NOTHING.(obfuscated := true, outOfDomain := true, hasPerson := true), sensitivity) == BLOCK
       <==> sensitivity != "LOW"
  {
    hide Decide;
    VerdictIff(NOTHING.(obfuscated := true, outOfDomain := true), sensitivity);
    VerdictIff(NOTHING.(obfuscated := true, hasPerson := true), sensitivity);
    VerdictIff(NOTHING.(outOfDomain := true, hasPerson := true), sensitivity);
    VerdictIff(NOTHING.(obfuscated := true, outOfDomain := true, hasPerson := true), sensitivity);
  }

  /** The reasons, and which goes before which. */
  lemma Reasons(ctx: RiskContext, action: Action)
    ensures ctx.vectorScore > 0.82 ==> ReasonFor(ctx, action) == "Vector Guard Violation: " + ctx.vectorReason
    ensures ctx.vectorScore <= 0.82 ==>
              var reason := ReasonFor(ctx, action);
              var health, hidden := ctx.hasPerson && ctx.hasMedical, ctx.injectionScore > 0.6 && ctx.obfuscated;
              && (health ==> reason == "CRITICAL: Health Data Correlation (Person + Medical)")
              && (!health && hidden ==> reason == "CRITICAL: Obfuscated Injection Attempt")
              && (!health && !hidden && ctx.leakDetected ==> reason == "Prompt Leak: " + ctx.leakReason)
              && (!health && !hidden && !ctx.leakDetected ==>
                    && (ctx.outOfDomain ==> reason == "Out-of-Domain Anomaly")
                    && (!ctx.outOfDomain && ctx.hasPerson ==> reason == "PII Detected (Person Name)")
                    && (!ctx.outOfDomain && !ctx.hasPerson ==>
                          reason == match action
                                    case BLOCK => "High Risk Score Exceeded"
                                    case MODIFY => "Sensitive Data Redacted"
                                    case PASS => ""))
  {
    hide VectorReason, LeakReason;
    LongReasons(ctx);
  }

  lemma LongReasons(ctx: RiskContext)
    ensures VectorReason(ctx) == "Vector Guard Violation: " + ctx.vectorReason
    ensures LeakReason(ctx) == "Prompt Leak: " + ctx.leakReason
  {
  }

  // ---------- The answer to a request ----------

  function PolicyFor(st: State, r: Request): Gateway.Config {
    PolicyOf(st.policies, r.org)
  }

  /** With the vector guard on, a close match is refused at every sensitivity, with its reason. */
  lemma CloseMatchIsBlocked(st: State, r: Request)
    requires Scanned(st, r) && PolicyFor(st, r).vectorGuard && r.signals.vectorScore > 0.82
    ensures OutcomeOf(st, r) == Blocked("Vector Guard Violation: " + r.signals.vectorReason)
  {
    hide Mentions, Decide, ReasonFor, Scanned;
    var cfg := PolicyFor(st, r);
    VerdictIff(Gather(cfg, r), cfg.sensitivity);
    Reasons(Gather(cfg, r), BLOCK);
    FreshAnswer(st, r);
  }

  lemma FreshAnswer(st: State, r: Request)
    requires Scanned(st, r)
    ensures OutcomeOf(st, r) == FreshOutcome(PolicyFor(st, r), r)
  {
  }

  /** With leak detection on, a leak is refused at every sensitivity. */
  lemma LeakIsBlocked(st: State, r: Request)
    requires Scanned(st, r) && PolicyFor(st, r).promptLeaking && r.signals.leaked
    ensures OutcomeOf(st, r).Blocked?
  {
    hide Mentions, Decide, ReasonFor, Scanned;
    var cfg := PolicyFor(st, r);
    VerdictIff(Gather(cfg, r), cfg.sensitivity);
    FloorsNonNegative(Gather(cfg, r));
    FreshAnswer(st, r);
  }

  lemma FloorsNonNegative(ctx: RiskContext)
    ensures ctx.injectionScore > 0.0 ==> (ctx.injectionScore * 100.0).Floor >= 0
    ensures ctx.vectorScore > 0.0 ==> (ctx.vectorScore * 100.0).Floor >= 0
  {
  }

  /** With injection detection on, so is an attempt that also tries to hide. */
  lemma HiddenAttemptIsBlocked(st: State, r: Request)
    requires Scanned(st, r) && PolicyFor(st, r).promptInjection && r.signals.injection > 0.6 && r.obfuscated
    ensures OutcomeOf(st, r).Blocked?
  {
    hide Mentions, Decide, ReasonFor, Scanned;
    var cfg := PolicyFor(st, r);
    VerdictIff(Gather(cfg, r), cfg.sensitivity);
    FreshAnswer(st, r);
  }

  /** Some placeholder names this. */
  predicate Named(r: Request, word: string) {
    exists k | k in r.signals.mapping :: Contains(k, word)
  }

  /** The points of a request's findings by the detectors that are switched on. */
  function PointsOf(cfg: Gateway.Config, r: Request): int {
    var s := r.signals;
    Points(r.obfuscated, cfg.vectorGuard && s.outOfDomain, cfg.promptLeaking && s.leaked, Named(r, "PERSON"),
           if cfg.promptInjection then s.injection else 0.0, if cfg.vectorGuard then s.vectorScore else 0.0)
  }

  lemma GatheredPoints(cfg: Gateway.Config, r: Request)
    ensures var ctx := Gather(cfg, r);
            && ctx.hasPerson == Named(r, "PERSON") && ctx.obfuscated == r.obfuscated
            && ctx.hasMedical == (Named(r, "MEDICAL") || Named(r, "HEALTH"))
            && ctx.injectionScore == (if cfg.promptInjection then r.signals.injection else 0.0)
            && (ctx.vectorScore > 0.82 <==> cfg.vectorGuard && r.signals.vectorScore > 0.82)
            && (ctx.piiCount == 0 <==> r.signals.mapping == {})
            && Points(ctx.obfuscated, ctx.outOfDomain, ctx.leakDetected, ctx.hasPerson, ctx.injectionScore,
                      ctx.vectorScore) == PointsOf(cfg, r)
  {
  }

  /** Exactly which scanned requests are refused, forwarded redacted, and forwarded as they are;
      from the request and the policy alone. */
  lemma AnswerIff(st: State, r: Request)
    requires Scanned(st, r)
    ensures var cfg, s := PolicyFor(st, r), r.signals;
            var points := PointsOf(cfg, r);
            && (OutcomeOf(st, r).Blocked? <==>
                  || (cfg.vectorGuard && s.vectorScore > 0.82)
                  || (Named(r, "PERSON") && (Named(r, "MEDICAL") || Named(r, "HEALTH")))
                  || (cfg.promptInjection && s.injection > 0.6 && r.obfuscated)
                  || points >= if cfg.sensitivity == "LOW" then 90 else if cfg.sensitivity == "HIGH" then 50 else 80)
            && (!OutcomeOf(st, r).Blocked? ==>
                  OutcomeOf(st, r) == Forwarded(if s.mapping == {} then r.body else r.sanitizedBody))
  {
    var cfg := PolicyFor(st, r);
    GatheredPoints(cfg, r);
    NamedIsMapped(r, "PERSON");
    hide Decide, Scanned, PointsOf, Points, Gather, Named, PolicyOf, OutcomeOf, Reason;
    VerdictIff(Gather(cfg, r), cfg.sensitivity);
    FreshAnswer(st, r);
  }

  lemma NamedIsMapped(r: Request, word: string)
    ensures Named(r, word) ==> r.signals.mapping != {}
  {
  }

  /** A finding of a detector that is switched off changes neither the answer nor anything that is
      recorded or stored. */
  lemma SwitchedOffIsIgnored(st: State, r: Request, s: Signals)
    requires s.mapping == r.signals.mapping
    requires PolicyFor(st, r).promptInjection ==> s.injection == r.signals.injection
    requires PolicyFor(st, r).promptLeaking ==> s.leaked == r.signals.leaked && s.leakReason == r.signals.leakReason
    requires PolicyFor(st, r).vectorGuard ==>
               && s.vectorBlocked == r.signals.vectorBlocked && s.vectorScore == r.signals.vectorScore
               && s.vectorReason == r.signals.vectorReason && s.outOfDomain == r.signals.outOfDomain
    ensures OutcomeOf(st, r.(signals := s)) == OutcomeOf(st, r)
    ensures AfterRequest(st, r.(signals := s)) == AfterRequest(st, r)
  {
    hide Mentions, Decide, ReasonFor, Score, GetText, Locked, AfterRisk, AfterIncr, AfterSet, OrgKey, UsageKey,
      ActionText;
    assert Gather(PolicyFor(st, r), r.(signals := s)) == Gather(PolicyFor(st, r), r);
  }

  // ---------- The record ----------

  /** A scanned request leaves one record, exactly when the insert succeeds, blocked or not: whose
      it is, the decision, and why it was refused or what was redacted. */
  lemma ScannedIsRecorded(st: State, r: Request)
    requires Scanned(st, r)
    ensures var audit, audit' := st.audit, AfterRequest(st, r).audit;
            if !r.logged then audit' == audit
            else
              && |audit'| == |audit| + 1 && audit'[..|audit|] == audit
              && var rec := audit'[|audit|];
              && rec.org == r.org && rec.userId == r.userId && rec.hash == r.hash && rec.at == r.at
              && (rec.action == BLOCK <==> OutcomeOf(st, r).Blocked?)
              && (rec.action == BLOCK ==> OutcomeOf(st, r) == Blocked(rec.details))
              && (rec.action == MODIFY ==> OutcomeOf(st, r) == Forwarded(r.sanitizedBody))
              && (rec.action == PASS ==> OutcomeOf(st, r) == Forwarded(r.body))
              && (rec.action != BLOCK ==> rec.details == r.details)
  {
    hide Decision, Reason, TotalRisk, DbAfterScan, GetText, Locked;
  }

  /** A request that is not scanned leaves none. */
  lemma UnscannedIsNotRecorded(st: State, r: Request)
    requires !Scanned(st, r)
    ensures AfterRequest(st, r).audit == st.audit
  {
    hide Scanned, OutcomeOf;
  }

  /** The request is recorded, with this score. */
  predicate RecordedWith(st: State, r: Request, score: int) {
    var audit := AfterRequest(st, r).audit;
    |audit| == |st.audit| + 1 && audit[|st.audit|].riskScore == score
  }

  /** Neither of the two combinations that force the score. */
  predicate Unforced(cfg: Gateway.Config, r: Request) {
    && !(Named(r, "PERSON") && (Named(r, "MEDICAL") || Named(r, "HEALTH")))
    && !(cfg.promptInjection && r.signals.injection > 0.6 && r.obfuscated)
  }

  /** The recorded score, outside the two combinations that force it: the findings' points, the
      sensitivity's adjustment, and obfuscation once more. */
  lemma RecordedScore(st: State, r: Request)
    requires Scanned(st, r) && r.logged && Unforced(PolicyFor(st, r), r)
    ensures var cfg, points := PolicyFor(st, r), PointsOf(PolicyFor(st, r), r);
            RecordedWith(st, r,
              (if cfg.sensitivity == "HIGH" then points + 10
               else if cfg.sensitivity == "LOW" && points < 50 then 0 else points)
              + if r.obfuscated then 30 else 0)
  {
    var cfg := PolicyFor(st, r);
    RecordOfScan(st, r);
    GatheredPoints(cfg, r);
    hide Scanned, Score, Gather, RecordedWith, Named, PointsOf, Points, PolicyOf;
    ScoreIs(Gather(cfg, r), cfg.sensitivity);
  }

  lemma RecordOfScan(st: State, r: Request)
    requires Scanned(st, r) && r.logged
    ensures var cfg := PolicyFor(st, r);
            RecordedWith(st, r, Score(Gather(cfg, r), cfg.sensitivity) + if r.obfuscated then 30 else 0)
  {
    hide Decision, Details, Score, Gather, DbAfterScan, GetText, Locked;
    var audit := AfterRequest(st, r).audit;
    assert audit == st.audit + [RecordOf(PolicyFor(st, r), r)];
  }

  lemma OneScore(st: State, r: Request, score: int, score': int)
    requires RecordedWith(st, r, score) && RecordedWith(st, r, score')
    ensures score == score'
  {
    hide AfterRequest;
  }

  /** A finding more, at a sensitivity other than LOW, is recorded with its own points. */
  lemma InjectionRaisesScore(st: State, r: Request, x: real, score: int)
    requires Scanned(st, r) && r.logged && PolicyFor(st, r).promptInjection && PolicyFor(st, r).sensitivity != "LOW"
    requires Unforced(PolicyFor(st, r), r) && RecordedWith(st, r, score)
    requires r.signals.injection == 0.0 && x > 0.0 && !(x > 0.6 && r.obfuscated)
    ensures RecordedWith(st, r.(signals := r.signals.(injection := x)), score + (x * 100.0).Floor)
  {
    InjectionPoints(PolicyFor(st, r), r, x);
    hide Scanned, RecordedWith, PointsOf, PolicyOf, Unforced;
    RaisedScore(st, r, r.(signals := r.signals.(injection := x)), score, (x * 100.0).Floor);
  }

  lemma InjectionPoints(cfg: Gateway.Config, r: Request, x: real)
    requires cfg.promptInjection && r.signals.injection == 0.0 && x > 0.0 && !(x > 0.6 && r.obfuscated)
    requires Unforced(cfg, r)
    ensures var r' := r.(signals := r.signals.(injection := x));
            Unforced(cfg, r') && PointsOf(cfg, r') == PointsOf(cfg, r) + (x * 100.0).Floor
  {
    hide Contains;
    SameNames(r, r.(signals := r.signals.(injection := x)));
    hide Named;
  }

  lemma SameNames(r: Request, r': Request)
    requires r'.signals.mapping == r.signals.mapping
    ensures forall word :: Named(r', word) == Named(r, word)
  {
    hide Contains;
  }

  lemma ForeignDomainRaisesScore(st: State, r: Request, score: int)
    requires Scanned(st, r) && r.logged && PolicyFor(st, r).vectorGuard && PolicyFor(st, r).sensitivity != "LOW"
    requires Unforced(PolicyFor(st, r), r) && RecordedWith(st, r, score)
    requires !r.signals.outOfDomain
    ensures RecordedWith(st, r.(signals := r.signals.(outOfDomain := true)), score + 30)
  {
    ForeignPoints(PolicyFor(st, r), r);
    hide Scanned, RecordedWith, PointsOf, PolicyOf, Unforced;
    RaisedScore(st, r, r.(signals := r.signals.(outOfDomain := true)), score, 30);
  }

  lemma ForeignPoints(cfg: Gateway.Config, r: Request)
    requires cfg.vectorGuard && !r.signals.outOfDomain && Unforced(cfg, r)
    ensures var r' := r.(signals := r.signals.(outOfDomain := true));
            Unforced(cfg, r') && PointsOf(cfg, r') == PointsOf(cfg, r) + 30
  {
    SameNames(r, r.(signals := r.signals.(outOfDomain := true)));
    hide Named;
  }

  lemma RaisedScore(st: State, r: Request, r': Request, score: int, points: int)
    requires Scanned(st, r) && r.logged && PolicyFor(st, r).sensitivity != "LOW"
    requires Unforced(PolicyFor(st, r), r) && RecordedWith(st, r, score)
    requires r' == r.(signals := r'.signals) && Unforced(PolicyFor(st, r), r')
    requires PointsOf(PolicyFor(st, r), r') == PointsOf(PolicyFor(st, r), r) + points
    ensures RecordedWith(st, r', score + points)
  {
    assert Scanned(st, r') && PolicyFor(st, r') == PolicyFor(st, r);
    hide Scanned, RecordedWith, PointsOf, PolicyOf, Unforced;
    RecordedScore(st, r);
    RecordedScore(st, r');
    forall score' | RecordedWith(st, r, score')
      ensures score' == score
    {
      OneScore(st, r, score, score');
    }
  }

  /** The verdict of a scan is kept for an hour under the organization and the content. */
  lemma ScanIsCached(st: State, r: Request)
    requires Scanned(st, r)
    ensures var key := "org:" + Decimal(r.org) + ":" + r.hash;
            var db := AfterRequest(st, r).db;
            && key in db && db[key].expiresAt == r.at + 3_600_000
            && db[key].value
               == Text(if OutcomeOf(st, r).Blocked? then "BLOCK" else if r.signals.mapping == {} then "PASS"
                       else "MODIFY")
  {
    var cfg := PolicyFor(st, r);
    assert OrgKey(r.org, r.hash) == "org:" + Decimal(r.org) + ":" + r.hash by {
      KeyIs(r.org, r.hash);
    }
    AnswerIff(st, r);
    ScanWrites(cfg, st.db, r, r.org, r.hash);
    Forwards(cfg, r);
    hide Decision, DbAfterScan, OrgKey, GetText, Locked, FreshOutcome;
    FreshAnswer(st, r);
  }

  lemma Forwards(cfg: Gateway.Config, r: Request)
    ensures FreshOutcome(cfg, r).Blocked? <==> Decision(cfg, r) == BLOCK
    ensures r.signals.mapping == {} ==> Decision(cfg, r) != MODIFY
    ensures r.signals.mapping != {} ==> Decision(cfg, r) != PASS
  {
    hide Reason, Mentions;
    assert r.signals.mapping == {} ==> !Mentions(r.signals.mapping, "PERSON") by {
      NothingNamed(r);
    }
  }

  lemma NothingNamed(r: Request)
    ensures r.signals.mapping == {} ==> !Mentions(r.signals.mapping, "PERSON")
  {
  }

  lemma KeyIs(org: int, hash: string)
    ensures OrgKey(org, hash) == "org:" + Decimal(org) + ":" + hash
  {
  }
}
