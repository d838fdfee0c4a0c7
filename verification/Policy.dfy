/** pkg/policy/engine.go: the contextual risk matrix.  Scores are reals, so the float
    rounding of the original is not modelled. */
module Policy {

  const LOW := "LOW"
  const MEDIUM := "MEDIUM"
  const HIGH := "HIGH"

  datatype Action = PASS | MODIFY | BLOCK

  datatype RiskContext = RiskContext(
    injectionScore: real,
    vectorScore: real,
    vectorReason: string,
    leakDetected: bool,
    leakReason: string,
    obfuscated: bool,
    piiCount: nat,
    hasPerson: bool,
    hasMedical: bool,
    outOfDomain: bool)

  datatype Verdict = Verdict(action: Action, reason: string, score: int)

  /** Go's int(x * 100) for a positive x. */
  function Truncated(x: real): (n: nat)
    requires x > 0.0
    ensures n as real <= x * 100.0 < n as real + 1.0
  {
    (x * 100.0).Floor
  }

  /** What a detector's score adds: nothing unless it is positive. */
  function Hundredths(x: real): nat {
    if x > 0.0 then Truncated(x) else 0
  }

  lemma Unfold(x: real)
    ensures Hundredths(x) == if x > 0.0 then Truncated(x) else 0
  {
  }

  /** A vector match close enough to block on its own. */
  predicate VectorHit(ctx: RiskContext) {
    ctx.vectorScore > 0.82
  }

  /** An injection attempt that also tries to hide. */
  predicate HiddenInjection(ctx: RiskContext) {
    ctx.injectionScore > 0.6 && ctx.obfuscated
  }

  /** A person together with medical terms. */
  predicate HealthData(ctx: RiskContext) {
    ctx.hasPerson && ctx.hasMedical
  }

  predicate Sensitive(ctx: RiskContext) {
    ctx.piiCount > 0 || ctx.hasPerson
  }

  function If(b: bool, points: nat): nat {
    if b then points else 0
  }

  /** The signals added up. */
  function Sum(ctx: RiskContext): nat {
    If(ctx.obfuscated, 30) + If(ctx.outOfDomain, 30) + If(ctx.leakDetected, 100) + If(ctx.hasPerson, 20)
    + Hundredths(ctx.injectionScore) + Hundredths(ctx.vectorScore)
  }

  /** The sum of signals from which a request is blocked. */
  function Bar(sensitivity: string): nat {
    if sensitivity == LOW then 90 else if sensitivity == HIGH then 50 else 80
  }

  /** When a request is blocked, as a condition on the signals alone. */
  predicate Blocks(ctx: RiskContext, sensitivity: string) {
    VectorHit(ctx) || HealthData(ctx) || HiddenInjection(ctx) || Sum(ctx) >= Bar(sensitivity)
  }

  function Decide(ctx: RiskContext, sensitivity: string): Action {
    if Blocks(ctx, sensitivity) then BLOCK else if Sensitive(ctx) then MODIFY else PASS
  }

  /** The score before the sensitivity adjustment. */
  function MatrixScore(ctx: RiskContext): nat {
    if HealthData(ctx) then 100
    else if HiddenInjection(ctx) then 100 + If(ctx.hasPerson, 20)
    else Sum(ctx)
  }

  function Score(ctx: RiskContext, sensitivity: string): nat {
    var score := MatrixScore(ctx);
    if sensitivity == LOW && score < 50 then 0 else score + If(sensitivity == HIGH, 10)
  }

  function VectorReason(ctx: RiskContext): (r: string)
    ensures r != ""
  {
    "Vector Guard Violation: " + ctx.vectorReason
  }

  function HealthReason(): (r: string)
    ensures r != ""
  {
    "CRITICAL: Health Data Correlation (Person + Medical)"
  }

  function InjectionReason(): (r: string)
    ensures r != ""
  {
    "CRITICAL: Obfuscated Injection Attempt"
  }

  function LeakReason(ctx: RiskContext): (r: string)
    ensures r != ""
  {
    "Prompt Leak: " + ctx.leakReason
  }

  const DOMAIN_REASON := "Out-of-Domain Anomaly"
  const PERSON_REASON := "PII Detected (Person Name)"
  const SCORE_REASON := "High Risk Score Exceeded"
  const DATA_REASON := "Sensitive Data Redacted"

  /** The reason the gravest finding gives, a vector match aside; none without a finding. */
  function FindingReason(ctx: RiskContext): string {
    if HealthData(ctx) then HealthReason()
    else if HiddenInjection(ctx) then InjectionReason()
    else if ctx.leakDetected then LeakReason(ctx)
    else if ctx.outOfDomain then DOMAIN_REASON
    else if ctx.hasPerson then PERSON_REASON
    else ""
  }

  /** The reason of a verdict: a vector match before all findings, and without any the action. */
  function ReasonFor(ctx: RiskContext, action: Action): string {
    if VectorHit(ctx) then VectorReason(ctx)
    else if FindingReason(ctx) != "" then FindingReason(ctx)
    else match action
      case BLOCK => SCORE_REASON
      case MODIFY => DATA_REASON
      case PASS => ""
  }

  lemma BlocksByScore(ctx: RiskContext, sensitivity: string)
    ensures Blocks(ctx, sensitivity) <==>
              VectorHit(ctx) || Score(ctx, sensitivity) >= if sensitivity == LOW then 90
                else if sensitivity == HIGH then 60 else 80
  {
    hide Sum;
  }

  /** Sections 1 and 2: base scores, then the combinations. */
  method Matrix(ctx: RiskContext) returns (score: nat, reason: string)
    ensures score == MatrixScore(ctx)
    ensures reason == FindingReason(ctx)
  {
    hide Hundredths, VectorReason, HealthReason, InjectionReason, LeakReason;
    score := 0;
    reason := "";

    if ctx.obfuscated {
      score := score + 30;
    }
    if ctx.outOfDomain {
      score := score + 30;
      if reason == "" {
        reason := DOMAIN_REASON;
      }
    }
    if ctx.leakDetected {
      score := score + 100;
      reason := LeakReason(ctx);
    }
    if ctx.injectionScore > 0.0 {
      score := score + Truncated(ctx.injectionScore);
    }
    if ctx.vectorScore > 0.0 {
      score := score + Truncated(ctx.vectorScore);
    }
    Unfold(ctx.injectionScore);
    Unfold(ctx.vectorScore);
    assert score + If(ctx.hasPerson, 20) == Sum(ctx);

    if ctx.injectionScore > 0.6 && ctx.obfuscated {
      score := 100;
      reason := InjectionReason();
    }
    if ctx.hasPerson && ctx.hasMedical {
      score := 100;
      reason := HealthReason();
    } else if ctx.hasPerson {
      score := score + 20;
      if reason == "" {
        reason := PERSON_REASON;
      }
    }
  }

  method AnalyzeRisk(ctx: RiskContext, sensitivity: string) returns (v: Verdict)
    ensures v.action == Decide(ctx, sensitivity)
    ensures v.score == Score(ctx, sensitivity)
    ensures v.action != PASS ==> v.reason != ""
    ensures v.reason == ReasonFor(ctx, v.action)
  {
    hide MatrixScore, HealthData, HiddenInjection, Blocks, VectorReason, FindingReason;
    var score, reason := Matrix(ctx);
    var action := PASS;

    var threshold := 80;
    if sensitivity == LOW {
      threshold := 90;
      if score < 50 {
        score := 0;
      }
    } else if sensitivity == HIGH {
      threshold := 60;
      score := score + 10;
    }
    BlocksByScore(ctx, sensitivity);

    if score >= threshold {
      action := BLOCK;
      if reason == "" {
        reason := SCORE_REASON;
      }
    } else if ctx.piiCount > 0 || ctx.hasPerson {
      action := MODIFY;
      if reason == "" {
        reason := DATA_REASON;
      }
    }

    if ctx.vectorScore > 0.82 {
      action := BLOCK;
      reason := VectorReason(ctx);
    }
    v := Verdict(action, reason, score);
  }

  // ---------- Monotonicity ----------

  /** Every signal of `a` is at least as strong in `b`. */
  predicate NoStrongerThan(a: RiskContext, b: RiskContext) {
    && a.injectionScore <= b.injectionScore
    && a.vectorScore <= b.vectorScore
    && (a.leakDetected ==> b.leakDetected)
    && (a.obfuscated ==> b.obfuscated)
    && a.piiCount <= b.piiCount
    && (a.hasPerson ==> b.hasPerson)
    && (a.hasMedical ==> b.hasMedical)
    && (a.outOfDomain ==> b.outOfDomain)
  }

  function Severity(action: Action): nat {
    if action == BLOCK then 2 else if action == MODIFY then 1 else 0
  }

  function Strictness(sensitivity: string): nat {
    if sensitivity == LOW then 0 else if sensitivity == HIGH then 2 else 1
  }

  lemma HundredthsMonotone(x: real, y: real)
    requires x <= y
    ensures Hundredths(x) <= Hundredths(y)
  {
    if x > 0.0 {
      assert Truncated(x) as real < Truncated(y) as real + 1.0;
    }
  }

  /** Stronger signals and a stricter setting never soften the action. */
  lemma ActionMonotone(a: RiskContext, b: RiskContext, sa: string, sb: string)
    requires NoStrongerThan(a, b) && Strictness(sa) <= Strictness(sb)
    ensures Severity(Decide(a, sa)) <= Severity(Decide(b, sb))
  {
    HundredthsMonotone(a.injectionScore, b.injectionScore);
    HundredthsMonotone(a.vectorScore, b.vectorScore);
    assert Sum(a) <= Sum(b) && Bar(sb) <= Bar(sa);
  }

  /** The score is not monotone: hiding an injection that already leaks lowers it. */
  lemma ScoreCanDrop(sensitivity: string)
    ensures exists a: RiskContext, b: RiskContext ::
              NoStrongerThan(a, b) && Score(b, sensitivity) < Score(a, sensitivity)
  {
    var a := RiskContext(0.7, 0.0, "", true, "", false, 0, false, false, false);
    var b := a.(obfuscated := true);
    assert Hundredths(0.7) == 70;
    assert NoStrongerThan(a, b) && Score(b, sensitivity) < Score(a, sensitivity);
  }

  /** The score drops between two ordered contexts only into one of the two forced verdicts,
      both of which block. */
  lemma DropsOnlyIntoBlock(a: RiskContext, b: RiskContext, sensitivity: string)
    requires NoStrongerThan(a, b) && Score(b, sensitivity) < Score(a, sensitivity)
    ensures (HealthData(b) || HiddenInjection(b)) && Decide(b, sensitivity) == BLOCK
  {
    hide Hundredths;
    HundredthsMonotone(a.injectionScore, b.injectionScore);
    HundredthsMonotone(a.vectorScore, b.vectorScore);
  }
}
