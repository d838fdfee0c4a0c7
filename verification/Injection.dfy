/** pkg/security/injection.go: heuristic scoring of a prompt, and the sliding window used
    for long ones.  Scores are hundredths.  `lower` stands for the rune-by-rune part of
    strings.ToLower, `space` for unicode.IsSpace, and what the external classifier answers is an
    arbitrary input. */
module Injection {
  import opened Strings

  const WINDOW := 500
  const OVERLAP := 100
  const STEP := WINDOW - OVERLAP
  /** From more words on the text is judged in windows. */
  const LONG := 1000

  const ROLE_PATTERNS: seq<string> := [
    "tu es maintenant", "you are now", "agis en tant que", "act as", "mode dan", "dan mode",
    "simulation", "roleplay", "adopt the persona", "ignore all previous"]
  const OVERRIDES: seq<string> := ["ignore", "oublie", "bypass"]
  const OVERRIDDEN: seq<string> := ["rule", "règle", "instruction", "safety"]
  const URGENCY_WORDS: seq<string> := ["maintenant", "now", "urgent", "immediately", "vite", "fast", "asap"]
  const SECRECY_WORDS: seq<string> := [
    "secret", "hidden", "caché", "confidentiel", "just between us", "entre nous", "ne dis pas"]
  const PERSUASION_WORDS: seq<string> := [
    "please", "s'il te plait", "i need", "j'ai besoin", "important", "authorized", "admin"]

  // ---------- Scoring one text ----------

  function ToLower(lower: char -> char, s: string): string {
    seq(|s|, i requires 0 <= i < |s| => lower(s[i]))
  }

  predicate ContainsAny(text: string, patterns: seq<string>) {
    exists k | 0 <= k < |patterns| :: Contains(text, patterns[k])
  }

  predicate Conflict(text: string) {
    ContainsAny(text, OVERRIDES) && ContainsAny(text, OVERRIDDEN)
  }

  function Points(text: string, patterns: seq<string>, points: nat): nat {
    if ContainsAny(text, patterns) then points else 0
  }

  function AttackWeight(text: string): nat {
    Points(text, URGENCY_WORDS, 10) + Points(text, SECRECY_WORDS, 15) + Points(text, PERSUASION_WORDS, 5)
  }

  function Risk(lower: char -> char, text: string): (r: nat)
    ensures r <= 100
  {
    var t := ToLower(lower, text);
    var score := Points(t, ROLE_PATTERNS, 40) + (if Conflict(t) then 50 else 0) + AttackWeight(t);
    if score > 100 then 100 else score
  }

  method HasAny(text: string, patterns: seq<string>) returns (found: bool)
    ensures found == ContainsAny(text, patterns)
  {
    for k := 0 to |patterns|
      invariant forall j | 0 <= j < k :: !Contains(text, patterns[j])
    {
      if Contains(text, patterns[k]) {
        return true;
      }
    }
    return false;
  }

  method CalculateAttackWeight(text: string) returns (weight: nat)
    ensures weight == AttackWeight(text)
  {
    weight := 0;
    var urgent := HasAny(text, URGENCY_WORDS);
    if urgent {
      weight := weight + 10;
    }
    var secret := HasAny(text, SECRECY_WORDS);
    if secret {
      weight := weight + 15;
    }
    var persuasive := HasAny(text, PERSUASION_WORDS);
    if persuasive {
      weight := weight + 5;
    }
  }

  method PredictRisk(lower: char -> char, text: string) returns (score: nat)
    ensures score == Risk(lower, text)
  {
    hide ContainsAny;
    score := 0;
    var t := ToLower(lower, text);
    var role := HasAny(t, ROLE_PATTERNS);
    if role {
      score := score + 40;
    }
    var overriding := HasAny(t, OVERRIDES);
    var overridden := HasAny(t, OVERRIDDEN);
    if overriding && overridden {
      score := score + 50;
    }
    var weight := CalculateAttackWeight(t);
    score := score + weight;
    if score > 100 {
      return 100;
    }
  }

  lemma ContainsAnyMonotone(s: string, t: string, patterns: seq<string>)
    requires Contains(s, t) && ContainsAny(t, patterns)
    ensures ContainsAny(s, patterns)
  {
    var k :| 0 <= k < |patterns| && Contains(t, patterns[k]);
    ContainsTransitive(s, t, patterns[k]);
  }

  lemma PointsMonotone(s: string, t: string, patterns: seq<string>, points: nat)
    requires Contains(s, t)
    ensures Points(t, patterns, points) <= Points(s, patterns, points)
  {
    if ContainsAny(t, patterns) {
      ContainsAnyMonotone(s, t, patterns);
    }
  }

  lemma LowerKeepsContainment(lower: char -> char, s: string, t: string)
    requires Contains(s, t)
    ensures Contains(ToLower(lower, s), ToLower(lower, t))
  {
    var i :| 0 <= i <= |s| && OccursAt(s, t, i);
    OccursChars(s, t, i);
    var ls, lt := ToLower(lower, s), ToLower(lower, t);
    assert ls[i..i + |lt|] == lt;
    ContainsAt(ls, lt, i);
  }

  /** A text is at least as risky as everything in it. */
  lemma RiskMonotone(lower: char -> char, s: string, t: string)
    requires Contains(s, t)
    ensures Risk(lower, t) <= Risk(lower, s)
  {
    var ls, lt := ToLower(lower, s), ToLower(lower, t);
    LowerKeepsContainment(lower, s, t);
    hide ContainsAny, Contains, ToLower;
    PointsMonotone(ls, lt, ROLE_PATTERNS, 40);
    PointsMonotone(ls, lt, URGENCY_WORDS, 10);
    PointsMonotone(ls, lt, SECRECY_WORDS, 15);
    PointsMonotone(ls, lt, PERSUASION_WORDS, 5);
    if Conflict(lt) {
      ContainsAnyMonotone(ls, lt, OVERRIDES);
      ContainsAnyMonotone(ls, lt, OVERRIDDEN);
    }
  }

  // ---------- The sliding window ----------

  /** strings.Join(words, " ") */
  function Join(words: seq<string>): string {
    if |words| == 0 then ""
    else if |words| == 1 then words[0]
    else words[0] + " " + Join(words[1..])
  }

  function WindowEnd(n: nat, i: nat): nat {
    if i + WINDOW > n then n else i + WINDOW
  }

  /** The risk of the window that starts at word `i`. */
  function WindowRisk(lower: char -> char, words: seq<string>, i: nat): nat
    requires i < |words|
  {
    Risk(lower, Join(words[i..WindowEnd(|words|, i)]))
  }

  predicate IsWindow(words: seq<string>, i: nat) {
    i < |words| && i % STEP == 0
  }

  /** `risk` is the greatest risk of a window, 0 when there is none. */
  ghost predicate IsGreatest(lower: char -> char, words: seq<string>, risk: nat) {
    && (forall i: nat | IsWindow(words, i) :: WindowRisk(lower, words, i) <= risk)
    && (risk == 0 || exists i: nat | IsWindow(words, i) :: WindowRisk(lower, words, i) == risk)
  }

  /** The early return never changes the answer. */
  method ScanWindowed(lower: char -> char, words: seq<string>) returns (maxRisk: nat)
    ensures IsGreatest(lower, words, maxRisk)
  {
    hide Risk, Join;
    maxRisk := 0;
    var i := 0;
    while i < |words|
      invariant i % STEP == 0
      invariant forall j: nat | j < i && IsWindow(words, j) :: WindowRisk(lower, words, j) <= maxRisk
      invariant maxRisk == 0 || exists j: nat | IsWindow(words, j) :: WindowRisk(lower, words, j) == maxRisk
      decreases |words| + STEP - i
    {
      var end := i + WINDOW;
      if end > |words| {
        end := |words|;
      }
      var risk := PredictRisk(lower, Join(words[i..end]));
      assert IsWindow(words, i) && risk == WindowRisk(lower, words, i);
      if risk > maxRisk {
        maxRisk := risk;
      }
      if maxRisk >= 100 {
        return 100;
      }
      assert forall j: nat | i < j < i + STEP :: j % STEP != 0;
      i := i + STEP;
    }
  }

  lemma {:induction false} JoinSplit(a: seq<string>, b: seq<string>)
    requires a != [] && b != []
    ensures Join(a + b) == Join(a) + " " + Join(b)
  {
    if |a| == 1 {
      assert (a + b)[1..] == b;
    } else {
      assert (a + b)[1..] == a[1..] + b;
      JoinSplit(a[1..], b);
      assert Join(a) == a[0] + " " + Join(a[1..]);
    }
  }

  lemma JoinContainsPrefix(a: seq<string>, b: seq<string>)
    ensures Contains(Join(a + b), Join(a))
  {
    hide Join;
    if a == [] {
      assert OccursAt(Join(a + b), Join(a), 0) by { EmptyJoin(a); }
    } else if b == [] {
      assert a + b == a;
      ContainsInMiddle("", Join(a), "");
      assert "" + Join(a) + "" == Join(a);
    } else {
      JoinSplit(a, b);
      ContainsInMiddle("", Join(a), " " + Join(b));
      assert "" + Join(a) + (" " + Join(b)) == Join(a) + " " + Join(b);
    }
  }

  lemma EmptyJoin(a: seq<string>)
    requires a == []
    ensures Join(a) == ""
  {
  }

  lemma JoinContainsSuffix(a: seq<string>, b: seq<string>)
    ensures Contains(Join(a + b), Join(b))
  {
    hide Join;
    if b == [] {
      assert OccursAt(Join(a + b), Join(b), 0) by { EmptyJoin(b); }
    } else if a == [] {
      assert a + b == b;
      ContainsInMiddle("", Join(b), "");
      assert "" + Join(b) + "" == Join(b);
    } else {
      JoinSplit(a, b);
      ContainsInMiddle(Join(a) + " ", Join(b), "");
      assert Join(a) + " " + Join(b) + "" == Join(a) + " " + Join(b);
    }
  }

  lemma SpanRisk(lower: char -> char, words: seq<string>, i: nat, j: nat)
    requires i <= j <= |words|
    ensures Risk(lower, Join(words[i..j])) <= Risk(lower, Join(words))
  {
    hide Risk, Join, Contains;
    var front := words[..j];
    assert front + words[j..] == words && words[..i] + words[i..j] == front;
    JoinContainsPrefix(front, words[j..]);
    JoinContainsSuffix(words[..i], words[i..j]);
    ContainsTransitive(Join(words), Join(front), Join(words[i..j]));
    RiskMonotone(lower, Join(words), Join(words[i..j]));
  }

  lemma LastStart(i: nat) returns (w: nat)
    ensures w <= i < w + STEP && w % STEP == 0
  {
    var q := i / STEP;
    w := STEP * q;
  }

  /** Every run of up to OVERLAP + 1 words lies inside one window. */
  lemma SpanInWindow(lower: char -> char, words: seq<string>, i: nat, j: nat) returns (w: nat)
    requires i < j <= |words| && j - i <= OVERLAP + 1
    ensures IsWindow(words, w) && Risk(lower, Join(words[i..j])) <= WindowRisk(lower, words, w)
  {
    hide Risk, Join;
    w := LastStart(i);
    var end := WindowEnd(|words|, w);
    var window := words[w..end];
    SpanRisk(lower, window, i - w, j - w);
    assert window[i - w..j - w] == words[i..j];
  }

  /** The sandwich: the windowed risk never exceeds the risk of the whole text, and is never
      below the risk of any run of up to 101 consecutive words. */
  lemma WindowedSandwich(lower: char -> char, words: seq<string>, risk: nat)
    requires IsGreatest(lower, words, risk)
    ensures risk <= Risk(lower, Join(words))
    ensures forall i: nat, j: nat | i < j <= |words| && j - i <= OVERLAP + 1 :: Risk(lower, Join(words[i..j])) <= risk
  {
    hide Risk, Join;
    if risk != 0 {
      var i: nat :| IsWindow(words, i) && WindowRisk(lower, words, i) == risk;
      SpanRisk(lower, words, i, WindowEnd(|words|, i));
    }
    forall i: nat, j: nat | i < j <= |words| && j - i <= OVERLAP + 1
      ensures Risk(lower, Join(words[i..j])) <= risk
    {
      var w := SpanInWindow(lower, words, i, j);
    }
  }

  // ---------- 101 words is the best guarantee ----------

  /** Letters each of which some pattern needs; without them only "rule" and "ignore" remain. */
  const RARE: string := "acdfjmpstvwy"

  predicate Plain(text: string) {
    forall c | c in RARE :: c !in text
  }

  predicate EachNeeds(patterns: seq<string>, letters: seq<char>) {
    |letters| == |patterns| && forall k | 0 <= k < |patterns| :: letters[k] in patterns[k]
  }

  lemma NeverMatches(text: string, patterns: seq<string>, letters: seq<char>)
    requires EachNeeds(patterns, letters)
    requires forall k | 0 <= k < |letters| :: letters[k] !in text
    ensures !ContainsAny(text, patterns)
  {
    forall k | 0 <= k < |patterns|
      ensures !Contains(text, patterns[k])
    {
      NotContained(text, patterns[k], letters[k]);
    }
  }

  lemma PlainNeverMatches(text: string, patterns: seq<string>, letters: seq<char>)
    requires Plain(text) && EachNeeds(patterns, letters)
    requires forall k | 0 <= k < |letters| :: letters[k] in RARE
    ensures !ContainsAny(text, patterns)
  {
    NeverMatches(text, patterns, letters);
  }

  lemma PlainHasNoRole(text: string)
    requires Plain(text)
    ensures !ContainsAny(text, ROLE_PATTERNS)
  {
    hide ContainsAny, Plain;
    PlainNeverMatches(text, ROLE_PATTERNS, ['t', 'y', 'a', 'a', 'm', 'd', 's', 'p', 'a', 'a']);
  }

  lemma PlainHasNoWeight(text: string)
    requires Plain(text)
    ensures AttackWeight(text) == 0
  {
    hide ContainsAny, Plain;
    PlainNeverMatches(text, URGENCY_WORDS, ['m', 'w', 't', 'm', 'v', 'f', 'a']);
    PlainNeverMatches(text, SECRECY_WORDS, ['s', 'd', 'c', 'c', 'j', 's', 'd']);
    PlainNeverMatches(text, PERSUASION_WORDS, ['p', 's', 'd', 'j', 'm', 'a', 'd']);
  }

  /** Neither half of a contradiction is one. */
  lemma HalfConflict(text: string)
    requires Plain(text) && ('l' !in text || ('i' !in text && 'b' !in text))
    ensures !Conflict(text)
  {
    if 'l' !in text {
      NeverMatches(text, OVERRIDDEN, ['l', 'l', 's', 's']);
    } else {
      NeverMatches(text, OVERRIDES, ['i', 'i', 'b']);
    }
  }

  /** Filler, "ignore", filler, "rule", and enough filler to make the text a long one: `n` words
      from "ignore" to "rule" that no window holds. */
  function SplitAttack(n: nat): (words: seq<string>)
    requires n > OVERLAP + 1
    ensures |words| == LONG + STEP + n && words[399] == "ignore" && words[398 + n] == "rule"
    ensures forall k | 0 <= k < |words| && k != 399 && k != 398 + n :: words[k] == "x"
  {
    seq(LONG + STEP + n, k => if k == 399 then "ignore" else if k == 398 + n then "rule" else "x")
  }

  predicate CharsFrom(text: string, letters: string) {
    forall c | c in text :: c in letters
  }

  lemma {:induction false} JoinChars(words: seq<string>, letters: string)
    requires ' ' in letters
    requires forall k | 0 <= k < |words| :: CharsFrom(words[k], letters)
    ensures CharsFrom(Join(words), letters)
  {
    if |words| > 1 {
      JoinChars(words[1..], letters);
    }
  }

  predicate Fixes(lower: char -> char, letters: string) {
    forall c | c in letters :: lower(c) == c
  }

  lemma LowerFixed(lower: char -> char, text: string, letters: string)
    requires Fixes(lower, letters) && CharsFrom(text, letters)
    ensures ToLower(lower, text) == text
  {
    forall i | 0 <= i < |text|
      ensures lower(text[i]) == text[i]
    {
      assert text[i] in text;
    }
  }

  lemma HalfAttackIsHarmless(lower: char -> char, text: string, letters: string)
    requires Fixes(lower, letters) && CharsFrom(text, letters)
    requires letters == "x ignore" || letters == "x rule"
    ensures Risk(lower, text) == 0
  {
    hide ContainsAny, Conflict, ToLower;
    LowerFixed(lower, text, letters);
    assert Plain(text);
    PlainHasNoRole(text);
    PlainHasNoWeight(text);
    HalfConflict(text);
  }

  lemma AttackWindow(lower: char -> char, n: nat, i: nat)
    requires Fixes(lower, "x ignore") && Fixes(lower, "x rule") && n > OVERLAP + 1
    requires IsWindow(SplitAttack(n), i)
    ensures WindowRisk(lower, SplitAttack(n), i) == 0
  {
    hide Risk, Join, SplitAttack;
    var words := SplitAttack(n);
    var letters := if i == 0 then "x ignore" else "x rule";
    assert i == 0 || i >= STEP;
    var window := words[i..WindowEnd(|words|, i)];
    forall k | 0 <= k < |window|
      ensures CharsFrom(window[k], letters)
    {
      assert window[k] == words[i + k];
    }
    JoinChars(window, letters);
    HalfAttackIsHarmless(lower, Join(window), letters);
  }

  lemma ConflictRisk(lower: char -> char, text: string)
    requires Fixes(lower, "x ignorule") && CharsFrom(text, "x ignorule")
    requires Contains(text, "ignore") && Contains(text, "rule")
    ensures Risk(lower, text) == 50
  {
    LowerFixed(lower, text, "x ignorule");
    assert Plain(text);
    PlainHasNoRole(text);
    PlainHasNoWeight(text);
    assert Contains(text, OVERRIDES[0]) && Contains(text, OVERRIDDEN[0]);
  }

  /** A longer run of words in a long text can carry a contradiction worth 50 points that the
      windowed scan scores 0.  `lower` need only leave these small letters alone. */
  lemma LongerSpansAreMissed(lower: char -> char, n: nat)
    requires Fixes(lower, "x ignorule") && n > OVERLAP + 1
    ensures |SplitAttack(n)| > LONG
    ensures IsGreatest(lower, SplitAttack(n), 0)
    ensures Risk(lower, Join(SplitAttack(n)[399..399 + n])) == 50
  {
    hide Risk, Join, SplitAttack;
    assert Fixes(lower, "x ignore") && Fixes(lower, "x rule");
    forall i: nat | IsWindow(SplitAttack(n), i)
      ensures WindowRisk(lower, SplitAttack(n), i) <= 0
    {
      AttackWindow(lower, n, i);
    }
    AttackSpan(lower, SplitAttack(n)[399..399 + n], n);
  }

  lemma AttackSpan(lower: char -> char, span: seq<string>, n: nat)
    requires Fixes(lower, "x ignorule") && n > OVERLAP + 1
    requires span == SplitAttack(n)[399..399 + n]
    ensures Risk(lower, Join(span)) == 50
  {
    hide Risk, Join, SplitAttack;
    forall k | 0 <= k < |span|
      ensures CharsFrom(span[k], "x ignorule")
    {
      assert span[k] == SplitAttack(n)[399 + k];
    }
    JoinChars(span, "x ignorule");
    assert span == ["ignore"] + span[1..] && span == span[..n - 1] + ["rule"];
    JoinContainsPrefix(["ignore"], span[1..]);
    JoinContainsSuffix(span[..n - 1], ["rule"]);
    JoinOne("ignore");
    JoinOne("rule");
    ConflictRisk(lower, Join(span));
  }

  /** The risk of every run of `n` words is at most what the windowed scan finds. */
  ghost predicate SpansSeen(lower: char -> char, words: seq<string>, n: nat, risk: nat) {
    forall i: nat | i + n <= |words| :: SpanRiskAt(lower, words, i, n) <= risk
  }

  function SpanRiskAt(lower: char -> char, words: seq<string>, i: nat, n: nat): nat
    requires i + n <= |words|
  {
    Risk(lower, Join(words[i..i + n]))
  }

  /** How long a phrase is sure to be judged as a whole: for exactly the lengths up to 101 words
      the windowed scan of every long text is at least as severe as every run of that length. */
  lemma SpanGuaranteeIff(lower: char -> char, n: nat)
    requires Fixes(lower, "x ignorule") && n > 0
    ensures (forall words, risk | |words| > LONG && IsGreatest(lower, words, risk) :: SpansSeen(lower, words, n, risk))
        <==> n <= OVERLAP + 1
  {
    hide Risk, Join, IsGreatest, SplitAttack;
    if n <= OVERLAP + 1 {
      forall words, risk | |words| > LONG && IsGreatest(lower, words, risk)
        ensures SpansSeen(lower, words, n, risk)
      {
        WindowedSandwich(lower, words, risk);
      }
    } else {
      LongerSpansAreMissed(lower, n);
      assert SpanRiskAt(lower, SplitAttack(n), 399, n) == 50;
      assert !SpansSeen(lower, SplitAttack(n), n, 0);
    }
  }

  lemma JoinOne(word: string)
    ensures Join([word]) == word
  {
  }

  // ---------- The whole detector ----------

  datatype GuardAnswer = NoGuard | GuardError | Classified(blocked: bool, score: nat)

  datatype BlockReason = NoReason | PromptGuard | IntentBlock(score: nat)

  datatype Detection = Detection(blocked: bool, score: nat, reason: BlockReason)

  /** Where the word that the text starts with ends. */
  function WordEnd(space: char -> bool, s: string): (n: nat)
    ensures n <= |s| && (n < |s| ==> space(s[n]))
    ensures forall i | 0 <= i < n :: !space(s[i])
  {
    if s == "" || space(s[0]) then 0 else 1 + WordEnd(space, s[1..])
  }

  /** strings.Fields */
  function Fields(space: char -> bool, s: string): seq<string>
    decreases |s|
  {
    if s == "" then []
    else if space(s[0]) then Fields(space, s[1..])
    else [s[..WordEnd(space, s)]] + Fields(space, s[WordEnd(space, s)..])
  }

  predicate IsWord(space: char -> bool, w: string) {
    w != "" && forall i | 0 <= i < |w| :: !space(w[i])
  }

  /** The score of the local analysis: in windows for long texts, else of the text as it is. */
  ghost predicate IsLocalScore(lower: char -> char, space: char -> bool, text: string, score: nat) {
    var words := Fields(space, text);
    if |words| > LONG then IsGreatest(lower, words, score) else score == Risk(lower, text)
  }

  method Detect(guard: GuardAnswer, lower: char -> char, space: char -> bool, text: string, threshold: int)
    returns (detection: Detection)
    ensures guard.Classified? && guard.blocked ==> detection == Detection(true, guard.score, PromptGuard)
    ensures !(guard.Classified? && guard.blocked) ==>
              && IsLocalScore(lower, space, text, detection.score)
              && detection.blocked == (detection.score >= threshold)
              && detection.reason == if detection.blocked then IntentBlock(detection.score) else NoReason
  {
    hide Risk, IsGreatest, Fields;
    if guard.Classified? && guard.blocked {
      return Detection(true, guard.score, PromptGuard);
    }
    var words := Fields(space, text);
    var riskScore;
    if |words| > LONG {
      riskScore := ScanWindowed(lower, words);
    } else {
      riskScore := PredictRisk(lower, text);
    }
    if riskScore >= threshold {
      return Detection(true, riskScore, IntentBlock(riskScore));
    }
    return Detection(false, riskScore, NoReason);
  }

  lemma {:induction false} OneField(space: char -> bool, w: string)
    requires IsWord(space, w)
    ensures WordEnd(space, w) == |w| && Fields(space, w) == [w]
  {
    WordEndIs(space, w, |w|);
    assert w[..|w|] == w && w[|w|..] == "";
  }

  lemma {:induction false} WordEndIs(space: char -> bool, s: string, n: nat)
    requires n <= |s| && (n < |s| ==> space(s[n])) && forall i | 0 <= i < n :: !space(s[i])
    ensures WordEnd(space, s) == n
    decreases n
  {
    if n > 0 {
      WordEndIs(space, s[1..], n - 1);
    }
  }

  /** One more word behind a blank. */
  lemma {:induction false} FieldsAppend(space: char -> bool, s: string, w: string)
    requires space(' ') && IsWord(space, w)
    ensures Fields(space, s + " " + w) == Fields(space, s) + [w]
    decreases |s|
  {
    var t := s + " " + w;
    if s == "" {
      assert t[1..] == w;
      OneField(space, w);
    } else if space(s[0]) {
      assert t[1..] == s[1..] + " " + w;
      FieldsAppend(space, s[1..], w);
    } else {
      var n := WordEnd(space, s);
      assert n > 0;
      assert t[n] == (if n < |s| then s[n] else ' ');
      WordEndIs(space, t, n);
      assert t[..n] == s[..n] && t[n..] == s[n..] + " " + w;
      FieldsAppend(space, s[n..], w);
      assert [s[..n]] + (Fields(space, s[n..]) + [w]) == ([s[..n]] + Fields(space, s[n..])) + [w];
    }
  }

  /** Words joined by blanks are found again. */
  lemma {:induction false} FieldsJoin(space: char -> bool, words: seq<string>)
    requires space(' ') && forall k | 0 <= k < |words| :: IsWord(space, words[k])
    ensures Fields(space, Join(words)) == words
  {
    hide IsWord;
    if |words| == 0 {
    } else if |words| == 1 {
      OneField(space, words[0]);
    } else {
      var n := |words| - 1;
      FieldsJoin(space, words[..n]);
      assert words == words[..n] + [words[n]];
      JoinSplit(words[..n], [words[n]]);
      FieldsAppend(space, Join(words[..n]), words[n]);
    }
  }

  /** Another word makes no window less risky. */
  lemma WindowGrows(lower: char -> char, words: seq<string>, w: string, i: nat)
    requires i < |words|
    ensures WindowRisk(lower, words, i) <= WindowRisk(lower, words + [w], i)
  {
    hide Risk, Join, Contains;
    var words', end, end' := words + [w], WindowEnd(|words|, i), WindowEnd(|words| + 1, i);
    assert words'[i..end'] == words[i..end] + words'[end..end'];
    JoinContainsPrefix(words[i..end], words'[end..end']);
    RiskMonotone(lower, Join(words'[i..end']), Join(words[i..end]));
  }

  /** Another word lowers the local score in one case only: it makes the text a long one, and
      every window of it is less risky than the text was as a whole. */
  lemma ScoreDropsIff(lower: char -> char, space: char -> bool, text: string, w: string, score: nat, score': nat)
    requires space(' ') && IsWord(space, w)
    requires IsLocalScore(lower, space, text, score) && IsLocalScore(lower, space, text + " " + w, score')
    ensures var words := Fields(space, text) + [w];
            score' < score <==>
              && |words| == LONG + 1
              && forall i: nat | IsWindow(words, i) :: WindowRisk(lower, words, i) < Risk(lower, text)
  {
    hide Risk, Fields, WindowRisk;
    FieldsAppend(space, text, w);
    var words := Fields(space, text);
    if |words| < LONG {
      hide Contains;
      ContainsInMiddle("", text, " " + w);
      assert "" + text + (" " + w) == text + " " + w;
      RiskMonotone(lower, text + " " + w, text);
    } else if |words| > LONG {
      if i: nat :| IsWindow(words, i) && WindowRisk(lower, words, i) == score {
        WindowGrows(lower, words, w, i);
        assert IsWindow(words + [w], i);
      }
    } else {
      assert IsWindow(words + [w], 0);
    }
  }

  /** A contradiction over a whole text of 1000 words. */
  function WideAttack(): (words: seq<string>)
    ensures |words| == LONG && words[0] == "ignore" && words[LONG - 1] == "rule"
    ensures forall k | 0 < k < LONG - 1 :: words[k] == "x"
  {
    seq(LONG, k => if k == 0 then "ignore" else if k == LONG - 1 then "rule" else "x")
  }

  /** An instance: judged whole it scores 50, with one more filler word it scores 0. */
  lemma OneWordHides(lower: char -> char, space: char -> bool)
    requires Fixes(lower, "x ignorule") && space(' ') && forall c | c in "xignorule" :: !space(c)
    ensures IsLocalScore(lower, space, Join(WideAttack()), 50)
    ensures IsLocalScore(lower, space, Join(WideAttack()) + " " + "x", 0)
  {
    hide Risk, Join, WideAttack, Fields, WindowRisk;
    var words := WideAttack();
    forall k | 0 <= k < |words|
      ensures IsWord(space, words[k]) && CharsFrom(words[k], "x ignorule")
    {
    }
    FieldsJoin(space, words);
    WideRisk(lower, words);
    FieldsAppend(space, Join(words), "x");
    forall i: nat | IsWindow(words + ["x"], i)
      ensures WindowRisk(lower, words + ["x"], i) <= 0
    {
      WideWindow(lower, words, i);
    }
  }

  lemma WideRisk(lower: char -> char, words: seq<string>)
    requires Fixes(lower, "x ignorule") && words == WideAttack()
    ensures Risk(lower, Join(words)) == 50
  {
    hide Risk, Join;
    assert forall k | 0 <= k < |words| :: CharsFrom(words[k], "x ignorule");
    hide WideAttack;
    JoinChars(words, "x ignorule");
    assert words == ["ignore"] + words[1..] && words == words[..LONG - 1] + ["rule"];
    JoinContainsPrefix(["ignore"], words[1..]);
    JoinContainsSuffix(words[..LONG - 1], ["rule"]);
    JoinOne("ignore");
    JoinOne("rule");
    ConflictRisk(lower, Join(words));
  }

  lemma WideWindow(lower: char -> char, words: seq<string>, i: nat)
    requires Fixes(lower, "x ignorule") && words == WideAttack() && IsWindow(words + ["x"], i)
    ensures WindowRisk(lower, words + ["x"], i) == 0
  {
    hide Risk, Join, WideAttack;
    assert Fixes(lower, "x ignore") && Fixes(lower, "x rule");
    var words' := words + ["x"];
    var letters := if i == 0 then "x ignore" else "x rule";
    var window := words'[i..WindowEnd(|words'|, i)];
    forall k | 0 <= k < |window|
      ensures CharsFrom(window[k], letters)
    {
      assert window[k] == words'[i + k];
    }
    JoinChars(window, letters);
    HalfAttackIsHarmless(lower, Join(window), letters);
  }
}
