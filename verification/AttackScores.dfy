/** pkg/security/injection.go PredictRisk, from the outside: which words of the lowered text count,
    and how many hundredths each kind of them is worth. */
module AttackScores {
  import opened Strings
  import opened Injection

  predicate ChangesRole(t: string) {
    || Contains(t, "tu es maintenant") || Contains(t, "you are now")
    || Contains(t, "agis en tant que") || Contains(t, "act as")
    || Contains(t, "mode dan") || Contains(t, "dan mode")
    || Contains(t, "simulation") || Contains(t, "roleplay")
    || Contains(t, "adopt the persona") || Contains(t, "ignore all previous")
  }

  predicate Contradicts(t: string) {
    && (Contains(t, "ignore") || Contains(t, "oublie") || Contains(t, "bypass"))
    && (Contains(t, "rule") || Contains(t, "règle") || Contains(t, "instruction") || Contains(t, "safety"))
  }

  predicate Urges(t: string) {
    || Contains(t, "maintenant") || Contains(t, "now") || Contains(t, "urgent") || Contains(t, "immediately")
    || Contains(t, "vite") || Contains(t, "fast") || Contains(t, "asap")
  }

  predicate Conceals(t: string) {
    || Contains(t, "secret") || Contains(t, "hidden") || Contains(t, "caché") || Contains(t, "confidentiel")
    || Contains(t, "just between us") || Contains(t, "entre nous") || Contains(t, "ne dis pas")
  }

  predicate Pleads(t: string) {
    || Contains(t, "please") || Contains(t, "s'il te plait") || Contains(t, "i need") || Contains(t, "j'ai besoin")
    || Contains(t, "important") || Contains(t, "authorized") || Contains(t, "admin")
  }

  /** `t` is the text with every rune lowered. */
  predicate IsLowered(lower: char -> char, text: string, t: string) {
    |t| == |text| && forall i | 0 <= i < |text| :: t[i] == lower(text[i])
  }

  lemma LoweredIs(lower: char -> char, text: string, t: string)
    requires IsLowered(lower, text, t)
    ensures ToLower(lower, text) == t
  {
  }

  lemma AnyOfThree(t: string, p: seq<string>)
    requires |p| == 3
    ensures ContainsAny(t, p) <==> Contains(t, p[0]) || Contains(t, p[1]) || Contains(t, p[2])
  {
  }

  lemma AnyOfFour(t: string, p: seq<string>)
    requires |p| == 4
    ensures ContainsAny(t, p) <==> Contains(t, p[0]) || Contains(t, p[1]) || Contains(t, p[2]) || Contains(t, p[3])
  {
  }

  lemma SplitLists(t: string, p: seq<string>, n: nat)
    requires n <= |p|
    ensures ContainsAny(t, p) <==> ContainsAny(t, p[..n]) || ContainsAny(t, p[n..])
  {
    if k :| 0 <= k < |p| && Contains(t, p[k]) {
      assert if k < n then p[..n][k] == p[k] else p[n..][k - n] == p[k];
    }
    if k :| 0 <= k < |p[n..]| && Contains(t, p[n..][k]) {
      assert p[n..][k] == p[k + n];
    }
  }

  lemma SevenWords(t: string, p: seq<string>)
    requires |p| == 7
    ensures ContainsAny(t, p)
       <==> || Contains(t, p[0]) || Contains(t, p[1]) || Contains(t, p[2]) || Contains(t, p[3])
            || Contains(t, p[4]) || Contains(t, p[5]) || Contains(t, p[6])
  {
  }

  lemma RoleIs(t: string)
    ensures ContainsAny(t, ROLE_PATTERNS) <==> ChangesRole(t)
  {
    hide Contains, ContainsAny;
    SplitLists(t, ROLE_PATTERNS, 3);
    AnyOfThree(t, ROLE_PATTERNS[..3]);
    SevenWords(t, ROLE_PATTERNS[3..]);
  }

  lemma ConflictIs(t: string)
    ensures Conflict(t) <==> Contradicts(t)
  {
    hide Contains, ContainsAny;
    AnyOfThree(t, OVERRIDES);
    AnyOfFour(t, OVERRIDDEN);
  }

  lemma UrgencyIs(t: string)
    ensures ContainsAny(t, URGENCY_WORDS) <==> Urges(t)
  {
    hide Contains, ContainsAny;
    SevenWords(t, URGENCY_WORDS);
  }

  lemma SecrecyIs(t: string)
    ensures ContainsAny(t, SECRECY_WORDS) <==> Conceals(t)
  {
    hide Contains, ContainsAny;
    SevenWords(t, SECRECY_WORDS);
  }

  lemma PersuasionIs(t: string)
    ensures ContainsAny(t, PERSUASION_WORDS) <==> Pleads(t)
  {
    hide Contains, ContainsAny;
    SevenWords(t, PERSUASION_WORDS);
  }

  /** The score of every text, from the words in it. */
  lemma ScoreIs(lower: char -> char, text: string, t: string)
    requires IsLowered(lower, text, t)
    ensures var sum := (if ChangesRole(t) then 40 else 0) + (if Contradicts(t) then 50 else 0)
                       + (if Urges(t) then 10 else 0) + (if Conceals(t) then 15 else 0) + (if Pleads(t) then 5 else 0);
            Risk(lower, text) == if sum > 100 then 100 else sum
  {
    LoweredIs(lower, text, t);
    RoleIs(t);
    ConflictIs(t);
    UrgencyIs(t);
    SecrecyIs(t);
    PersuasionIs(t);
    hide ContainsAny, ChangesRole, Contradicts, Urges, Conceals, Pleads, Conflict, ToLower;
  }

  // ---------- Texts of exactly one kind ----------

  lemma NowIsNoRole()
    ensures !ContainsAny("now", ROLE_PATTERNS)
  {
    hide Contains, ContainsAny;
    NeverMatches("now", ROLE_PATTERNS, "tyaammsrai");
  }

  lemma SecretIsNoRole()
    ensures !ContainsAny("secret", ROLE_PATTERNS)
  {
    hide Contains, ContainsAny;
    NeverMatches("secret", ROLE_PATTERNS, "uyaammioai");
  }

  lemma AdminIsNoRole()
    ensures !ContainsAny("admin", ROLE_PATTERNS)
  {
    hide Contains, ContainsAny;
    NeverMatches("admin", ROLE_PATTERNS, "tygcoosrpg");
  }

  lemma NoOverride()
    ensures !ContainsAny("act as", OVERRIDES)
    ensures !ContainsAny("now", OVERRIDES)
    ensures !ContainsAny("secret", OVERRIDES)
    ensures !ContainsAny("admin", OVERRIDES)
  {
    hide Contains, ContainsAny;
    NeverMatches("act as", OVERRIDES, "iob");
    NeverMatches("now", OVERRIDES, "iub");
    NeverMatches("secret", OVERRIDES, "iob");
    NeverMatches("admin", OVERRIDES, "gob");
  }

  lemma NoUrgency()
    ensures !ContainsAny("act as", URGENCY_WORDS)
    ensures !ContainsAny("secret", URGENCY_WORDS)
    ensures !ContainsAny("admin", URGENCY_WORDS)
  {
    hide Contains, ContainsAny;
    NeverMatches("act as", URGENCY_WORDS, "mnumvfp");
    NeverMatches("secret", URGENCY_WORDS, "mnuivfa");
    NeverMatches("admin", URGENCY_WORDS, "touevfs");
  }

  lemma NoSecrecy()
    ensures !ContainsAny("act as", SECRECY_WORDS)
    ensures !ContainsAny("now", SECRECY_WORDS)
    ensures !ContainsAny("admin", SECRECY_WORDS)
  {
    hide Contains, ContainsAny;
    NeverMatches("act as", SECRECY_WORDS, "rhhfjnn");
    NeverMatches("now", SECRECY_WORDS, "shccjtd");
    NeverMatches("admin", SECRECY_WORDS, "shccjee");
  }

  lemma NoPersuasion()
    ensures !ContainsAny("act as", PERSUASION_WORDS)
    ensures !ContainsAny("now", PERSUASION_WORDS)
    ensures !ContainsAny("secret", PERSUASION_WORDS)
  {
    hide Contains, ContainsAny;
    NeverMatches("act as", PERSUASION_WORDS, "plijmud");
    NeverMatches("now", PERSUASION_WORDS, "psijiaa");
    NeverMatches("secret", PERSUASION_WORDS, "piijiaa");
  }

  lemma Itself(t: string)
    ensures Contains(t, t)
  {
    assert t[0..0 + |t|] == t;
    ContainsAt(t, t, 0);
  }

  lemma OnlyConflict(lower: char -> char)
    requires Fixes(lower, "x ignorule")
    ensures Risk(lower, "ignore rule") == 50
  {
    assert OccursAt("ignore rule", "ignore", 0) && OccursAt("ignore rule", "rule", 7);
    ConflictRisk(lower, "ignore rule");
  }

  /** A text that lowering leaves alone. */
  lemma RiskAsItIs(lower: char -> char, t: string)
    requires Fixes(lower, t) && !ContainsAny(t, OVERRIDES)
    ensures Risk(lower, t) == Points(t, ROLE_PATTERNS, 40) + AttackWeight(t)
  {
    hide ContainsAny;
    LoweredIs(lower, t, t);
  }

  /** One text for each kind, which shows nothing of the other kinds. */
  lemma OneKind(lower: char -> char)
    requires Fixes(lower, "act as") && Fixes(lower, "x ignorule")
    requires Fixes(lower, "now") && Fixes(lower, "secret") && Fixes(lower, "admin")
    ensures Risk(lower, "act as") == 40
    ensures Risk(lower, "ignore rule") == 50
    ensures Risk(lower, "secret") == 15
    ensures Risk(lower, "now") == 10
    ensures Risk(lower, "admin") == 5
  {
    hide Risk, Fixes, Contains, ContainsAny;
    OnlyConflict(lower);
    NowIsNoRole();
    SecretIsNoRole();
    AdminIsNoRole();
    NoOverride();
    NoUrgency();
    NoSecrecy();
    NoPersuasion();
    Itself("act as");
    RoleIs("act as");
    RiskAsItIs(lower, "act as");
    Itself("secret");
    SecrecyIs("secret");
    RiskAsItIs(lower, "secret");
    Itself("now");
    UrgencyIs("now");
    RiskAsItIs(lower, "now");
    Itself("admin");
    PersuasionIs("admin");
    RiskAsItIs(lower, "admin");
  }
}
