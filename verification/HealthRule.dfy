/** Where the sanitizer meets the risk matrix: pkg/proxy/handler.go reads "person" and
    "medical" off the names of the placeholders that pkg/sanitizer/sanitizer.go hands out. */
module HealthRule {
  import opened Strings
  import opened Policy
  import opened Gateway
  import Sanitizing

  /** The names in front of the numbers; a medical entity is a SENSITIVE_ENTITY. */
  const PII_NAMES: seq<string> := ["EMAIL", "PHONE", "CREDIT_CARD", "PERSON_NAME", "LOCATION", "ORG",
    "SENSITIVE_ENTITY"]
  const SECRET_NAMES: seq<string> := ["PASSWORD_CONTEXT", "HIGH_ENTROPY_SECRET"]
  const KEY_TYPES: seq<string> := ["AWS", "GitHub", "Stripe", "OpenAI"]

  predicate IsNumber(tag: string) {
    forall i | 0 <= i < |tag| :: IsDigit(tag[i], 10)
  }

  predicate IsName(name: string) {
    || name in PII_NAMES
    || name in SECRET_NAMES
    || exists k | 0 <= k < |KEY_TYPES| :: name == KEY_TYPES[k] + "_KEY"
  }

  /** What the handler's calls of `Sanitize` can find. */
  predicate Possible(f: Sanitizing.Finding) {
    (IsName(f.name) && IsNumber(f.tag)) || (f.name == "IBAN" && f.tag == "MASKED")
  }

  predicate Unmedical(name: string) {
    ('M' !in name || 'D' !in name) && ('H' !in name || 'A' !in name)
  }

  lemma PiiUnmedical(name: string)
    requires name in PII_NAMES
    ensures Unmedical(name)
  {
  }

  lemma SecretUnmedical(name: string)
    requires name in SECRET_NAMES
    ensures Unmedical(name)
  {
  }

  lemma KeyUnmedical(k: nat)
    requires k < |KEY_TYPES|
    ensures Unmedical(KEY_TYPES[k] + "_KEY")
  {
  }

  lemma NameUnmedical(name: string)
    requires IsName(name)
    ensures Unmedical(name)
  {
    hide PII_NAMES, SECRET_NAMES, Unmedical;
    if name in PII_NAMES {
      PiiUnmedical(name);
    } else if name in SECRET_NAMES {
      SecretUnmedical(name);
    } else {
      var k :| 0 <= k < |KEY_TYPES| && name == KEY_TYPES[k] + "_KEY";
      KeyUnmedical(k);
    }
  }

  lemma NumberLacks(tag: string, c: char)
    requires IsNumber(tag) && !IsDigit(c, 10)
    ensures c !in tag
  {
  }

  lemma PlaceholderLacks(f: Sanitizing.Finding, c: char)
    requires c !in f.name && c !in f.tag && c !in "[_]"
    ensures c !in Sanitizing.PlaceholderOf(f)
  {
    assert '[' in "[_]" && '_' in "[_]" && ']' in "[_]";
  }

  lemma NeverMedical(f: Sanitizing.Finding)
    requires Possible(f)
    ensures !Contains(Sanitizing.PlaceholderOf(f), "MEDICAL") && !Contains(Sanitizing.PlaceholderOf(f), "HEALTH")
  {
    var m, h := 'C', 'H';
    hide IsName, IsNumber;
    if IsName(f.name) && IsNumber(f.tag) {
      NameUnmedical(f.name);
      m := if 'M' !in f.name then 'M' else 'D';
      h := if 'H' !in f.name then 'H' else 'A';
      NumberLacks(f.tag, m);
      NumberLacks(f.tag, h);
    }
    assert m in "MEDICAL" && h in "HEALTH";
    PlaceholderLacks(f, m);
    PlaceholderLacks(f, h);
    NotContained(Sanitizing.PlaceholderOf(f), "MEDICAL", m);
    NotContained(Sanitizing.PlaceholderOf(f), "HEALTH", h);
  }

  /** The health-data rule of the risk matrix never fires for a request that goes through the
      handler: no placeholder name ever says that a medical term was found. */
  lemma HealthRuleNeverFires(cfg: Config, r: Request, input: string, findings: seq<Sanitizing.Finding>)
    requires forall i | 0 <= i < |findings| :: Possible(findings[i])
    requires r.signals.mapping == Sanitizing.ApplyAll(input, findings).mapping.Keys
    ensures !HealthData(Gather(cfg, r))
  {
    forall k | k in r.signals.mapping
      ensures !Contains(k, "MEDICAL") && !Contains(k, "HEALTH")
    {
      Sanitizing.MappedPlaceholders(input, findings, k);
      var i :| 0 <= i < |findings| && Sanitizing.PlaceholderOf(findings[i]) == k;
      NeverMedical(findings[i]);
    }
  }

  /** A person's name, on the other hand, is noticed and sends the request on redacted or not
      at all. */
  lemma PersonIsNoticed(cfg: Config, r: Request, tag: string)
    requires Sanitizing.Placeholder("PERSON_NAME", tag) in r.signals.mapping
    ensures Gather(cfg, r).hasPerson && Decision(cfg, r) != PASS
  {
    var k := Sanitizing.Placeholder("PERSON_NAME", tag);
    assert k[1..1 + 6] == "PERSON";
    ContainsAt(k, "PERSON", 1);
  }
}
