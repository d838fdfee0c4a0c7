/** pkg/cache/redis.go: the shared store, as the client's operations see it.  Times are
    milliseconds on one clock; a key is gone from the moment its expiry is reached.
    Operations are assumed to succeed. */
module Redis {
  import opened Strings

  datatype Value = Counter(n: int) | Text(s: string)

  datatype Entry = Entry(value: Value, expiresAt: int)

  type Db = map<string, Entry>

  predicate Live(db: Db, key: string, now: int) {
    key in db && now < db[key].expiresAt
  }

  /** INCR's result: a missing or expired key counts from zero, text is an error (0). */
  function CounterAfter(db: Db, key: string, now: int): int {
    if !Live(db, key, now) then 1
    else match db[key].value
      case Counter(n) => n + 1
      case Text(_) => 0
  }

  /** INCR followed by EXPIRE in one pipeline: the expiry moves with every call. */
  function AfterIncr(db: Db, key: string, ttl: int, now: int): Db {
    var value := if Live(db, key, now) && db[key].value.Text? then db[key].value
      else Counter(CounterAfter(db, key, now));
    db[key := Entry(value, now + ttl)]
  }

  function AfterSet(db: Db, key: string, text: string, ttl: int, now: int): Db {
    db[key := Entry(Text(text), now + ttl)]
  }

  /** GET's result; "" when the key is missing. */
  function GetText(db: Db, key: string, now: int): string {
    if !Live(db, key, now) then ""
    else match db[key].value
      case Counter(n) => Decimal(n)
      case Text(s) => s
  }

  function OrgPrefix(orgId: int): string {
    "org:" + Decimal(orgId) + ":"
  }

  /** org:{orgID}:{hash} */
  function OrgKey(orgId: int, hash: string): string {
    OrgPrefix(orgId) + hash
  }

  function BlockedKey(userId: string): string {
    "user:" + userId + ":blocked"
  }

  /** SCAN MATCH "org:{orgID}:*" and DEL: the pattern's only wildcard is its last character. */
  function AfterInvalidate(db: Db, orgId: int): Db {
    map key | key in db && !(OrgPrefix(orgId) <= key) :: db[key]
  }

  /** The user is read back from a lock's key. */
  lemma BlockedKeyInjective(u: string, v: string)
    requires BlockedKey(u) == BlockedKey(v)
    ensures u == v
  {
    var k := BlockedKey(u);
    assert |u| == |v| && k[5..5 + |u|] == u && BlockedKey(v)[5..5 + |v|] == v;
  }

  /** No counter reads as "BLOCKED". */
  lemma NotANumber(db: Db, key: string, now: int)
    ensures GetText(db, key, now) == "BLOCKED" <==> Live(db, key, now) && db[key].value == Text("BLOCKED")
  {
    if Live(db, key, now) && db[key].value.Counter? {
      DecimalAvoids(db[key].value.n, 'B');
      assert "BLOCKED"[0] == 'B';
    }
  }

  class Client {
    var db: Db

    constructor ()
      ensures db == map[]
    {
      db := map[];
    }

    method Incr(key: string, ttl: int, now: int) returns (n: int)
      modifies this
      ensures n == CounterAfter(old(db), key, now)
      ensures db == AfterIncr(old(db), key, ttl, now)
    {
      n := 1;
      var value := Counter(1);
      if key in db && now < db[key].expiresAt {
        match db[key].value {
          case Counter(m) =>
            n := m + 1;
            value := Counter(n);
          case Text(_) =>
            n := 0;
            value := db[key].value;
        }
      }
      db := db[key := Entry(value, now + ttl)];
    }

    method GetVerdict(hash: string, now: int) returns (verdict: string)
      ensures verdict == GetText(db, hash, now)
      ensures verdict != "" ==> Live(db, hash, now)
      ensures forall s | Live(db, hash, now) && db[hash].value == Text(s) :: verdict == s
    {
      verdict := "";
      if hash in db && now < db[hash].expiresAt {
        match db[hash].value {
          case Counter(n) => verdict := Decimal(n);
          case Text(s) => verdict := s;
        }
      }
    }

    method SetVerdict(hash: string, verdict: string, ttl: int, now: int)
      modifies this
      ensures db == AfterSet(old(db), hash, verdict, ttl, now)
    {
      db := db[hash := Entry(Text(verdict), now + ttl)];
    }

    method InvalidateOrg(orgId: int)
      modifies this
      ensures db == AfterInvalidate(old(db), orgId)
    {
      var pattern := OrgPrefix(orgId);
      var rest := db.Keys;
      while rest != {}
        invariant rest <= old(db).Keys
        invariant forall key | key in db :: key in old(db) && db[key] == old(db)[key]
        invariant forall key | key in old(db) :: key in db <==> key in rest || !(pattern <= key)
        decreases rest
      {
        var key :| key in rest;
        if pattern <= key {
          db := db - {key};
        }
        rest := rest - {key};
      }
    }

    method BlockUser(userId: string, duration: int, now: int)
      modifies this
      ensures db == AfterSet(old(db), BlockedKey(userId), "BLOCKED", duration, now)
    {
      db := db[BlockedKey(userId) := Entry(Text("BLOCKED"), now + duration)];
    }

    method IsBlocked(userId: string, now: int) returns (blocked: bool)
      ensures blocked <==> Live(db, BlockedKey(userId), now) && db[BlockedKey(userId)].value == Text("BLOCKED")
      ensures blocked == (GetText(db, BlockedKey(userId), now) == "BLOCKED")
    {
      NotANumber(db, BlockedKey(userId), now);
      var val := GetVerdict(BlockedKey(userId), now);
      blocked := val == "BLOCKED";
    }
  }

  /** The organization is read back from a key, so 1 is never taken for 12. */
  lemma OrgKeyInjective(org: int, hash: string, org': int, hash': string)
    requires OrgKey(org, hash) == OrgKey(org', hash')
    ensures org == org' && hash == hash'
  {
    var k, k' := OrgKey(org, hash), OrgKey(org', hash');
    assert k[4..] == Decimal(org) + [':'] + hash && k'[4..] == Decimal(org') + [':'] + hash';
    DecimalAvoids(org, ':');
    DecimalAvoids(org', ':');
    SplitHead(':', Decimal(org), hash, Decimal(org'), hash');
    DecimalInjective(org, org');
  }

  /** `InvalidateOrg` removes an organization's keys and nobody else's. */
  lemma InvalidateIsExact(db: Db, orgId: int, org: int, hash: string)
    ensures OrgKey(org, hash) in AfterInvalidate(db, orgId) <==> OrgKey(org, hash) in db && org != orgId
  {
    if OrgPrefix(orgId) <= OrgKey(org, hash) {
      var rest := OrgKey(org, hash)[|OrgPrefix(orgId)|..];
      assert OrgKey(orgId, rest) == OrgKey(org, hash);
      OrgKeyInjective(orgId, rest, org, hash);
    }
    assert OrgPrefix(org) <= OrgKey(org, hash);
  }

  /** What is set is what is got, until its time to live is over; no other key is touched. */
  lemma SetThenGet(db: Db, key: string, text: string, ttl: int, now: int, other: string, later: int)
    ensures GetText(AfterSet(db, key, text, ttl, now), key, later) == if later < now + ttl then text else ""
    ensures other != key ==> GetText(AfterSet(db, key, text, ttl, now), other, later) == GetText(db, other, later)
  {
  }

  /** A read hands out a live entry, or nothing. */
  lemma GotIsLive(db: Db, key: string, now: int)
    ensures GetText(db, key, now) != "" <==> Live(db, key, now) && db[key].value != Text("")
  {
    if Live(db, key, now) && db[key].value.Counter? {
      assert Decimal(db[key].value.n) != "";
    }
  }

  /** A lock-out holds for its duration and touches no other user. */
  lemma BlockLasts(db: Db, userId: string, duration: int, now: int, other: string, later: int)
    ensures var blocked := AfterSet(db, BlockedKey(userId), "BLOCKED", duration, now);
            && (GetText(blocked, BlockedKey(userId), later) == "BLOCKED" <==> later < now + duration)
            && (other != userId ==> GetText(blocked, BlockedKey(other), later) == GetText(db, BlockedKey(other), later))
  {
    if BlockedKey(other) == BlockedKey(userId) {
      BlockedKeyInjective(other, userId);
    }
  }
}
