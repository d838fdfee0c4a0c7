/** pkg/api/ratelimit.go, the shared limiter: one Redis counter per client and window slot.
    Times are milliseconds since the Unix epoch, windows whole seconds. */
module RedisLimiter {
  import opened Strings
  import opened Redis

  /** One limited endpoint, such as ("login", 10, 60). */
  datatype Limit = Limit(name: string, burst: int, window: int) {
    predicate Valid() {
      window > 0 && ':' !in name
    }

    function Millis(): int {
      1000 * window
    }

    /** time.Now().Unix() / int64(window.Seconds()) */
    function Slot(now: nat): nat
      requires Valid()
    {
      now / 1000 / window
    }

    /** ratelimit:{name}:{client}:{slot} */
    function Key(client: string, slot: int): string {
      "ratelimit:" + name + ":" + client + ":" + Decimal(slot)
    }
  }

  function AfterAllow(db: Db, l: Limit, client: string, now: nat): Db
    requires l.Valid()
  {
    AfterIncr(db, l.Key(client, l.Slot(now)), l.Millis() + 1000, now)
  }

  /** Zero stands for a Redis error, which lets the request pass. */
  predicate Admits(db: Db, l: Limit, client: string, now: nat)
    requires l.Valid()
  {
    var n := CounterAfter(db, l.Key(client, l.Slot(now)), now);
    n == 0 || n <= l.burst
  }

  method Allow(cache: Client, l: Limit, client: string, now: nat) returns (allowed: bool)
    requires l.Valid()
    modifies cache
    ensures allowed == Admits(old(cache.db), l, client, now)
    ensures cache.db == AfterAllow(old(cache.db), l, client, now)
  {
    var slot := now / 1000 / l.window;
    var redisKey := l.Key(client, slot);
    var n := cache.Incr(redisKey, l.Millis() + 1000, now);
    if n == 0 {
      return true;
    }
    return n <= l.burst;
  }

  // ---------- Keys ----------

  lemma KeyParts(l: Limit, client: string, slot: int)
    ensures |l.Key(client, slot)| >= 10
    ensures l.Key(client, slot)[10..] == l.name + [':'] + (client + [':'] + Decimal(slot))
  {
    hide Decimal;
  }

  lemma KeyInjective(l: Limit, client: string, slot: int, l': Limit, client': string, slot': int)
    requires l.Valid() && l'.Valid() && l.Key(client, slot) == l'.Key(client', slot')
    ensures l.name == l'.name && client == client' && slot == slot'
  {
    KeyParts(l, client, slot);
    KeyParts(l', client', slot');
    hide l.Key, l'.Key, Decimal;
    var d, d' := Decimal(slot), Decimal(slot');
    var rest, rest' := client + [':'] + d, client' + [':'] + d';
    SplitHead(':', l.name, rest, l'.name, rest');
    DecimalAvoids(slot, ':');
    DecimalAvoids(slot', ':');
    SplitTail(':', client, d, client', d');
    DecimalInjective(slot, slot');
  }

  // ---------- Runs ----------

  /** Calls to any limited endpoints, by any clients, and whatever else the server writes to
      the same store. */
  datatype Event =
    | Call(limit: Limit, client: string, at: nat)
    | Other(key: string, entry: Entry, at: nat)
    | Drop(key: string, at: nat)

  predicate IsLimitKey(key: string) {
    "ratelimit:" <= key
  }

  predicate EventOk(e: Event) {
    match e
    case Call(l, _, _) => l.Valid()
    case Other(key, _, _) => !IsLimitKey(key)
    case Drop(key, _) => !IsLimitKey(key)
  }

  /** Times do not go back, endpoints with one name are one endpoint, and nothing else
      touches the limiter's keys. */
  ghost predicate IsRun(events: seq<Event>) {
    && (forall i | 0 <= i < |events| :: EventOk(events[i]))
    && (forall i, j | 0 <= i < j < |events| :: events[i].at <= events[j].at)
    && (forall i, j | 0 <= i < j < |events| && events[i].Call? && events[j].Call?
      && events[i].limit.name == events[j].limit.name ::
          events[i].limit == events[j].limit)
  }

  function AfterEvent(db: Db, e: Event): Db
    requires EventOk(e)
  {
    match e
    case Call(l, client, at) => AfterAllow(db, l, client, at)
    case Other(key, entry, _) => db[key := entry]
    case Drop(key, _) => db - {key}
  }

  function After(events: seq<Event>): Db
    requires forall i | 0 <= i < |events| :: EventOk(events[i])
  {
    if events == [] then map[] else AfterEvent(After(events[..|events| - 1]), events[|events| - 1])
  }

  predicate Answer(events: seq<Event>, i: nat)
    requires i < |events| && events[i].Call?
    requires forall j | 0 <= j < |events| :: EventOk(events[j])
  {
    assert EventOk(events[i]);
    Admits(After(events[..i]), events[i].limit, events[i].client, events[i].at)
  }

  predicate IsCallIn(e: Event, l: Limit, client: string, slot: nat)
    requires l.Valid()
  {
    e.Call? && e.limit == l && e.client == client && l.Slot(e.at) == slot
  }

  /** The calls of a client in a slot. */
  function CallsIn(events: seq<Event>, l: Limit, client: string, slot: nat): nat
    requires l.Valid()
  {
    if events == [] then 0
    else
      CallsIn(events[..|events| - 1], l, client, slot)
      + (if IsCallIn(events[|events| - 1], l, client, slot) then 1 else 0)
  }

  /** What the store holds for a client and slot: nothing before the first call, then the
      number of calls, with an expiry that lies beyond the end of the slot. */
  ghost predicate Counts(db: Db, l: Limit, client: string, slot: nat, calls: nat)
    requires l.Valid()
  {
    var key := l.Key(client, slot);
    if calls == 0 then key !in db
    else key in db && db[key].value == Counter(calls) && db[key].expiresAt >= (slot + 1) * l.Millis()
  }

  /** A moment of a slot lies between its ends. */
  lemma SlotEnds(l: Limit, now: nat)
    requires l.Valid()
    ensures l.Slot(now) * l.Millis() <= now < (l.Slot(now) + 1) * l.Millis()
  {
    var seconds, slot := now / 1000, l.Slot(now);
    assert slot * l.window <= seconds < (slot + 1) * l.window;
    assert slot * l.Millis() == 1000 * (slot * l.window) && (slot + 1) * l.Millis() == 1000 * ((slot + 1) * l.window);
  }

  ghost predicate NameIsLimit(events: seq<Event>, l: Limit) {
    forall i | 0 <= i < |events| && events[i].Call? && events[i].limit.name == l.name :: events[i].limit == l
  }

  /** A counter never expires inside its own slot, so it counts every call. */
  lemma {:induction false} CounterIsExact(events: seq<Event>, l: Limit, client: string, slot: nat)
    requires IsRun(events) && l.Valid() && NameIsLimit(events, l)
    ensures Counts(After(events), l, client, slot, CallsIn(events, l, client, slot))
  {
    if events != [] {
      var n := |events| - 1;
      var before := events[..n];
      CounterIsExact(before, l, client, slot);
      StepCounts(After(before), events[n], l, client, slot, CallsIn(before, l, client, slot));
    }
  }

  lemma StepCounts(db: Db, e: Event, l: Limit, client: string, slot: nat, calls: nat)
    requires l.Valid() && EventOk(e) && (e.Call? && e.limit.name == l.name ==> e.limit == l)
    requires Counts(db, l, client, slot, calls)
    ensures Counts(AfterEvent(db, e), l, client, slot, calls + if IsCallIn(e, l, client, slot) then 1 else 0)
  {
    var key := l.Key(client, slot);
    assert IsLimitKey(key);
    if e.Call? {
      if e.limit.Key(e.client, e.limit.Slot(e.at)) == key {
        KeyInjective(e.limit, e.client, e.limit.Slot(e.at), l, client, slot);
        SlotEnds(l, e.at);
        assert l.Slot(e.at) == slot;
        assert (slot + 1) * l.Millis() == slot * l.Millis() + l.Millis();
      } else {
        assert !IsCallIn(e, l, client, slot);
      }
    }
  }

  /** Fixed window, exactly: a call is admitted if and only if fewer than `burst` calls of
      the same client came before it in the same slot. */
  lemma AdmitsFirstBurst(events: seq<Event>, i: nat)
    requires IsRun(events) && i < |events| && events[i].Call?
    ensures var e := events[i];
            Answer(events, i) <==> CallsIn(events[..i], e.limit, e.client, e.limit.Slot(e.at)) < e.limit.burst
  {
    var e := events[i];
    var slot := e.limit.Slot(e.at);
    forall j | 0 <= j < i && events[..i][j].Call? && events[..i][j].limit.name == e.limit.name
      ensures events[..i][j].limit == e.limit
    {
      assert events[..i][j] == events[j];
    }
    CounterIsExact(events[..i], e.limit, e.client, slot);
    SlotEnds(e.limit, e.at);
  }

  /** The calls of a client admitted from `from` on and before `to`. */
  function Admitted(events: seq<Event>, l: Limit, client: string, from: int, to: int): nat
    requires forall j | 0 <= j < |events| :: EventOk(events[j])
  {
    if events == [] then 0
    else
      var n := |events| - 1;
      Admitted(events[..n], l, client, from, to) + (if AdmittedAt(events, n, l, client, from, to) then 1 else 0)
  }

  predicate AdmittedAt(events: seq<Event>, i: nat, l: Limit, client: string, from: int, to: int)
    requires i < |events| && forall j | 0 <= j < |events| :: EventOk(events[j])
  {
    events[i].Call? && events[i].limit == l && events[i].client == client && from <= events[i].at < to
      && Answer(events, i)
  }

  /** Adjacent intervals add up, and a wider interval admits no fewer. */
  lemma {:induction false} AdmittedSplits(events: seq<Event>, l: Limit, client: string, a: int, b: int, c: int, d: int)
    requires IsRun(events) && a <= b <= c <= d
    ensures Admitted(events, l, client, a, d) == Admitted(events, l, client, a, c) + Admitted(events, l, client, c, d)
    ensures Admitted(events, l, client, b, c) <= Admitted(events, l, client, a, d)
  {
    if events != [] {
      AdmittedSplits(events[..|events| - 1], l, client, a, b, c, d);
    }
  }

  /** The client's calls from `from` on and before `to`, whatever they were answered. */
  function CallsBetween(events: seq<Event>, l: Limit, client: string, from: int, to: int): nat {
    if events == [] then 0
    else
      var e := events[|events| - 1];
      CallsBetween(events[..|events| - 1], l, client, from, to)
      + (if e.Call? && e.limit == l && e.client == client && from <= e.at < to then 1 else 0)
  }

  lemma {:induction false} SlotIsInterval(events: seq<Event>, l: Limit, client: string, slot: nat)
    requires l.Valid()
    ensures CallsIn(events, l, client, slot)
         == CallsBetween(events, l, client, slot * (1000 * l.window), (slot + 1) * (1000 * l.window))
  {
    if events != [] {
      SlotIsInterval(events[..|events| - 1], l, client, slot);
      if events[|events| - 1].Call? {
        InSlotIff(l, events[|events| - 1].at, slot);
      }
    }
  }

  /** In clock time: of the calls between two multiples of the window, exactly the first `burst`
      are admitted. */
  lemma WindowAdmitsFirst(events: seq<Event>, i: nat, slot: nat)
    requires IsRun(events) && i < |events| && events[i].Call?
    requires var w := 1000 * events[i].limit.window; slot * w <= events[i].at < (slot + 1) * w
    ensures var e := events[i];
            var w := 1000 * e.limit.window;
            var before := CallsBetween(events[..i], e.limit, e.client, slot * w, (slot + 1) * w);
            Answer(events, i) <==> before < e.limit.burst
  {
    assert EventOk(events[i]);
    InSlotIff(events[i].limit, events[i].at, slot);
    AdmitsFirstBurst(events, i);
    SlotIsInterval(events[..i], events[i].limit, events[i].client, slot);
  }

  function Cap(l: Limit, calls: nat): nat {
    if l.burst <= 0 then 0 else if calls <= l.burst then calls else l.burst
  }

  /** In one slot exactly the first `burst` calls are admitted. */
  lemma {:induction false} AdmittedInSlot(events: seq<Event>, l: Limit, client: string, slot: nat)
    requires IsRun(events) && l.Valid() && NameIsLimit(events, l)
    ensures Admitted(events, l, client, slot * l.Millis(), (slot + 1) * l.Millis())
        == Cap(l, CallsIn(events, l, client, slot))
  {
    if events != [] {
      var n := |events| - 1;
      var e := events[n];
      AdmittedInSlot(events[..n], l, client, slot);
      if e.Call? && e.limit == l && e.client == client {
        AdmitsFirstBurst(events, n);
        InSlotIff(l, e.at, slot);
      }
    }
  }

  lemma InSlotIff(l: Limit, now: nat, slot: nat)
    requires l.Valid()
    ensures l.Slot(now) == slot <==> slot * l.Millis() <= now < (slot + 1) * l.Millis()
  {
    SlotEnds(l, now);
    hide l.Slot, l.Millis;
    var s, m := l.Slot(now), l.Millis();
    assert m > 0 by {
      assert (s + 1) * m - s * m == m;
    }
    if s < slot {
      MultiplyMonotone(s + 1, slot, m);
    } else if slot < s {
      MultiplyMonotone(slot + 1, s, m);
    }
  }

  lemma MultiplyMonotone(x: int, y: int, m: int)
    requires x <= y && m > 0
    ensures x * m <= y * m
  {
  }

  /** Any interval of one window's length admits at most twice the burst. */
  lemma WindowBound(events: seq<Event>, l: Limit, client: string, from: nat)
    requires IsRun(events) && l.Valid() && NameIsLimit(events, l) && l.burst >= 0
    ensures Admitted(events, l, client, from, from + 1000 * l.window) <= 2 * l.burst
  {
    var m, slot := l.Millis(), l.Slot(from);
    SlotEnds(l, from);
    var a, c, d := slot * m, (slot + 1) * m, (slot + 2) * m;
    assert d == c + m && c == a + m;
    AdmittedSplits(events, l, client, a, a, c, d);
    AdmittedSplits(events, l, client, a, from, from + m, d);
    AdmittedInSlot(events, l, client, slot);
    AdmittedInSlot(events, l, client, slot + 1);
  }
}
