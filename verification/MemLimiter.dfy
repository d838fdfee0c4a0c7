/** pkg/api/ratelimit.go, the in-memory limiter: a token bucket per client, with idle
    buckets evicted in the background.  Times are seconds, and tokens real numbers. */
module MemLimiter {

  /** `burst` requests per `per` seconds. */
  datatype Config = Config(burst: int, per: real) {
    predicate Valid() {
      per > 0.0
    }

    function Capacity(): real {
      burst as real
    }

    function Rate(): real
      requires Valid()
    {
      burst as real / per
    }

    /** The tokens that flow in during `elapsed` seconds. */
    function Gain(elapsed: real): real
      requires Valid()
    {
      elapsed * Rate()
    }
  }

  lemma GainAdds(c: Config, x: real, y: real)
    requires c.Valid()
    ensures c.Gain(x + y) == c.Gain(x) + c.Gain(y)
  {
  }

  lemma GainGrows(c: Config, x: real, y: real)
    requires c.Valid() && c.burst >= 1 && x <= y
    ensures c.Gain(x) <= c.Gain(y) && c.Gain(0.0) == 0.0 && (x < y ==> c.Gain(x) < c.Gain(y))
  {
    var r := c.Rate();
    assert r > 0.0;
    assert (y - x) * r >= 0.0 && (x < y ==> (y - x) * r > 0.0);
    assert y * r - x * r == (y - x) * r;
  }

  /** A whole period refills the bucket, and the time one token takes gains one token. */
  lemma GainPeriod(c: Config)
    requires c.Valid() && c.burst >= 1
    ensures c.Gain(c.per) == c.Capacity()
    ensures c.Gain(c.per / c.burst as real) == 1.0
  {
    var burst, r, q := c.burst as real, c.Rate(), c.per / c.burst as real;
    assert q * burst == c.per && r * c.per == burst;
    assert (q * r) * c.per == q * (r * c.per);
    assert q * r == 1.0;
  }

  const IDLE_LIMIT: real := 1800.0   // 30 minutes

  datatype Bucket = Bucket(tokens: real, last: real)

  type Buckets = map<string, Bucket>

  function Min(x: real, y: real): real {
    if x <= y then x else y
  }

  /** The tokens a known client has at `now`, after the refill. */
  function Refilled(c: Config, b: Bucket, now: real): real
    requires c.Valid()
  {
    Min(b.tokens + c.Gain(now - b.last), c.Capacity())
  }

  predicate Admits(c: Config, buckets: Buckets, key: string, now: real)
    requires c.Valid()
  {
    key !in buckets || Refilled(c, buckets[key], now) >= 1.0
  }

  function AfterAllow(c: Config, buckets: Buckets, key: string, now: real): Buckets
    requires c.Valid()
  {
    if key !in buckets then buckets[key := Bucket(c.Capacity() - 1.0, now)]
    else
      var tokens := Refilled(c, buckets[key], now);
      buckets[key := Bucket(if tokens < 1.0 then tokens else tokens - 1.0, now)]
  }

  function AfterSweep(buckets: Buckets, now: real): Buckets {
    map key | key in buckets && now - buckets[key].last <= IDLE_LIMIT :: buckets[key]
  }

  class Limiter {
    const config: Config
    var buckets: Buckets

    constructor (burst: int, per: real)
      requires per > 0.0
      ensures config == Config(burst, per) && buckets == map[]
    {
      config := Config(burst, per);
      buckets := map[];
    }

    method Allow(key: string, now: real) returns (allowed: bool)
      requires config.Valid()
      modifies this
      ensures allowed == Admits(config, old(buckets), key, now)
      ensures buckets == AfterAllow(config, old(buckets), key, now)
    {
      if key !in buckets {
        buckets := buckets[key := Bucket(config.Capacity() - 1.0, now)];
        return true;
      }
      var tokens, last := buckets[key].tokens, buckets[key].last;
      tokens := tokens + (now - last) * config.Rate();
      if tokens > config.Capacity() {
        tokens := config.Capacity();
      }
      last := now;
      if tokens < 1.0 {
        buckets := buckets[key := Bucket(tokens, last)];
        return false;
      }
      tokens := tokens - 1.0;
      buckets := buckets[key := Bucket(tokens, last)];
      return true;
    }

    method Sweep(now: real)
      modifies this
      ensures buckets == AfterSweep(old(buckets), now)
    {
      var rest := buckets.Keys;
      while rest != {}
        invariant rest <= old(buckets).Keys
        invariant forall key | key in buckets :: key in old(buckets) && buckets[key] == old(buckets)[key]
        invariant forall key | key in old(buckets) ::
                    key in buckets <==> key in rest || now - old(buckets)[key].last <= IDLE_LIMIT
        decreases rest
      {
        var key :| key in rest;
        if now - buckets[key].last > IDLE_LIMIT {
          buckets := buckets - {key};
        }
        rest := rest - {key};
      }
    }
  }

  // ---------- Runs ----------

  datatype Event = Call(key: string, at: real) | Tick(at: real)

  ghost predicate Ordered(events: seq<Event>) {
    forall i, j | 0 <= i < j < |events| :: events[i].at <= events[j].at
  }

  /** The buckets after a run; without eviction the sweeper's ticks do nothing. */
  function After(c: Config, evicting: bool, events: seq<Event>): Buckets
    requires c.Valid()
  {
    if events == [] then map[]
    else AfterEvent(c, evicting, After(c, evicting, events[..|events| - 1]), events[|events| - 1])
  }

  function AfterEvent(c: Config, evicting: bool, buckets: Buckets, e: Event): Buckets
    requires c.Valid()
  {
    match e
    case Call(key, at) => AfterAllow(c, buckets, key, at)
    case Tick(at) => if evicting then AfterSweep(buckets, at) else buckets
  }

  /** The answer to call `i` of a run. */
  predicate Answer(c: Config, evicting: bool, events: seq<Event>, i: nat)
    requires c.Valid() && i < |events| && events[i].Call?
  {
    Admits(c, After(c, evicting, events[..i]), events[i].key, events[i].at)
  }

  /** How many calls of a client were admitted between two times, both included. */
  function Admitted(c: Config, evicting: bool, events: seq<Event>, key: string, from: real, to: real): nat
    requires c.Valid()
  {
    if events == [] then 0
    else
      var n := |events| - 1;
      Admitted(c, evicting, events[..n], key, from, to)
      + (if CountsAt(c, evicting, events, n, key, from, to) then 1 else 0)
  }

  predicate CountsAt(c: Config, evicting: bool, events: seq<Event>, i: nat, key: string, from: real, to: real)
    requires c.Valid() && i < |events|
  {
    events[i].Call? && events[i].key == key && from <= events[i].at <= to && Answer(c, evicting, events, i)
  }

  /** Tokens stay between nothing and the capacity, and no bucket is from the future. */
  ghost predicate Sane(c: Config, buckets: Buckets, now: real) {
    forall key | key in buckets :: 0.0 <= buckets[key].tokens <= c.Capacity() && buckets[key].last <= now
  }

  lemma {:induction false} RunSane(c: Config, evicting: bool, events: seq<Event>, now: real)
    requires c.Valid() && c.burst >= 1 && Ordered(events)
    requires forall i | 0 <= i < |events| :: events[i].at <= now
    ensures Sane(c, After(c, evicting, events), now)
  {
    if events != [] {
      var n := |events| - 1;
      var e := events[n];
      RunSane(c, evicting, events[..n], e.at);
      var buckets := After(c, evicting, events[..n]);
      if e.Call? && e.key in buckets {
        RefillNonNegative(c, buckets[e.key], e.at);
      }
    }
  }

  lemma RefillNonNegative(c: Config, b: Bucket, now: real)
    requires c.Valid() && c.burst >= 1 && 0.0 <= b.tokens <= c.Capacity() && b.last <= now
    ensures 0.0 <= Refilled(c, b, now) <= c.Capacity()
  {
    GainGrows(c, 0.0, now - b.last);
  }

  /** The tokens a client would find at `now`; a new client finds a full bucket. */
  function Level(c: Config, buckets: Buckets, key: string, now: real): real
    requires c.Valid()
  {
    if key in buckets then Refilled(c, buckets[key], now) else c.Capacity()
  }

  /** Admissions since `from` are paid for by the initial capacity and the refill. */
  lemma {:induction false} Paid(c: Config, events: seq<Event>, key: string, from: real, to: real, now: real)
    requires c.Valid() && c.burst >= 1 && Ordered(events) && from <= now <= to
    requires forall i | 0 <= i < |events| :: events[i].at <= now
    ensures Admitted(c, false, events, key, from, to) as real
         <= c.Capacity() + c.Gain(now - from) - Level(c, After(c, false, events), key, now)
  {
    hide c.Gain;
    GainGrows(c, 0.0, now - from);
    if events != [] {
      var n := |events| - 1;
      var e := events[n];
      var before := After(c, false, events[..n]);
      if e.Call? && e.key == key {
        if from <= e.at {
          Paid(c, events[..n], key, from, to, e.at);
          PaidCall(c, before, key, from, e.at, now);
        } else {
          NoneBefore(c, events, key, from, to);
          RunSane(c, false, events, now);
          LevelBounded(c, After(c, false, events), key, now);
        }
      } else {
        Paid(c, events[..n], key, from, to, now);
      }
    }
  }

  lemma LevelBounded(c: Config, buckets: Buckets, key: string, now: real)
    requires c.Valid() && c.burst >= 1 && Sane(c, buckets, now)
    ensures 0.0 <= Level(c, buckets, key, now) <= c.Capacity()
  {
    if key in buckets {
      RefillNonNegative(c, buckets[key], now);
    }
  }

  /** One call moves the level by at most the refill, and by one token less when admitted. */
  lemma PaidCall(c: Config, before: Buckets, key: string, from: real, at: real, now: real)
    requires c.Valid() && c.burst >= 1 && from <= at <= now
    ensures Level(c, AfterAllow(c, before, key, at), key, now) + (if Admits(c, before, key, at) then 1.0 else 0.0)
         <= Level(c, before, key, at) + c.Gain(now - from) - c.Gain(at - from)
  {
    GainAdds(c, now - at, at - from);
    assert now - at + (at - from) == now - from;
  }

  lemma {:induction false} NoneBefore(c: Config, events: seq<Event>, key: string, from: real, to: real)
    requires c.Valid() && Ordered(events) && events != [] && events[|events| - 1].at < from
    ensures Admitted(c, false, events, key, from, to) == 0
  {
    var n := |events| - 1;
    if n > 0 {
      assert events[n - 1].at <= events[n].at;
      NoneBefore(c, events[..n], key, from, to);
    }
  }

  /** The rate bound: over any run without eviction and any interval, a client gets at most
      the burst plus the rate times the length. */
  lemma {:induction false} RateBound(c: Config, events: seq<Event>, key: string, from: real, to: real)
    requires c.Valid() && c.burst >= 1 && Ordered(events) && from <= to
    ensures Admitted(c, false, events, key, from, to) as real <= c.Capacity() + c.Gain(to - from)
  {
    hide c.Gain;
    if events == [] || events[|events| - 1].at <= to {
      forall i | 0 <= i < |events|
        ensures events[i].at <= to
      {
        assert i < |events| - 1 ==> events[i].at <= events[|events| - 1].at;
      }
      Paid(c, events, key, from, to, to);
      RunSane(c, false, events, to);
      LevelBounded(c, After(c, false, events), key, to);
    } else {
      RateBound(c, events[..|events| - 1], key, from, to);
    }
  }

  /** The bound holds for every run exactly when the burst is at least one: the first call
      of a client is admitted without looking at the capacity. */
  lemma RateBoundIff(c: Config)
    requires c.Valid()
    ensures (forall events: seq<Event>, key: string, from: real, to: real | Ordered(events) && from <= to ::
               Admitted(c, false, events, key, from, to) as real <= c.Capacity() + c.Gain(to - from))
            <==> c.burst >= 1
  {
    if c.burst >= 1 {
      forall events: seq<Event>, key: string, from: real, to: real | Ordered(events) && from <= to
        ensures Admitted(c, false, events, key, from, to) as real <= c.Capacity() + c.Gain(to - from)
      {
        RateBound(c, events, key, from, to);
      }
    } else {
      var one := [Call("client", 0.0)];
      var none: seq<Event> := one[..0];
      assert After(c, false, none) == map[] && Admitted(c, false, none, "client", 0.0, 0.0) == 0;
      assert Admitted(c, false, one, "client", 0.0, 0.0) == 1;
      assert Ordered(one);
      assert c.Gain(0.0 - 0.0) == 0.0;
    }
  }

  /** Calls of this client are at least `gap` apart. */
  ghost predicate Spaced(events: seq<Event>, key: string, gap: real) {
    forall i, j | 0 <= i < j < |events| && events[i].Call? && events[j].Call?
      && events[i].key == events[j].key == key ::
      events[j].at - events[i].at >= gap
  }

  /** A known client's bucket was last touched by one of its calls. */
  lemma {:induction false} LastIsACall(c: Config, events: seq<Event>, key: string) returns (i: nat)
    requires c.Valid() && key in After(c, false, events)
    ensures i < |events| && events[i] == Call(key, After(c, false, events)[key].last)
  {
    i := |events| - 1;
    if events[i].Tick? || events[i].key != key {
      i := LastIsACall(c, events[..i], key);
    }
  }

  /** A client that spaces its calls by the time one token takes is never refused. */
  lemma SpacedIsNeverRefused(c: Config, events: seq<Event>, key: string, i: nat)
    requires c.Valid() && c.burst >= 1 && Ordered(events)
    requires Spaced(events, key, c.per / c.burst as real)
    requires i < |events| && events[i].Call? && events[i].key == key
    ensures Answer(c, false, events, i)
  {
    hide c.Gain;
    var buckets, at := After(c, false, events[..i]), events[i].at;
    if key in buckets {
      var j := LastIsACall(c, events[..i], key);
      RunSane(c, false, events[..i], at);
      assert events[..i][j] == events[j] && at - buckets[key].last >= c.per / c.burst as real;
      GainPeriod(c);
      GainGrows(c, c.per / c.burst as real, at - buckets[key].last);
    }
  }

  // ---------- Eviction ----------

  /** Evicted buckets are the ones a refill would have filled up anyway. */
  ghost predicate SameToClients(c: Config, evicted: Buckets, kept: Buckets, now: real)
    requires c.Valid()
  {
    && (forall key | key in evicted :: key in kept && evicted[key] == kept[key])
    && (forall key | key in kept && key !in evicted :: kept[key].tokens + c.Gain(now - kept[key].last) >= c.Capacity())
  }

  lemma {:induction false} EvictionSimulates(c: Config, events: seq<Event>, now: real)
    requires c.Valid() && c.burst >= 1 && c.per <= IDLE_LIMIT && Ordered(events)
    requires forall i | 0 <= i < |events| :: events[i].at <= now
    ensures SameToClients(c, After(c, true, events), After(c, false, events), now)
  {
    if events != [] {
      var n := |events| - 1;
      var e := events[n];
      var x, y := After(c, true, events[..n]), After(c, false, events[..n]);
      EvictionSimulates(c, events[..n], e.at);
      RunSane(c, false, events[..n], e.at);
      StepSimulates(c, x, y, e, now);
    }
  }

  lemma StepSimulates(c: Config, x: Buckets, y: Buckets, e: Event, now: real)
    requires c.Valid() && c.burst >= 1 && c.per <= IDLE_LIMIT && e.at <= now
    requires SameToClients(c, x, y, e.at) && Sane(c, y, e.at)
    ensures SameToClients(c, AfterEvent(c, true, x, e), AfterEvent(c, false, y, e), now)
  {
    hide c.Gain;
    var x', y' := AfterEvent(c, true, x, e), AfterEvent(c, false, y, e);
    forall key | key in y' && key !in x'
      ensures y'[key].tokens + c.Gain(now - y'[key].last) >= c.Capacity()
    {
      assert key in y && y'[key] == y[key];
      if key in x {
        FullAfterIdle(c, now - y[key].last);
      } else {
        GainGrows(c, e.at - y[key].last, now - y[key].last);
      }
    }
  }

  lemma FullAfterIdle(c: Config, idle: real)
    requires c.Valid() && c.burst >= 1 && idle >= c.per
    ensures c.Gain(idle) >= c.Capacity()
  {
    GainPeriod(c);
    GainGrows(c, c.per, idle);
  }

  /** With a period of at most half an hour no client can tell that buckets are evicted. */
  lemma EvictionIsInvisible(c: Config, events: seq<Event>, i: nat)
    requires c.Valid() && c.burst >= 1 && c.per <= IDLE_LIMIT && Ordered(events)
    requires i < |events| && events[i].Call?
    ensures Answer(c, true, events, i) == Answer(c, false, events, i)
  {
    EvictionSimulates(c, events[..i], events[i].at);
  }

  /** `n` calls of one client at one moment. */
  function Calls(key: string, at: real, n: nat): (events: seq<Event>)
    ensures |events| == n && forall i | 0 <= i < n :: events[i] == Call(key, at)
  {
    if n == 0 then [] else Calls(key, at, n - 1) + [Call(key, at)]
  }

  lemma OneMore(c: Config, evicting: bool, events: seq<Event>, e: Event, key: string, from: real, to: real)
    requires c.Valid()
    ensures After(c, evicting, events + [e]) == AfterEvent(c, evicting, After(c, evicting, events), e)
    ensures Admitted(c, evicting, events + [e], key, from, to) == Admitted(c, evicting, events, key, from, to)
         + (if e.Call? && e.key == key && from <= e.at <= to
           && Admits(c, After(c, evicting, events), key, e.at) then 1 else 0)
  {
    var all := events + [e];
    assert all[..|all| - 1] == events && all[|all| - 1] == e;
  }

  /** The client has spent `n` tokens of a full bucket, all at one moment. */
  predicate Spent(c: Config, buckets: Buckets, key: string, at: real, n: nat) {
    if n == 0 then key !in buckets else key in buckets && buckets[key] == Bucket(c.Capacity() - n as real, at)
  }

  /** A client the limiter does not know gets its whole burst at once. */
  lemma {:induction false} FreshBurst(c: Config, before: seq<Event>, key: string, at: real, n: nat, from: real)
    requires c.Valid() && n <= c.burst && from <= at
    requires key !in After(c, true, before)
    ensures Spent(c, After(c, true, before + Calls(key, at, n)), key, at, n)
    ensures Admitted(c, true, before + Calls(key, at, n), key, from, at) == Admitted(c, true, before, key, from, at) + n
  {
    hide After, Admitted, c.Valid;
    if n == 0 {
      assert before + Calls(key, at, 0) == before;
    } else {
      FreshBurst(c, before, key, at, n - 1, from);
      FreshCall(c, before, key, at, n, from);
    }
  }

  lemma FreshCall(c: Config, before: seq<Event>, key: string, at: real, n: nat, from: real)
    requires c.Valid() && from <= at && 0 < n <= c.burst
    requires Spent(c, After(c, true, before + Calls(key, at, n - 1)), key, at, n - 1)
    ensures Spent(c, After(c, true, before + Calls(key, at, n)), key, at, n)
    ensures Admitted(c, true, before + Calls(key, at, n), key, from, at)
         == Admitted(c, true, before + Calls(key, at, n - 1), key, from, at) + 1
  {
    hide After, Admitted, AfterAllow, Admits, Spent, Calls;
    OneCall(c, before, key, at, n, from);
    FreshStep(c, After(c, true, before + Calls(key, at, n - 1)), key, at, n - 1);
  }

  lemma OneCall(c: Config, before: seq<Event>, key: string, at: real, n: nat, from: real)
    requires c.Valid() && from <= at && n > 0
    ensures var init, all := before + Calls(key, at, n - 1), before + Calls(key, at, n);
            && After(c, true, all) == AfterAllow(c, After(c, true, init), key, at)
            && Admitted(c, true, all, key, from, at)
               == Admitted(c, true, init, key, from, at) + if Admits(c, After(c, true, init), key, at) then 1 else 0
  {
    var init := before + Calls(key, at, n - 1);
    assert before + Calls(key, at, n) == init + [Call(key, at)];
    hide After, Admitted, AfterAllow, Admits, Calls;
    OneMore(c, true, init, Call(key, at), key, from, at);
  }

  /** One more call of a burst that is not used up yet. */
  lemma FreshStep(c: Config, buckets: Buckets, key: string, at: real, spent: nat)
    requires c.Valid() && spent < c.burst
    requires Spent(c, buckets, key, at, spent)
    ensures Admits(c, buckets, key, at)
    ensures Spent(c, AfterAllow(c, buckets, key, at), key, at, spent + 1)
  {
    hide c.Gain, c.Rate;
    assert c.Gain(at - at) == 0.0 by {
      GainGrows(c, at - at, 0.0);
    }
  }

  /** The burst, a pause longer than half an hour but shorter than the period, a tick of the
      sweeper, and the burst again. */
  function Pause(c: Config): real {
    (IDLE_LIMIT + c.per) / 2.0
  }

  function TwoBursts(c: Config): seq<Event>
    requires c.burst >= 0
  {
    Calls("client", 0.0, c.burst) + [Tick(Pause(c))] + Calls("client", Pause(c), c.burst)
  }

  lemma TwoBurstsOrdered(c: Config)
    requires c.Valid() && c.burst >= 1 && c.per > IDLE_LIMIT
    ensures Ordered(TwoBursts(c))
  {
    hide Calls;
  }

  lemma TwoBurstsAdmitted(c: Config)
    requires c.Valid() && c.burst >= 1 && c.per > IDLE_LIMIT
    ensures Admitted(c, true, TwoBursts(c), "client", 0.0, Pause(c)) == 2 * c.burst
  {
    FirstBurst(c);
    hide After, Admitted, c.Gain, c.Rate, Calls, Ordered, Spent;
    FreshBurst(c, Calls("client", 0.0, c.burst) + [Tick(Pause(c))], "client", Pause(c), c.burst, 0.0);
  }

  /** After the first burst and the tick the client is forgotten. */
  lemma FirstBurst(c: Config)
    requires c.Valid() && c.burst >= 1 && c.per > IDLE_LIMIT
    ensures var events := Calls("client", 0.0, c.burst) + [Tick(Pause(c))];
            Admitted(c, true, events, "client", 0.0, Pause(c)) == c.burst && "client" !in After(c, true, events)
  {
    var none: seq<Event> := [];
    var first := Calls("client", 0.0, c.burst);
    assert After(c, true, none) == map[] && Admitted(c, true, none, "client", 0.0, 0.0) == 0;
    hide After, Admitted, c.Gain, c.Rate, Calls, Ordered;
    FreshBurst(c, none, "client", 0.0, c.burst, 0.0);
    assert none + first == first;
    WiderWindow(c, first, "client", 0.0, Pause(c));
    OneMore(c, true, first, Tick(Pause(c)), "client", 0.0, Pause(c));
  }

  lemma {:induction false} WiderWindow(c: Config, events: seq<Event>, key: string, at: real, to: real)
    requires c.Valid() && at <= to && forall i | 0 <= i < |events| :: events[i].at == at
    ensures Admitted(c, true, events, key, at, to) == Admitted(c, true, events, key, at, at)
  {
    if events != [] {
      WiderWindow(c, events[..|events| - 1], key, at, to);
    }
  }

  /** Equal answers admit equally many. */
  lemma {:induction false} SameAnswersSameCount(c: Config, events: seq<Event>, key: string, from: real, to: real)
    requires c.Valid()
    requires forall i | 0 <= i < |events| && events[i].Call? ::
        Answer(c, true, events, i) == Answer(c, false, events, i)
    ensures Admitted(c, true, events, key, from, to) == Admitted(c, false, events, key, from, to)
  {
    if events != [] {
      var n := |events| - 1;
      forall i | 0 <= i < n && events[..n][i].Call?
        ensures Answer(c, true, events[..n], i) == Answer(c, false, events[..n], i)
      {
        assert events[..n][..i] == events[..i];
        assert Answer(c, true, events, i) == Answer(c, false, events, i);
      }
      SameAnswersSameCount(c, events[..n], key, from, to);
    }
  }

  /** Eviction is invisible on every run exactly when the period is at most half an hour. */
  lemma EvictionInvisibleIff(c: Config)
    requires c.Valid() && c.burst >= 1
    ensures (forall events: seq<Event>, i: nat | Ordered(events) && i < |events| && events[i].Call? ::
               Answer(c, true, events, i) == Answer(c, false, events, i))
            <==> c.per <= 1800.0
  {
    if c.per <= IDLE_LIMIT {
      forall events: seq<Event>, i: nat | Ordered(events) && i < |events| && events[i].Call?
        ensures Answer(c, true, events, i) == Answer(c, false, events, i)
      {
        EvictionIsInvisible(c, events, i);
      }
    } else if forall events: seq<Event>, i: nat | Ordered(events) && i < |events| && events[i].Call? ::
        Answer(c, true, events, i) == Answer(c, false, events, i) {
      VisibleEviction(c);
    }
  }

  /** With a longer period some call of the two bursts is answered differently. */
  lemma VisibleEviction(c: Config)
    requires c.Valid() && c.burst >= 1 && c.per > IDLE_LIMIT
    ensures Ordered(TwoBursts(c))
    ensures exists i | 0 <= i < |TwoBursts(c)| && TwoBursts(c)[i].Call? ::
              Answer(c, true, TwoBursts(c), i) != Answer(c, false, TwoBursts(c), i)
  {
    hide After, Answer, Admitted, c.Gain, c.Rate, TwoBursts;
    var events := TwoBursts(c);
    TwoBurstsOrdered(c);
    TwoBurstsAdmitted(c);
    RateBound(c, events, "client", 0.0, Pause(c));
    GainPeriod(c);
    GainGrows(c, Pause(c), c.per);
    assert Pause(c) - 0.0 == Pause(c);
    if forall i | 0 <= i < |events| && events[i].Call? :: Answer(c, true, events, i) == Answer(c, false, events, i) {
      SameAnswersSameCount(c, events, "client", 0.0, Pause(c));
    }
  }

  /** The sign-up limit (5 an hour) falls back to this limiter without Redis: evicted, it
      admits ten sign-ups from one client within 45 minutes, more than its rate allows. */
  lemma SignupLimitIsEvicted()
    ensures var c := Config(5, 3600.0);
            && Ordered(TwoBursts(c)) && Pause(c) == 2700.0
            && Admitted(c, true, TwoBursts(c), "client", 0.0, 2700.0) == 10
            && Admitted(c, false, TwoBursts(c), "client", 0.0, 2700.0) <= 8
  {
    var c := Config(5, 3600.0);
    TwoBurstsOrdered(c);
    TwoBurstsAdmitted(c);
    RateBound(c, TwoBursts(c), "client", 0.0, 2700.0);
    assert c.Capacity() + c.Gain(2700.0 - 0.0) == 8.75;
  }
}
