/** pkg/api/ratelimit.go, the in-memory limiter: exactly which calls are refused, told from the
    earlier answers alone, and that a refused call costs nothing. */
module Refusals {
  import opened MemLimiter

  predicate IsCall(events: seq<Event>, j: nat, key: string) {
    j < |events| && events[j].Call? && events[j].key == key
  }

  /** How many of the client's calls from the `j`-th event up to the `i`-th were admitted. */
  function AdmittedSince(c: Config, evicting: bool, events: seq<Event>, key: string, j: nat, i: nat): nat
    requires c.Valid() && i <= |events|
    decreases i
  {
    if i <= j then 0
    else
      AdmittedSince(c, evicting, events, key, j, i - 1)
      + if IsCall(events, i - 1, key) && Answer(c, evicting, events, i - 1) then 1 else 0
  }

  /** What the burst and the refill since event `j` gave, less what was admitted since. */
  function LeftSince(c: Config, evicting: bool, events: seq<Event>, key: string, j: nat, i: nat, now: real): real
    requires c.Valid() && i <= |events| && j < |events|
  {
    c.burst as real + (now - events[j].at) * (c.burst as real / c.per)
    - AdmittedSince(c, evicting, events, key, j, i) as real
  }

  /** The tokens of a bucket at `now` if nothing capped them. */
  function Uncapped(c: Config, b: Bucket, now: real): real
    requires c.Valid()
  {
    b.tokens + c.Gain(now - b.last)
  }

  // ---------- What is in a bucket ----------

  lemma NextBuckets(c: Config, evicting: bool, events: seq<Event>, n: nat)
    requires c.Valid() && n < |events|
    ensures After(c, evicting, events[..n + 1]) == AfterEvent(c, evicting, After(c, evicting, events[..n]), events[n])
  {
    assert events[..n + 1][..n] == events[..n];
  }

  lemma LaterLeft(c: Config, events: seq<Event>, key: string, j: nat, i: nat, now: real)
    requires c.Valid() && j < |events| && j <= i < |events|
    ensures LeftSince(c, false, events, key, j, i + 1, now)
         == LeftSince(c, false, events, key, j, i, now)
            - if IsCall(events, i, key) && Answer(c, false, events, i) then 1.0 else 0.0
  {
  }

  lemma OwnLeft(c: Config, events: seq<Event>, n: nat, now: real)
    requires c.Valid() && n < |events| && events[n].Call?
    ensures LeftSince(c, false, events, events[n].key, n, n + 1, now)
         == c.Capacity() + c.Gain(now - events[n].at) - if Answer(c, false, events, n) then 1.0 else 0.0
  {
    assert AdmittedSince(c, false, events, events[n].key, n, n) == 0;
    GainIs(c, now - events[n].at);
  }

  /** One call on a bucket, at any later moment. */
  lemma CallUncapped(c: Config, buckets: Buckets, key: string, at: real, now: real)
    requires c.Valid() && key in buckets
    ensures key in AfterAllow(c, buckets, key, at)
    ensures Uncapped(c, AfterAllow(c, buckets, key, at)[key], now)
         == Min(Uncapped(c, buckets[key], now), c.Capacity() + c.Gain(now - at))
            - if Admits(c, buckets, key, at) then 1.0 else 0.0
  {
    var b := buckets[key];
    hide c.Gain;
    GainAdds(c, at - b.last, now - at);
    assert at - b.last + (now - at) == now - b.last;
  }

  lemma GainIs(c: Config, x: real)
    requires c.Valid()
    ensures c.Gain(x) == x * (c.burst as real / c.per)
  {
  }

  /** A known client's bucket holds the least that is left since any of its calls. */
  lemma {:induction false} BucketHoldsLeast(c: Config, events: seq<Event>, key: string, i: nat, now: real)
    returns (j: nat)
    requires c.Valid() && i <= |events| && key in After(c, false, events[..i])
    ensures j < i && IsCall(events, j, key)
    ensures Uncapped(c, After(c, false, events[..i])[key], now) == LeftSince(c, false, events, key, j, i, now)
    ensures forall k: nat | k < i && IsCall(events, k, key) ::
              Uncapped(c, After(c, false, events[..i])[key], now) <= LeftSince(c, false, events, key, k, i, now)
    decreases i
  {
    j := 0;
    if i == 0 {
      NoBuckets(c, events, key);
    } else {
      var before, e := After(c, false, events[..i - 1]), events[i - 1];
      NextBuckets(c, false, events, i - 1);
      if e.Call? && e.key == key {
        j := AfterOwnCall(c, events, key, i, now);
      } else {
        j := BucketHoldsLeast(c, events, key, i - 1, now);
      }
    }
  }

  lemma NoBuckets(c: Config, events: seq<Event>, key: string)
    requires c.Valid()
    ensures key !in After(c, false, events[..0])
  {
    assert events[..0] == [];
  }

  lemma AfterOwnCall(c: Config, events: seq<Event>, key: string, i: nat, now: real) returns (j: nat)
    requires c.Valid() && 0 < i <= |events| && IsCall(events, i - 1, key)
    ensures j < i && IsCall(events, j, key) && key in After(c, false, events[..i])
    ensures Uncapped(c, After(c, false, events[..i])[key], now) == LeftSince(c, false, events, key, j, i, now)
    ensures forall k: nat | k < i && IsCall(events, k, key) ::
              Uncapped(c, After(c, false, events[..i])[key], now) <= LeftSince(c, false, events, key, k, i, now)
    decreases i, 0
  {
    hide c.Gain, c.Rate, LeftSince;
    var n, before, at := i - 1, After(c, false, events[..i - 1]), events[i - 1].at;
    NextBuckets(c, false, events, n);
    OwnLeft(c, events, n, now);
    if key in before {
      CallUncapped(c, before, key, at, now);
      j := BucketHoldsLeast(c, events, key, n, now);
      LaterLeft(c, events, key, j, n, now);
      forall k: nat | k < n && IsCall(events, k, key)
        ensures LeftSince(c, false, events, key, k, i, now) == LeftSince(c, false, events, key, k, n, now)
             - if Answer(c, false, events, n) then 1.0 else 0.0
      {
        LaterLeft(c, events, key, k, n, now);
      }
      if c.Capacity() + c.Gain(now - at) <= Uncapped(c, before[key], now) {
        j := n;
      }
    } else {
      j := n;
      UnknownHasNoCall(c, events, key, n);
    }
  }

  lemma {:induction false} UnknownHasNoCall(c: Config, events: seq<Event>, key: string, i: nat)
    requires c.Valid() && i <= |events| && key !in After(c, false, events[..i])
    ensures forall k: nat | k < i :: !IsCall(events, k, key)
    decreases i
  {
    if i > 0 {
      NextBuckets(c, false, events, i - 1);
      UnknownHasNoCall(c, events, key, i - 1);
    }
  }

  // ---------- Exactly which calls are refused ----------

  /** A call is refused exactly when, counted from some earlier call of the client, the admissions
      have used up all but less than one token of what the burst and the refill gave: never more
      often than the limit asks for, and never less. */
  lemma RefusedIff(c: Config, events: seq<Event>, i: nat)
    requires c.Valid() && c.burst >= 1 && i < |events| && events[i].Call?
    ensures !Answer(c, false, events, i) <==>
              exists j: nat | j < i && IsCall(events, j, events[i].key) ::
                LeftSince(c, false, events, events[i].key, j, i, events[i].at) < 1.0
  {
    hide LeftSince;
    var key, now, buckets := events[i].key, events[i].at, After(c, false, events[..i]);
    if key in buckets {
      var j := BucketHoldsLeast(c, events, key, i, now);
    } else {
      UnknownHasNoCall(c, events, key, i);
    }
  }

  /** The same with eviction, for periods of at most half an hour. */
  lemma RefusedIffEvicting(c: Config, events: seq<Event>, i: nat)
    requires c.Valid() && c.burst >= 1 && c.per <= 1800.0 && Ordered(events) && i < |events| && events[i].Call?
    ensures !Answer(c, true, events, i) <==>
              exists j: nat | j < i && IsCall(events, j, events[i].key) ::
                LeftSince(c, true, events, events[i].key, j, i, events[i].at) < 1.0
  {
    RefusedIff(c, events, i);
    EvictionIsInvisible(c, events, i);
    forall j: nat | j < i && IsCall(events, j, events[i].key)
      ensures LeftSince(c, true, events, events[i].key, j, i, events[i].at)
           == LeftSince(c, false, events, events[i].key, j, i, events[i].at)
    {
      SameSince(c, events, events[i].key, j, i);
    }
  }

  lemma {:induction false} SameSince(c: Config, events: seq<Event>, key: string, j: nat, i: nat)
    requires c.Valid() && c.burst >= 1 && c.per <= IDLE_LIMIT && Ordered(events) && i <= |events|
    ensures AdmittedSince(c, true, events, key, j, i) == AdmittedSince(c, false, events, key, j, i)
    decreases i
  {
    hide Answer;
    if i > j {
      SameSince(c, events, key, j, i - 1);
      if events[i - 1].Call? {
        EvictionIsInvisible(c, events, i - 1);
      }
    }
  }

  // ---------- A refused call costs nothing ----------

  function Without(events: seq<Event>, i: nat): seq<Event>
    requires i < |events|
  {
    events[..i] + events[i + 1..]
  }

  /** The same clients, with buckets that hold as much at every moment. */
  ghost predicate WorthTheSame(c: Config, x: Buckets, y: Buckets)
    requires c.Valid()
  {
    && x.Keys == y.Keys
    && forall key | key in x :: SameWorth(c, x[key], y[key])
  }

  ghost predicate SameWorth(c: Config, a: Bucket, b: Bucket)
    requires c.Valid()
  {
    forall now: real :: Uncapped(c, a, now) == Uncapped(c, b, now)
  }

  lemma SameWorthSameAnswer(c: Config, x: Buckets, y: Buckets, e: Event)
    requires c.Valid() && WorthTheSame(c, x, y)
    ensures e.Call? ==> Admits(c, x, e.key, e.at) == Admits(c, y, e.key, e.at)
    ensures WorthTheSame(c, AfterEvent(c, false, x, e), AfterEvent(c, false, y, e))
  {
    if e.Call? && e.key in x {
      assert SameWorth(c, x[e.key], y[e.key]);
      assert Uncapped(c, x[e.key], e.at) == Uncapped(c, y[e.key], e.at);
    }
  }

  lemma RefusalKeepsWorth(c: Config, buckets: Buckets, e: Event)
    requires c.Valid() && c.burst >= 1 && e.Call? && !Admits(c, buckets, e.key, e.at)
    ensures WorthTheSame(c, AfterEvent(c, false, buckets, e), buckets)
  {
    hide c.Gain;
    var b, b' := buckets[e.key], AfterEvent(c, false, buckets, e)[e.key];
    forall now: real
      ensures Uncapped(c, b', now) == Uncapped(c, b, now)
    {
      GainAdds(c, e.at - b.last, now - e.at);
      assert e.at - b.last + (now - e.at) == now - b.last;
    }
    assert SameWorth(c, b', b);
  }

  lemma {:induction false} WorthAfter(c: Config, events: seq<Event>, i: nat, m: nat)
    requires c.Valid() && c.burst >= 1 && i < m <= |events| && events[i].Call? && !Answer(c, false, events, i)
    ensures m - 1 <= |Without(events, i)|
    ensures WorthTheSame(c, After(c, false, events[..m]), After(c, false, Without(events, i)[..m - 1]))
    decreases m
  {
    hide After, AfterEvent, Admits, WorthTheSame;
    var rest := Without(events, i);
    NextBuckets(c, false, events, m - 1);
    if m == i + 1 {
      assert rest[..i] == events[..i];
      RefusalKeepsWorth(c, After(c, false, events[..i]), events[i]);
    } else {
      WorthAfter(c, events, i, m - 1);
      assert rest[m - 2] == events[m - 1];
      NextBuckets(c, false, rest, m - 2);
      SameWorthSameAnswer(c, After(c, false, events[..m - 1]), After(c, false, rest[..m - 2]), events[m - 1]);
    }
  }

  /** Had a refused call not been made, every other call would have been answered as it was; with
      eviction too, for periods of at most half an hour. */
  lemma RefusedCostsNothing(c: Config, evicting: bool, events: seq<Event>, i: nat, k: nat)
    requires c.Valid() && c.burst >= 1 && (evicting ==> c.per <= 1800.0 && Ordered(events))
    requires i < |events| && events[i].Call? && !Answer(c, evicting, events, i)
    requires k < |events| && k != i && events[k].Call?
    ensures var k' := if k < i then k else k - 1;
            && k' < |Without(events, i)| && Without(events, i)[k'] == events[k]
            && Answer(c, evicting, Without(events, i), k') == Answer(c, evicting, events, k)
  {
    hide After, Admits, WorthTheSame;
    var rest, k' := Without(events, i), if k < i then k else k - 1;
    if evicting {
      assert Ordered(rest);
      EvictionIsInvisible(c, events, i);
      EvictionIsInvisible(c, events, k);
      EvictionIsInvisible(c, rest, k');
    }
    if k < i {
      assert rest[..k] == events[..k];
    } else {
      WorthAfter(c, events, i, k);
      SameWorthSameAnswer(c, After(c, false, events[..k]), After(c, false, rest[..k - 1]), events[k]);
    }
  }
}
