/**
 * The per-IP bandwidth quota of src/bandwidth.rs: a token bucket per address, held in one
 * table that every response body and every WebSocket direction debits.
 *
 * Tokens are counted in billionths of a byte, so that a nanosecond at `rate` bytes per second
 * adds exactly `rate` tokens and every comparison of the source is an exact integer one.
 */
module Bandwidth {
  import opened Prelude

  datatype Bucket = Bucket(tokens: int, lastFill: Instant)

  type Table = map<IpAddr, Bucket>

  /** The two clock readings of one call: the first is used only if a bucket must be created. */
  datatype Reading = Reading(created: Instant, now: Instant)

  function Cap(rate: nat): nat {
    2 * rate * NANOS
  }

  function Fresh(at: Instant): Bucket {
    Bucket(0, at)
  }

  /** What the bucket can pay at `now`. */
  function Available(b: Bucket, rate: nat, now: Instant): int {
    var grown := b.tokens + ElapsedSince(now, b.lastFill) * rate;
    if grown > Cap(rate) then Cap(rate) else grown
  }

  predicate Affordable(b: Bucket, rate: nat, amount: nat, now: Instant) {
    Available(b, rate, now) >= amount * NANOS
  }

  function AfterCall(b: Bucket, rate: nat, amount: nat, now: Instant): Bucket {
    var have := Available(b, rate, now);
    Bucket(if Affordable(b, rate, amount, now) then have - amount * NANOS else have, now)
  }

  function Entry(t: Table, ip: IpAddr, created: Instant): Bucket {
    if ip in t then t[ip] else Fresh(created)
  }

  predicate Accepts(t: Table, ip: IpAddr, rate: nat, amount: nat, r: Reading) {
    Affordable(Entry(t, ip, r.created), rate, amount, r.now)
  }

  function Debited(t: Table, ip: IpAddr, rate: nat, amount: nat, r: Reading): Table {
    t[ip := AfterCall(Entry(t, ip, r.created), rate, amount, r.now)]
  }

  class TokenBucket {
    var tokens: int
    var lastFill: Instant

    ghost function View(): Bucket
      reads this
    {
      Bucket(tokens, lastFill)
    }

    constructor (created: Instant)
      ensures View() == Fresh(created)
    {
      tokens := 0;
      lastFill := created;
    }

    method Consume(rate: nat, amount: nat, now: Instant) returns (ok: bool)
      modifies this
      ensures ok == Affordable(old(View()), rate, amount, now)
      ensures View() == AfterCall(old(View()), rate, amount, now)
    {
      var elapsed := ElapsedSince(now, lastFill);
      tokens := tokens + elapsed * rate;
      if tokens > 2 * rate * NANOS {
        tokens := 2 * rate * NANOS;
      }
      lastFill := now;
      if tokens >= amount * NANOS {
        tokens := tokens - amount * NANOS;
        ok := true;
      } else {
        ok := false;
      }
    }
  }

  class BandwidthLimiter {
    var buckets: map<IpAddr, TokenBucket>

    /** No two addresses share a bucket. */
    ghost predicate Valid()
      reads this
    {
      forall a, b :: a in buckets && b in buckets && a != b ==> buckets[a] != buckets[b]
    }

    ghost function View(): Table
      reads this, buckets.Values
    {
      map ip | ip in buckets :: buckets[ip].View()
    }

    constructor ()
      ensures Valid() && View() == map[] && buckets == map[]
    {
      buckets := map[];
    }

    method TryConsume(ip: IpAddr, rate: nat, amount: nat, r: Reading) returns (ok: bool)
      requires Valid()
      modifies this, buckets.Values
      ensures Valid() && fresh(buckets.Values - old(buckets.Values))
      ensures ok == Accepts(old(View()), ip, rate, amount, r)
      ensures View() == Debited(old(View()), ip, rate, amount, r)
    {
      ghost var before := View();
      if ip !in buckets {
        var bucket := new TokenBucket(r.created);
        buckets := buckets[ip := bucket];
      }
      assert buckets[ip].View() == Entry(before, ip, r.created);
      ok := buckets[ip].Consume(rate, amount, r.now);
      assert forall other :: other in buckets && other != ip ==> buckets[other].View() == before[other];
    }
  }
}
