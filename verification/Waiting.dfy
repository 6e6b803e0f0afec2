/**
 * How long a response that owes, or a WebSocket direction that holds a chunk, waits on the shared table
 * when nobody else uses its bucket, and how somebody else can keep it waiting.
 */
module Waiting {
  import opened Prelude
  import opened Bandwidth
  import opened Quota
  import opened Shared
  import Losses
  import Throttle
  import Relay

  /** The clock readings of the attempts a user makes while it waits. */
  function Attempts(user: nat, events: seq<Event>): seq<Instant> {
    if events == [] then []
    else
      var e := events[|events| - 1];
      Attempts(user, events[..|events| - 1]) + if e.Turn? && e.user == user then [e.reading.now] else []
  }

  /** The step is a turn of someone else who asks for quota of the same address. */
  predicate Interferes(s: State, e: Event, user: nat, ip: IpAddr) {
    e.Turn? && e.user != user && e.user < |s.users| && s.users[e.user].Asks() && s.users[e.user].ip == ip
  }

  /** A refusal leaves the user as it is: a socket that holds a chunk, or a response that owes. */
  predicate Waits(u: User) {
    u.Asks() && (u.Response? ==> !u.run.receiving)
  }

  /**
   * From s on, the user waits through all the events to be granted what it asks for, while nobody
   * else uses the bucket of its address.
   */
  ghost predicate WaitsAlone(s: State, rate: nat, events: seq<Event>, user: nat) {
    && user < |s.users| && Waits(s.users[user])
    && (events != [] ==>
          var front, e := events[..|events| - 1], events[|events| - 1];
          && WaitsAlone(s, rate, front, user)
          && !Interferes(Resumed(s, rate, front), e, user, s.users[user].ip)
          && user < |Resumed(s, rate, events).users|
          && Resumed(s, rate, events).users[user] == s.users[user])
  }

  lemma {:induction false} TriedOfPrefix(b: Bucket, rate: nat, n: nat, times: seq<Instant>, more: seq<Instant>, k: nat)
    requires k <= |times|
    ensures Relay.Tried(b, rate, n, times + more, k) == Relay.Tried(b, rate, n, times, k)
  {
    if k > 0 { TriedOfPrefix(b, rate, n, times, more, k - 1); }
  }

  /** The bucket is what the refused attempts have made of the bucket b, or has not been touched yet. */
  ghost predicate Refused(t0: Table, t: Table, ip: IpAddr, rate: nat, n: nat, times: seq<Instant>, b: Bucket) {
    if times == [] then (ip in t <==> ip in t0) && (ip in t ==> t[ip] == t0[ip])
    else
      && b.tokens >= 0 && (ip in t0 ==> b == t0[ip])
      && ip in t && t[ip] == Relay.Tried(b, rate, n, times, |times|)
      && forall i :: 0 <= i < |times| ==> !Relay.Pays(b, rate, n, times, i)
  }

  /** One more refused attempt; the first one creates the bucket if there is none. */
  lemma RefusedAgain(t0: Table, t: Table, ip: IpAddr, rate: nat, n: nat, times: seq<Instant>, b: Bucket, r: Reading) returns (b': Bucket)
    requires Refused(t0, t, ip, rate, n, times, b) && !Accepts(t, ip, rate, n, r)
    requires ip in t ==> t[ip].tokens >= 0
    ensures Refused(t0, Debited(t, ip, rate, n, r), ip, rate, n, times + [r.now], b')
  {
    var now := times + [r.now];
    b' := if times == [] then Entry(t, ip, r.created) else b;
    TriedOfPrefix(b', rate, n, times, [r.now], |times|);
    assert Relay.Tried(b', rate, n, times, |times|) == Entry(t, ip, r.created);
    forall i | 0 <= i < |now| ensures !Relay.Pays(b', rate, n, now, i) {
      TriedOfPrefix(b', rate, n, times, [r.now], i);
      if i < |times| { assert !Relay.Pays(b', rate, n, times, i); }
    }
  }

  lemma GrantChanges(u: User, rate: nat)
    requires Waits(u) && u.Sound(rate)
    ensures u.Hear(true) != u
  {
  }

  lemma {:induction false} WaitingIsRefused(s: State, rate: nat, events: seq<Event>, user: nat) returns (b: Bucket)
    requires rate > 0 && Consistent(s, rate) && WaitsAlone(s, rate, events, user)
    ensures Refused(s.table, Resumed(s, rate, events).table, s.users[user].ip, rate, s.users[user].Amount(),
                    Attempts(user, events), b)
    decreases |events|
  {
    b := Fresh(0);
    if events != [] {
      var front, e := events[..|events| - 1], events[|events| - 1];
      b := WaitingIsRefused(s, rate, front, user);
      var mid, u := Resumed(s, rate, front), s.users[user];
      ResumedIsConsistent(s, rate, front);
      assert front != [] ==> mid.users[user] == u;
      if e.Turn? && e.user == user {
        GrantChanges(u, rate);
        if Accepts(mid.table, u.ip, rate, u.Amount(), e.reading) {
          assert false;
        }
        if u.ip in mid.table { BucketsWithinCap(rate, mid.log, u.ip); }
        b := RefusedAgain(s.table, mid.table, u.ip, rate, u.Amount(), Attempts(user, front), b, e.reading);
      } else {
        assert Attempts(user, events) == Attempts(user, front);
        assert u.ip in mid.table ==> Resumed(s, rate, events).table[u.ip] == mid.table[u.ip];
      }
    }
  }

  /**
   * A socket that alone uses its bucket, in any reachable state, and sleeps five milliseconds after
   * every refusal, is refused at most 200 * n / rate times, rounded up, for a chunk of n <= 2 * rate bytes.
   */
  lemma SoleSocketWaitsBriefly(rate: nat, before: seq<Event>, during: seq<Event>, user: nat)
    requires rate > 0 && WaitsAlone(Reached(rate, before), rate, during, user)
    requires Relay.Spaced(Attempts(user, during))
    ensures var n := Reached(rate, before).users[user].Amount();
            n <= 2 * rate ==> |Attempts(user, during)| <= Relay.MostRefusals(rate, n)
  {
    var s, times := Reached(rate, before), Attempts(user, during);
    var n := s.users[user].Amount();
    ReachedIsConsistent(rate, before);
    var b := WaitingIsRefused(s, rate, during, user);
    if n <= 2 * rate && |times| > Relay.MostRefusals(rate, n) {
      Relay.SoleUserIsPaid(b, rate, n, times);
      assert false;
    }
  }

  /** Refused attempts save up everything that accrues after the bucket was filled last. */
  lemma {:induction false} RefusalsKeepAccruals(b: Bucket, rate: nat, n: nat, times: seq<Instant>, k: nat, now: Instant)
    requires b.tokens >= 0 && k <= |times| && forall i :: 0 <= i < k ==> !Relay.Pays(b, rate, n, times, i)
    ensures var have := Available(Relay.Tried(b, rate, n, times, k), rate, now);
            have >= (now - b.lastFill) * rate || have == Cap(rate)
  {
    if k > 0 {
      var last := times[k - 1];
      RefusalsKeepAccruals(b, rate, n, times, k - 1, last);
      assert !Relay.Pays(b, rate, n, times, k - 1);
      MulMono(now - last, ElapsedSince(now, last), rate);
      MulMono(0, ElapsedSince(now, last), rate);
      assert (now - b.lastFill) * rate == (last - b.lastFill) * rate + (now - last) * rate;
    } else {
      MulMono(now - b.lastFill, ElapsedSince(now, b.lastFill), rate);
    }
  }

  /**
   * A user that waits alone for n <= 2 * rate bytes, however often it has been refused, is granted
   * them by its first turn at least n / rate seconds after its bucket was filled last.
   */
  lemma PaidOnceAccrued(rate: nat, before: seq<Event>, during: seq<Event>, user: nat, r: Reading)
    requires rate > 0 && WaitsAlone(Reached(rate, before), rate, during, user)
    requires var s := Reached(rate, before);
             var u := s.users[user];
             && u.Amount() <= 2 * rate && u.ip in s.table
             && (r.now - s.table[u.ip].lastFill) * rate >= u.Amount() * NANOS
    ensures var s := Reached(rate, before);
            TakeTurn(Resumed(s, rate, during), rate, user, r).users[user] == s.users[user].Hear(true)
  {
    var s := Reached(rate, before);
    var u, end := s.users[user], Resumed(s, rate, during);
    var n, times := u.Amount(), Attempts(user, during);
    ReachedIsConsistent(rate, before);
    var b := WaitingIsRefused(s, rate, during, user);
    BucketsWithinCap(rate, s.log, u.ip);
    RefusalsKeepAccruals(s.table[u.ip], rate, n, times, if times == [] then 0 else |times|, r.now);
    assert end.users[user] == u;
    assert Accepts(end.table, u.ip, rate, n, r);
  }

  /** A response that owes is known to the table. */
  ghost predicate DebtorsKnown(s: State) {
    forall u :: u in s.users && u.Response? && u.run.body.pending > 0 ==> u.ip in s.table
  }

  lemma TurnKeepsDebtorsKnown(s: State, rate: nat, user: nat, r: Reading)
    requires DebtorsKnown(s) && user < |s.users| && s.users[user].Sound(rate)
    ensures DebtorsKnown(TakeTurn(s, rate, user, r))
  {
    var u, next := s.users[user], TakeTurn(s, rate, user, r);
    var verdict := Accepts(s.table, u.ip, rate, u.Amount(), r);
    assert u.Response? && u.Hear(verdict).run.body.pending > 0 ==> u.run.body.pending > 0 || u.Asks();
    assert u in s.users;
    forall v | v in next.users && v.Response? && v.run.body.pending > 0 ensures v.ip in next.table {
      if v !in s.users { assert v == u.Hear(verdict); }
    }
  }

  lemma {:induction false} ReachedDebtorsKnown(rate: nat, events: seq<Event>)
    requires rate > 0
    ensures DebtorsKnown(Reached(rate, events))
    decreases |events|
  {
    if events != [] {
      var front, e := events[..|events| - 1], events[|events| - 1];
      var s := Reached(rate, front);
      ReachedDebtorsKnown(rate, front);
      ReachedIsConsistent(rate, front);
      if e.Turn? && e.user < |s.users| { TurnKeepsDebtorsKnown(s, rate, e.user, e.reading); }
    }
  }

  /**
   * For a response: one that owes n <= 2 * rate bytes and is left alone with its bucket pays its debt
   * with its first turn at least n / rate seconds after the bucket was filled last.
   */
  lemma DebtIsPaidOnceAccrued(rate: nat, before: seq<Event>, during: seq<Event>, user: nat, r: Reading)
    requires rate > 0 && WaitsAlone(Reached(rate, before), rate, during, user)
    requires var u := Reached(rate, before).users[user]; u.Response? && u.run.body.pending <= 2 * rate
    ensures var s := Reached(rate, before);
            var u := s.users[user];
            && u.ip in s.table
            && ((r.now - s.table[u.ip].lastFill) * rate >= u.run.body.pending * NANOS ==>
                  var run := TakeTurn(Resumed(s, rate, during), rate, user, r).users[user].run;
                  run == u.run.(body := u.run.body.(pending := 0), receiving := true, debited := u.run.debited + u.run.body.pending))
  {
    var s := Reached(rate, before);
    var u := s.users[user];
    ReachedIsConsistent(rate, before);
    ReachedDebtorsKnown(rate, before);
    assert u in s.users && u.Sound(rate);
    Throttle.ObserveWithoutFrame(u.run, true);
    if (r.now - s.table[u.ip].lastFill) * rate >= u.run.body.pending * NANOS {
      PaidOnceAccrued(rate, before, during, user, r);
    }
  }

  // A competitor on the same address

  /** A wrapped body of k equal frames. */
  function Frames(p: seq<Byte>, k: nat): seq<Throttle.Answer> {
    if k == 0 then [] else [Throttle.Ready(Throttle.Data(p))] + Frames(p, k - 1)
  }

  /** Instants one second apart, counted from 0. */
  ghost predicate SecondsApart(times: seq<Instant>) {
    && (times != [] ==> times[0] == NANOS)
    && forall i :: 0 < i < |times| ==> times[i] == times[i - 1] + NANOS
  }

  function LastOf(times: seq<Instant>): Instant {
    if times == [] then 0 else times[|times| - 1]
  }

  /**
   * The debtor waits at a bucket that was emptied at `now`, and a response of the same address has had
   * `done` frames delivered and so many to go.
   */
  ghost predicate Contended(s: State, rate: nat, debtor: User, p: seq<Byte>, now: Instant, left: nat, done: nat, receiving: bool) {
    && |s.users| == 2 && s.users[0] == debtor && Waits(debtor)
    && debtor.ip in s.table && s.table[debtor.ip] == Bucket(0, now)
    && s.users[1].Response? && s.users[1].ip == debtor.ip
    && var run := s.users[1].run;
       run.body == Throttle.Body(Frames(p, left), rate, 0) && run.receiving == receiving && |run.delivered| == done
  }

  /** A competitor without debt goes on to its next frame. */
  lemma CompetitorGoesOn(s: State, rate: nat, debtor: User, p: seq<Byte>, now: Instant, left: nat, done: nat, r: Reading)
    requires Contended(s, rate, debtor, p, now, left, done, false) && rate > 0
    ensures Contended(TakeTurn(s, rate, 1, r), rate, debtor, p, now, left, done, true)
  {
    Throttle.ObserveWithoutFrame(s.users[1].run, Accepts(s.table, debtor.ip, rate, s.users[1].Amount(), r));
  }

  /** It takes all that has accrued in the second, with a frame of just that size. */
  lemma CompetitorTakesAll(s: State, rate: nat, debtor: User, p: seq<Byte>, now: Instant, left: nat, done: nat)
    requires Contended(s, rate, debtor, p, now, left + 1, done, true) && |p| == rate > 0
    ensures var r := Reading.Reading(now + NANOS, now + NANOS);
            Contended(TakeTurn(s, rate, 1, r), rate, debtor, p, now + NANOS, left, done + 1, false)
  {
    var r, inner := Reading.Reading(now + NANOS, now + NANOS), Frames(p, left + 1);
    assert inner[0] == Throttle.Ready(Throttle.Data(p)) && inner[1..] == Frames(p, left);
    assert s.users[1].Amount() == rate;
    assert Available(s.table[debtor.ip], rate, r.now) == rate * NANOS;
    Throttle.ObserveWithFrame(s.users[1].run, true);
  }

  lemma DebtorIsRefused(s: State, rate: nat, debtor: User, p: seq<Byte>, now: Instant, left: nat, done: nat)
    requires Contended(s, rate, debtor, p, now, left, done, false) && debtor.Amount() > 0
    ensures Contended(TakeTurn(s, rate, 0, Reading.Reading(now, now)), rate, debtor, p, now, left, done, false)
  {
    assert !Accepts(s.table, debtor.ip, rate, debtor.Amount(), Reading.Reading(now, now));
    if debtor.Response? { Throttle.ObserveWithoutFrame(debtor.run, false); }
  }

  lemma OneMoreEvent(s: State, rate: nat, events: seq<Event>, e: Event)
    ensures Resumed(s, rate, events + [e]) == Step(Resumed(s, rate, events), rate, e)
    ensures Attempts(0, events + [e]) == Attempts(0, events) + if e.Turn? && e.user == 0 then [e.reading.now] else []
  {
    assert (events + [e])[..|events|] == events;
  }

  /** A second later the competitor is polled, and right after it the debtor. */
  lemma WaitsAnotherRound(s: State, rate: nat, debtor: User, p: seq<Byte>, events: seq<Event>, now: Instant, left: nat, done: nat)
    returns (all: seq<Event>)
    requires Contended(Resumed(s, rate, events), rate, debtor, p, now, left + 1, done, false) && |p| == rate > 0
    requires debtor.Amount() > 0
    ensures Contended(Resumed(s, rate, all), rate, debtor, p, now + NANOS, left, done + 1, false)
    ensures Attempts(0, all) == Attempts(0, events) + [now + NANOS]
  {
    var r := Reading.Reading(now + NANOS, now + NANOS);
    var e1 := events + [Turn(1, r)];
    var e2 := e1 + [Turn(1, r)];
    OneMoreEvent(s, rate, events, Turn(1, r));
    CompetitorGoesOn(Resumed(s, rate, events), rate, debtor, p, now, left + 1, done, r);
    OneMoreEvent(s, rate, e1, Turn(1, r));
    CompetitorTakesAll(Resumed(s, rate, e1), rate, debtor, p, now, left, done);
    OneMoreEvent(s, rate, e2, Turn(0, r));
    DebtorIsRefused(Resumed(s, rate, e2), rate, debtor, p, now + NANOS, left, done + 1);
    all := e2 + [Turn(0, r)];
  }

  lemma AnotherSecond(times: seq<Instant>)
    requires SecondsApart(times)
    ensures SecondsApart(times + [LastOf(times) + NANOS])
    ensures LastOf(times + [LastOf(times) + NANOS]) == LastOf(times) + NANOS
  {
  }

  lemma {:induction false} RoundsKeepWaiting(s: State, rate: nat, debtor: User, p: seq<Byte>, left: nat, k: nat)
    returns (events: seq<Event>, times: seq<Instant>)
    requires Contended(s, rate, debtor, p, 0, left + k, 0, false) && |p| == rate > 0
    requires debtor.Amount() > 0
    ensures Contended(Resumed(s, rate, events), rate, debtor, p, LastOf(times), left, k, false)
    ensures times == Attempts(0, events) && |times| == k && SecondsApart(times)
    decreases k
  {
    if k == 0 {
      events, times := [], [];
    } else {
      var front, before := RoundsKeepWaiting(s, rate, debtor, p, left + 1, k - 1);
      events := WaitsAnotherRound(s, rate, debtor, p, front, LastOf(before), left, k - 1);
      times := before + [LastOf(before) + NANOS];
      AnotherSecond(before);
    }
  }

  /** A response whose first frame is refused, and a second response of the same address. */
  function Opening(ip: IpAddr, payload: seq<Byte>, p: seq<Byte>, k: nat): seq<Event> {
    Losses.LossyRun(ip, payload)[..3] + [OpenResponse(ip, Frames(p, k))]
  }

  lemma OpeningIsContended(rate: nat, ip: IpAddr, payload: seq<Byte>, p: seq<Byte>, k: nat) returns (debtor: User)
    requires |payload| > 0 && rate > 0
    ensures debtor == Response(ip, Throttle.Run(Throttle.Body([Throttle.End], rate, |payload|), false,
                                                [Throttle.Data(payload)], [true], [], 0))
    ensures var s := Reached(rate, Opening(ip, payload, p, k));
            Contended(s, rate, debtor, p, 0, k, 0, false)
  {
    var all, opening := Losses.LossyRun(ip, payload), Opening(ip, payload, p, k);
    debtor := Response(ip, Throttle.Run(Throttle.Body([Throttle.End], rate, |payload|), false,
                                        [Throttle.Data(payload)], [true], [], 0));
    assert all[..0] == [] && opening == all[..3] + [OpenResponse(ip, Frames(p, k))];
    OneMoreEvent(IDLE, rate, all[..3], OpenResponse(ip, Frames(p, k)));
    forall i | 0 <= i < 3 ensures Reached(rate, all[..i + 1]) == Step(Reached(rate, all[..i]), rate, all[i]) {
      assert all[..i + 1][..i] == all[..i];
    }
    Losses.LossyArrival(rate, ip, payload, Reached(rate, all[..1]));
  }

  /**
   * No bound holds for a user that shares its bucket: for every k, in some run a response that owes n
   * bytes, however few, asks once a second and is refused k times, because another response of its
   * address takes all that accrues, and has k frames delivered.
   */
  lemma CompetitorKeepsWaiting(rate: nat, ip: IpAddr, payload: seq<Byte>, p: seq<Byte>, k: nat) returns (before: seq<Event>, during: seq<Event>)
    requires |payload| > 0 && |p| == rate > 0
    ensures |Attempts(0, during)| == k && SecondsApart(Attempts(0, during))
    ensures var s := Resumed(Reached(rate, before), rate, during);
            && s == Reached(rate, before + during)
            && |s.users| == |Reached(rate, before).users| == 2 && s.users[0] == Reached(rate, before).users[0]
            && s.users[0].Response? && s.users[1].Response? && s.users[0].ip == s.users[1].ip == ip
            && s.users[0].run.body.pending == |payload| && s.users[0].run.debited == 0
            && |s.users[1].run.delivered| == k
  {
    before := Opening(ip, payload, p, k);
    var debtor := OpeningIsContended(rate, ip, payload, p, k);
    var s := Reached(rate, before);
    assert debtor == s.users[0];
    var times;
    during, times := RoundsKeepWaiting(s, rate, debtor, p, 0, k);
    Losses.ResumedInTwo(IDLE, rate, before + during, |before|);
    assert (before + during)[..|before|] == before && (before + during)[|before|..] == during;
  }
}
