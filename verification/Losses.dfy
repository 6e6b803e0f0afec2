/**
 * What response bodies lose when they share a quota: exactly which of them arrive whole, a run
 * that loses a frame, and which users are stuck for good.
 */
module Losses {
  import opened Prelude
  import opened Bandwidth
  import opened Quota
  import opened Shared
  import Throttle
  import Relay

  /** In the k-th step of the run the user, a response, asks the quota for a data frame that has just arrived. */
  predicate FrameArrives(rate: nat, events: seq<Event>, k: nat, user: nat)
    requires k < |events|
  {
    var s := Reached(rate, events[..k]);
    && events[k].Turn? && events[k].user == user
    && user < |s.users| && s.users[user].Response? && s.users[user].run.AsksForFrame()
  }

  /** The attempt made in that step. */
  function ArrivalAttempt(rate: nat, events: seq<Event>, k: nat, user: nat): Attempt
    requires k < |events| && FrameArrives(rate, events, k, user)
  {
    var u := Reached(rate, events[..k]).users[user];
    Attempt(u.ip, |u.run.body.Next().frame.payload|, events[k].reading)
  }

  /** It is refused, and the frame is dropped. */
  predicate RefusesAt(rate: nat, events: seq<Event>, k: nat, user: nat)
    requires k < |events|
  {
    FrameArrives(rate, events, k, user) &&
    var a := ArrivalAttempt(rate, events, k, user);
    !Accepts(Reached(rate, events[..k]).table, a.ip, rate, a.amount, a.reading)
  }

  lemma ResponseAfterStep(s: State, rate: nat, e: Event, user: nat)
    requires user < |Step(s, rate, e).users| && Step(s, rate, e).users[user].Response?
    ensures var run := Step(s, rate, e).users[user].run;
            if user >= |s.users| then run.refused == []
            else
              && s.users[user].Response? && Step(s, rate, e).users[user].ip == s.users[user].ip
              && (true in run.refused <==>
                    || true in s.users[user].run.refused
                    || (e.Turn? && e.user == user && s.users[user].run.AsksForFrame()
                        && !Accepts(s.table, s.users[user].ip, rate, s.users[user].Amount(), e.reading)))
  {
    if user < |s.users| && e.Turn? && e.user == user {
      var u := s.users[user];
      var verdict := Accepts(s.table, u.ip, rate, u.Amount(), e.reading);
      Throttle.RefusedAfter(u.run, verdict);
    }
  }

  lemma {:induction false} RefusedIff(rate: nat, events: seq<Event>, user: nat)
    requires user < |Reached(rate, events).users| && Reached(rate, events).users[user].Response?
    ensures true in Reached(rate, events).users[user].run.refused <==>
            exists k :: 0 <= k < |events| && RefusesAt(rate, events, k, user)
    decreases |events|
  {
    var last := |events| - 1;
    var front := events[..last];
    var s := Reached(rate, front);
    forall k | 0 <= k < last ensures RefusesAt(rate, events, k, user) == RefusesAt(rate, front, k, user) {
      assert events[..k] == front[..k];
    }
    ResponseAfterStep(s, rate, events[last], user);
    assert RefusesAt(rate, events, last, user) <==>
           && events[last].Turn? && events[last].user == user && user < |s.users| && s.users[user].Response?
           && s.users[user].run.AsksForFrame()
           && !Accepts(s.table, s.users[user].ip, rate, s.users[user].Amount(), events[last].reading);
    if user < |s.users| {
      RefusedIff(rate, front, user);
    } else {
      forall k | 0 <= k < |events| ensures !RefusesAt(rate, events, k, user) {
        UsersOnlyGrow(rate, front, k);
        assert events[..k] == front[..k];
      }
    }
  }

  lemma {:induction false} UsersOnlyGrow(rate: nat, events: seq<Event>, k: nat)
    requires k <= |events|
    ensures |Reached(rate, events[..k]).users| <= |Reached(rate, events).users|
    decreases |events|
  {
    if k < |events| {
      var front := events[..|events| - 1];
      assert events[..k] == front[..k];
      UsersOnlyGrow(rate, front, k);
    } else {
      assert events[..k] == events;
    }
  }

  /** The step finds an account that can pay for the frame. */
  predicate Covered(rate: nat, events: seq<Event>, k: nat, user: nat)
    requires k < |events| && FrameArrives(rate, events, k, user)
  {
    var a := ArrivalAttempt(rate, events, k, user);
    Available(Entry(Reached(rate, events[..k]).table, a.ip, a.reading.created), rate, a.reading.now) >= a.amount * NANOS
  }

  /**
   * A response has delivered every frame it took if and only if, each time one of its data frames
   * arrived, the bucket just before held enough for it, whoever else had used the bucket meanwhile.
   */
  lemma DeliversAllIffCovered(rate: nat, events: seq<Event>, user: nat)
    requires rate > 0 && user < |Reached(rate, events).users| && Reached(rate, events).users[user].Response?
    ensures var run := Reached(rate, events).users[user].run;
            run.delivered == run.taken <==>
            forall k :: 0 <= k < |events| && FrameArrives(rate, events, k, user) ==> Covered(rate, events, k, user)
  {
    var s := Reached(rate, events);
    ReachedIsConsistent(rate, events);
    assert s.users[user].Sound(rate);
    Throttle.DeliversAllIffNoneRefused(s.users[user].run);
    RefusedIff(rate, events, user);
    forall k | 0 <= k < |events|
      ensures RefusesAt(rate, events, k, user) <==>
              FrameArrives(rate, events, k, user) && !Covered(rate, events, k, user)
    {
    }
  }

  /** The log of the run up to the k-th step, with the attempt that this step makes. */
  function LogAtArrival(rate: nat, events: seq<Event>, k: nat, user: nat): seq<Attempt>
    requires k < |events| && FrameArrives(rate, events, k, user)
  {
    Reached(rate, events[..k]).log + [ArrivalAttempt(rate, events, k, user)]
  }

  /** The frame keeps its address within every allowance, given all that its users have been granted before. */
  ghost predicate Allowed(rate: nat, events: seq<Event>, k: nat, user: nat)
    requires k < |events| && FrameArrives(rate, events, k, user)
  {
    WithinAllowances(ArrivalAttempt(rate, events, k, user).ip, rate, LogAtArrival(rate, events, k, user))
  }

  lemma {:induction false} ResumedInTwo(s: State, rate: nat, events: seq<Event>, k: nat)
    requires k <= |events|
    ensures Resumed(Resumed(s, rate, events[..k]), rate, events[k..]) == Resumed(s, rate, events)
    decreases |events|
  {
    if k == |events| {
      assert events[..k] == events;
    } else {
      var front := events[..|events| - 1];
      ResumedInTwo(s, rate, front, k);
      assert front[..k] == events[..k] && events[k..][..|events[k..]| - 1] == front[k..];
    }
  }

  /** The attempt is the next one in the log of the whole run. */
  lemma ArrivalIsLogged(rate: nat, events: seq<Event>, k: nat, user: nat)
    requires rate > 0 && k < |events| && FrameArrives(rate, events, k, user)
    ensures LogAtArrival(rate, events, k, user) <= Reached(rate, events).log
  {
    var s := Reached(rate, events[..k]);
    ReachedIsConsistent(rate, events[..k]);
    assert s.users[user].Sound(rate);
    assert events[..k + 1][..k] == events[..k];
    assert Reached(rate, events[..k + 1]).log == LogAtArrival(rate, events, k, user);
    ResumedInTwo(IDLE, rate, events, k + 1);
    LogGrows(Reached(rate, events[..k + 1]), rate, events[k + 1..]);
  }

  lemma CoveredIffAllowed(rate: nat, events: seq<Event>, k: nat, user: nat)
    requires rate > 0 && k < |events| && FrameArrives(rate, events, k, user)
    requires TimelyFor(ArrivalAttempt(rate, events, k, user).ip, Reached(rate, events).log)
    ensures Covered(rate, events, k, user) <==> Allowed(rate, events, k, user)
  {
    ReachedIsConsistent(rate, events[..k]);
    ArrivalIsLogged(rate, events, k, user);
    TimelyPrefix(ArrivalAttempt(rate, events, k, user).ip, LogAtArrival(rate, events, k, user), Reached(rate, events).log);
    AcceptsIffAllowed(rate, Reached(rate, events[..k]).log, ArrivalAttempt(rate, events, k, user));
  }

  lemma AcceptsIffAllowed(rate: nat, log: seq<Attempt>, a: Attempt)
    requires TimelyFor(a.ip, log + [a])
    ensures Accepts(TableAfter(rate, log), a.ip, rate, a.amount, a.reading) <==> WithinAllowances(a.ip, rate, log + [a])
  {
    var trace := log + [a];
    assert trace[..|log|] == log && trace[..|log| + 1] == trace;
    AcceptedIffWithinAllowances(rate, trace, |log|);
  }

  lemma TimelyPrefix(ip: IpAddr, trace: seq<Attempt>, log: seq<Attempt>)
    requires trace <= log && TimelyFor(ip, log)
    ensures TimelyFor(ip, trace)
  {
    assert forall i :: 0 <= i < |trace| ==> trace[i] == log[i];
  }

  lemma {:induction false} AddressStays(s: State, rate: nat, events: seq<Event>, user: nat)
    requires user < |s.users|
    ensures user < |Resumed(s, rate, events).users| && Resumed(s, rate, events).users[user].ip == s.users[user].ip
    decreases |events|
  {
    if events != [] { AddressStays(s, rate, events[..|events| - 1], user); }
  }

  /**
   * The same condition without the bucket: a response has delivered every frame it took if and only
   * if each of its data frames, on arrival, kept its address within 2 * rate + rate * (now - s) since
   * every earlier attempt of that address at time s, and within rate * (now - created) altogether.
   */
  lemma DeliversAllIffAllowed(rate: nat, events: seq<Event>, user: nat)
    requires rate > 0 && user < |Reached(rate, events).users| && Reached(rate, events).users[user].Response?
    requires TimelyFor(Reached(rate, events).users[user].ip, Reached(rate, events).log)
    ensures var run := Reached(rate, events).users[user].run;
            run.delivered == run.taken <==>
            forall k :: 0 <= k < |events| && FrameArrives(rate, events, k, user) ==> Allowed(rate, events, k, user)
  {
    DeliversAllIffCovered(rate, events, user);
    forall k | 0 <= k < |events| && FrameArrives(rate, events, k, user)
      ensures Covered(rate, events, k, user) <==> Allowed(rate, events, k, user)
    {
      ResumedInTwo(IDLE, rate, events, k);
      AddressStays(Reached(rate, events[..k]), rate, events[k..], user);
      CoveredIffAllowed(rate, events, k, user);
    }
  }

  /** A body of one data frame, polled at once by a client whose address is new, and again two seconds later. */
  function LossyRun(ip: IpAddr, payload: seq<Byte>): seq<Event> {
    var now, later := Turn(0, Reading.Reading(0, 0)), Turn(0, Reading.Reading(0, 2 * NANOS));
    [OpenResponse(ip, [Throttle.Ready(Throttle.Data(payload)), Throttle.End]), now, now, later, later]
  }

  lemma LossyArrival(rate: nat, ip: IpAddr, payload: seq<Byte>, s: State)
    requires |payload| > 0 && s.table == map[]
    requires s.users == [NewResponse(ip, [Throttle.Ready(Throttle.Data(payload)), Throttle.End], rate)] && rate > 0
    ensures var now := Turn(0, Reading.Reading(0, 0));
            var next := Step(Step(s, rate, now), rate, now);
            && next.table == map[ip := Bucket(0, 0)]
            && next.users == [Response(ip, Throttle.Run(Throttle.Body([Throttle.End], rate, |payload|), false,
                                                        [Throttle.Data(payload)], [true], [], 0))]
  {
    var r, inner := Reading.Reading(0, 0), [Throttle.Ready(Throttle.Data(payload)), Throttle.End];
    var mid, run := Step(s, rate, Turn(0, r)), s.users[0].run;
    Throttle.ObserveWithoutFrame(run, false);
    assert mid.table == map[] && mid.users == [Response(ip, run.(receiving := true))];
    assert !Accepts(map[], ip, rate, |payload|, r);
    Throttle.ObserveWithFrame(mid.users[0].run, false);
    assert inner[1..] == [Throttle.End] && mid.users[0].Amount() == |payload|;
    assert mid.users[0].run.Observe(false) ==
           Throttle.Run(Throttle.Body([Throttle.End], rate, |payload|), false, [Throttle.Data(payload)], [true], [], 0);
  }

  lemma LossyPayment(rate: nat, ip: IpAddr, frame: Throttle.Frame, n: nat, s: State)
    requires 0 < n <= 2 * rate && s.table == map[ip := Bucket(0, 0)]
    requires s.users == [Response(ip, Throttle.Run(Throttle.Body([Throttle.End], rate, n), false, [frame], [true], [], 0))]
    ensures var later := Turn(0, Reading.Reading(0, 2 * NANOS));
            Step(Step(s, rate, later), rate, later).users ==
            [Response(ip, Throttle.Run(Throttle.Body([], rate, 0), false, [frame], [true], [], n))]
  {
    var r := Reading.Reading(0, 2 * NANOS);
    var mid, run := Step(s, rate, Turn(0, r)), s.users[0].run;
    assert Available(s.table[ip], rate, r.now) == Cap(rate);
    Throttle.ObserveWithoutFrame(run, true);
    assert mid.users == [Response(ip, run.(body := run.body.(pending := 0), receiving := true, debited := n))];
    var run' := mid.users[0].run;
    assert [Throttle.End][1..] == [] && !run'.Takes() && !mid.users[0].Asks();
    forall verdict ensures run'.Observe(verdict) == run'.(body := Throttle.Body([], rate, 0), receiving := false) {
      Throttle.ObserveWithoutFrame(run', verdict);
    }
  }

  /**
   * The empty bucket of a new address refuses the frame; two seconds later the body pays for it,
   * and finds that the wrapped body has ended: the client has paid for bytes that it never gets.
   */
  lemma RefusedFrameIsLost(rate: nat, ip: IpAddr, payload: seq<Byte>)
    requires 0 < |payload| <= 2 * rate
    ensures var s := Reached(rate, LossyRun(ip, payload));
            && |s.users| == 1 && s.users[0].Response?
            && s.users[0].run.taken == [Throttle.Data(payload)] && s.users[0].run.delivered == []
            && s.users[0].run.debited == |payload| && s.users[0].run.body == Throttle.Body([], rate, 0)
  {
    var events := LossyRun(ip, payload);
    assert events[..0] == [] && events[..5] == events;
    forall k | 0 <= k < 5 ensures Reached(rate, events[..k + 1]) == Step(Reached(rate, events[..k]), rate, events[k]) {
      assert events[..k + 1][..k] == events[..k];
    }
    LossyArrival(rate, ip, payload, Reached(rate, events[..1]));
    LossyPayment(rate, ip, Throttle.Data(payload), |payload|, Reached(rate, events[..3]));
  }

  /** A response that owes, or a socket that waits to pay for, more than a full bucket holds. */
  predicate Stuck(u: User, rate: nat) {
    match u
    case Response(_, run) => !run.receiving && run.body.rate == rate && run.body.pending > 2 * rate
    case Socket(_, direction) => direction.phase.AwaitingQuota? && |direction.phase.chunk| > 2 * rate
  }

  /** Such a user never moves again, whatever happens around it. */
  lemma {:induction false} OversizedDemandStalls(s: State, rate: nat, events: seq<Event>, user: nat)
    requires rate > 0 && user < |s.users| && Stuck(s.users[user], rate)
    ensures user < |Resumed(s, rate, events).users| && Resumed(s, rate, events).users[user] == s.users[user]
    decreases |events|
  {
    if events != [] {
      var front, e := events[..|events| - 1], events[|events| - 1];
      OversizedDemandStalls(s, rate, front, user);
      var u := s.users[user];
      if e.Turn? && e.user == user {
        assert !Accepts(Resumed(s, rate, front).table, u.ip, rate, u.Amount(), e.reading);
        if u.Response? { Throttle.ObserveWithoutFrame(u.run, false); }
      }
    }
  }
}
