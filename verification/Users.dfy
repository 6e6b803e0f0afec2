/**
 * What one user of the shared table does is its own story: a response is a run of polls of its own
 * body, a WebSocket direction a run of the relay on its own scripts, and all the others do to it is
 * in the verdicts it hears. So what holds of one body or one direction holds of each in every run.
 */
module Users {
  import opened Prelude
  import opened Bandwidth
  import opened Shared
  import Throttle
  import Relay

  /** The verdicts that the table gives on the turns of a user. */
  function TurnVerdicts(rate: nat, events: seq<Event>, user: nat): seq<bool> {
    if events == [] then []
    else
      var front, e := events[..|events| - 1], events[|events| - 1];
      TurnVerdicts(rate, front, user) + Heard(Reached(rate, front), rate, e, user)
  }

  function Heard(s: State, rate: nat, e: Event, user: nat): seq<bool> {
    if e.Turn? && e.user == user && user < |s.users|
    then [Accepts(s.table, s.users[user].ip, rate, s.users[user].Amount(), e.reading)]
    else []
  }

  lemma {:induction false} NotOpenedHearsNothing(rate: nat, events: seq<Event>, user: nat)
    requires |Reached(rate, events).users| <= user
    ensures TurnVerdicts(rate, events, user) == [] && OwnActs(rate, events, user) == []
    decreases |events|
  {
    if events != [] { NotOpenedHearsNothing(rate, events[..|events| - 1], user); }
  }

  lemma OneMoreEvent(rate: nat, events: seq<Event>)
    requires events != []
    ensures Reached(rate, events) == Step(Reached(rate, events[..|events| - 1]), rate, events[|events| - 1])
  {
  }

  /** A step of somebody else leaves a user as it is. */
  lemma UserAfterStep(s: State, rate: nat, e: Event, user: nat)
    requires user < |s.users|
    ensures |Step(s, rate, e).users| >= |s.users|
    ensures var u, next := s.users[user], Step(s, rate, e).users[user];
            match e
            case Turn(i, _) => next == if i == user then u.Hear(Heard(s, rate, e, user)[0]) else u
            case Read(i, data) => next == if i == user then u.OnRead(data) else u
            case Write(i, outcome) => next == if i == user then u.OnWrite(outcome) else u
            case _ => next == u
  {
  }

  lemma ResponseAfterStep(s: State, rate: nat, e: Event, user: nat, inner: seq<Throttle.Answer>, verdicts: seq<bool>)
    requires user < |s.users| && s.users[user].Response? && s.users[user].run == Throttle.Polls(inner, rate, verdicts)
    ensures user < |Step(s, rate, e).users|
    ensures Step(s, rate, e).users[user] ==
            Response(s.users[user].ip, Throttle.Polls(inner, rate, verdicts + Heard(s, rate, e, user)))
  {
    UserAfterStep(s, rate, e, user);
    if e.Turn? && e.user == user {
      OneMoreVerdict(inner, rate, verdicts, Heard(s, rate, e, user)[0]);
    } else {
      assert verdicts + [] == verdicts;
    }
  }

  lemma SocketAfterStep(s: State, rate: nat, e: Event, user: nat, d: Relay.Direction, acts: seq<Act>)
    requires user < |s.users| && s.users[user].Socket? && s.users[user].direction == DoAll(d, acts)
    ensures user < |Step(s, rate, e).users| && Step(s, rate, e).users[user].Socket?
    ensures Step(s, rate, e).users[user].direction == DoAll(d, acts + ActsOf(s, rate, e, user))
  {
    UserAfterStep(s, rate, e, user);
    var more := ActsOf(s, rate, e, user);
    if more == [] {
      assert acts + more == acts;
    } else {
      assert more == [more[0]];
      OneMoreAct(d, acts, more[0]);
    }
  }

  /** What kind of user it is never changes. */
  lemma KindStays(s: State, rate: nat, e: Event, user: nat)
    requires user < |s.users|
    ensures user < |Step(s, rate, e).users| && (Step(s, rate, e).users[user].Socket? <==> s.users[user].Socket?)
  {
    UserAfterStep(s, rate, e, user);
  }

  lemma NewUser(s: State, rate: nat, e: Event, user: nat)
    requires |s.users| <= user < |Step(s, rate, e).users|
    ensures user == |s.users|
    ensures Step(s, rate, e).users[user] ==
            if e.OpenResponse? then NewResponse(e.ip, e.inner, rate) else Socket(Step(s, rate, e).users[user].ip, Relay.Opened(rate))
    ensures Step(s, rate, e).users[user].Response? ==> e.OpenResponse?
    ensures Heard(s, rate, e, user) == [] && ActsOf(s, rate, e, user) == []
  {
  }

  lemma OneMoreVerdict(inner: seq<Throttle.Answer>, rate: nat, verdicts: seq<bool>, v: bool)
    ensures Throttle.Polls(inner, rate, verdicts + [v]) == Throttle.Polls(inner, rate, verdicts).Observe(v)
  {
    assert (verdicts + [v])[..|verdicts|] == verdicts;
  }

  /** In every reachable state, a response is its own body polled with the verdicts that the table gave it. */
  lemma {:induction false} ResponseIsOwnPolls(rate: nat, events: seq<Event>, user: nat) returns (k: nat)
    requires user < |Reached(rate, events).users| && Reached(rate, events).users[user].Response?
    ensures k < |events| && events[k].OpenResponse? && |Reached(rate, events[..k]).users| == user
    ensures Reached(rate, events).users[user] ==
            Response(events[k].ip, Throttle.Polls(events[k].inner, rate, TurnVerdicts(rate, events, user)))
    decreases |events|
  {
    var last := |events| - 1;
    var front, e := events[..last], events[last];
    var s := Reached(rate, front);
    OneMoreEvent(rate, events);
    if user < |s.users| {
      KindStays(s, rate, e, user);
      k := ResponseIsOwnPolls(rate, front, user);
      assert events[..k] == front[..k];
      ResponseAfterStep(s, rate, e, user, events[k].inner, TurnVerdicts(rate, front, user));
    } else {
      k := last;
      NewUser(s, rate, e, user);
      NotOpenedHearsNothing(rate, front, user);
    }
  }

  // Directions

  datatype Act = Got(data: Relay.ReadAnswer) | Told(verdict: bool) | Wrote(outcome: Relay.WriteAnswer)

  function Do(d: Relay.Direction, a: Act): Relay.Direction {
    match a
    case Got(data) => d.OnRead(data)
    case Told(verdict) => d.OnVerdict(verdict)
    case Wrote(outcome) => d.OnWrite(outcome)
  }

  function DoAll(d: Relay.Direction, acts: seq<Act>): Relay.Direction
    decreases |acts|
  {
    if acts == [] then d else DoAll(Do(d, acts[0]), acts[1..])
  }

  /** What happens to a user that is a direction, in the order of the run. */
  function OwnActs(rate: nat, events: seq<Event>, user: nat): seq<Act> {
    if events == [] then []
    else
      var front, e := events[..|events| - 1], events[|events| - 1];
      OwnActs(rate, front, user) + ActsOf(Reached(rate, front), rate, e, user)
  }

  function ActsOf(s: State, rate: nat, e: Event, user: nat): seq<Act> {
    if |s.users| <= user then []
    else
      match e
      case Turn(u, r) => if u == user then [Told(Heard(s, rate, e, user)[0])] else []
      case Read(u, data) => if u == user then [Got(data)] else []
      case Write(u, outcome) => if u == user then [Wrote(outcome)] else []
      case _ => []
  }

  lemma {:induction false} OneMoreAct(d: Relay.Direction, acts: seq<Act>, a: Act)
    ensures DoAll(d, acts + [a]) == Do(DoAll(d, acts), a)
    decreases |acts|
  {
    if acts == [] {
      assert (acts + [a])[1..] == [];
    } else {
      assert (acts + [a])[1..] == acts[1..] + [a];
      OneMoreAct(Do(d, acts[0]), acts[1..], a);
    }
  }

  lemma {:induction false} SocketIsOwnActs(rate: nat, events: seq<Event>, user: nat)
    requires user < |Reached(rate, events).users| && Reached(rate, events).users[user].Socket?
    ensures Reached(rate, events).users[user].direction == DoAll(Relay.Opened(rate), OwnActs(rate, events, user))
    decreases |events|
  {
    var last := |events| - 1;
    var front, e := events[..last], events[last];
    var s := Reached(rate, front);
    OneMoreEvent(rate, events);
    if user < |s.users| {
      KindStays(s, rate, e, user);
      SocketIsOwnActs(rate, front, user);
      SocketAfterStep(s, rate, e, user, Relay.Opened(rate), OwnActs(rate, front, user));
    } else {
      NewUser(s, rate, e, user);
      NotOpenedHearsNothing(rate, front, user);
    }
  }

  /** The answers that a direction was waiting for when they came. */
  datatype Scripts = Scripts(arrivals: seq<Relay.ReadAnswer>, verdicts: seq<bool>, writes: seq<Relay.WriteAnswer>)

  function Used(d: Relay.Direction, acts: seq<Act>): Scripts
    decreases |acts|
  {
    if acts == [] then Scripts([], [], [])
    else
      var rest := Used(Do(d, acts[0]), acts[1..]);
      match acts[0]
      case Got(data) => if d.phase.AwaitingData? then rest.(arrivals := [data] + rest.arrivals) else rest
      case Told(verdict) => if d.phase.AwaitingQuota? then rest.(verdicts := [verdict] + rest.verdicts) else rest
      case Wrote(outcome) => if d.phase.AwaitingWrite? then rest.(writes := [outcome] + rest.writes) else rest
  }

  lemma {:induction false} ActsAreRun(d: Relay.Direction, acts: seq<Act>)
    ensures var used := Used(d, acts);
            DoAll(d, acts) == d.Run(used.arrivals, used.verdicts, used.writes)
    decreases |acts|
  {
    if acts != [] {
      ActsAreRun(Do(d, acts[0]), acts[1..]);
    }
  }

  /**
   * In every reachable state, a direction has written exactly what the relay writes on the answers
   * that came when it waited for them, and is over exactly when the relay is.
   */
  lemma SocketRelaysExactly(rate: nat, events: seq<Event>, user: nat)
    requires user < |Reached(rate, events).users| && Reached(rate, events).users[user].Socket?
    ensures var used := Used(Relay.Opened(rate), OwnActs(rate, events, user));
            var d := Reached(rate, events).users[user].direction;
            && d.written == Relay.Output(rate, used.arrivals, used.verdicts, used.writes)
            && (d.phase.Closed? <==> Relay.Over(rate, used.arrivals, used.verdicts, used.writes))
  {
    var used := Used(Relay.Opened(rate), OwnActs(rate, events, user));
    SocketIsOwnActs(rate, events, user);
    ActsAreRun(Relay.Opened(rate), OwnActs(rate, events, user));
    Relay.RelayIsExact(Relay.Opened(rate), used.arrivals, used.verdicts, used.writes);
  }
}
