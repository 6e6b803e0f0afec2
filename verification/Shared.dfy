/**
 * Response bodies and WebSocket directions at work together on one quota table. Each half of a
 * poll, each read, each retry and each write of any of them is one step, and steps come in any
 * order: between the two debits of one poll anyone else may debit the same bucket.
 */
module Shared {
  import opened Prelude
  import opened Bandwidth
  import opened Quota
  import Throttle
  import Relay

  datatype User =
    | Response(ip: IpAddr, run: Throttle.Run)
    | Socket(ip: IpAddr, direction: Relay.Direction)
  {
    /** The user's next turn tries to consume some of its quota, and how much. */
    predicate Asks() {
      match this
      case Response(_, run) => run.Asks()
      case Socket(_, direction) => direction.phase.AwaitingQuota?
    }

    function Amount(): nat {
      match this
      case Response(_, run) => run.Amount()
      case Socket(_, direction) => if direction.phase.AwaitingQuota? then |direction.phase.chunk| else 0
    }

    /** The user's next turn, given the quota's verdict if it asks for one. */
    function Hear(verdict: bool): User {
      match this
      case Response(_, run) => this.(run := run.Observe(verdict))
      case Socket(_, direction) => this.(direction := direction.OnVerdict(verdict))
    }

    function OnRead(data: Relay.ReadAnswer): User {
      if Socket? then this.(direction := direction.OnRead(data)) else this
    }

    function OnWrite(outcome: Relay.WriteAnswer): User {
      if Socket? then this.(direction := direction.OnWrite(outcome)) else this
    }

    ghost predicate Sound(rate: nat) {
      && rate > 0
      && match this
      case Response(_, run) => run.body.rate == rate && Throttle.Settled(run)
      case Socket(_, direction) => direction.maxBw == rate && direction.InStep()
    }
  }

  function DebitedBytes(u: User): int {
    match u
    case Response(_, run) => run.debited
    case Socket(_, direction) => direction.debited
  }

  /** Bytes handed on: delivered to the client, or written to the other end of the socket. */
  function CarriedBytes(u: User): int {
    match u
    case Response(_, run) => Throttle.Bytes(run.delivered)
    case Socket(_, direction) => |direction.written|
  }

  /** Bytes paid for that the user is about to write. */
  function PaidAhead(u: User): int {
    if u.Socket? && u.direction.phase.AwaitingWrite? then |u.direction.phase.chunk| else 0
  }

  /** A turn is half a poll of a body, or one attempt of a socket to pay for its chunk. */
  datatype Event =
    | OpenResponse(ip: IpAddr, inner: seq<Throttle.Answer>)
    | OpenSocket(ip: IpAddr)
    | Turn(user: nat, reading: Reading)
    | Read(user: nat, data: Relay.ReadAnswer)
    | Write(user: nat, outcome: Relay.WriteAnswer)

  /** The quota table, everyone using it, and all the attempts made on it so far. */
  datatype State = State(table: Table, users: seq<User>, log: seq<Attempt>)

  const IDLE := State(map[], [], [])

  function NewResponse(ip: IpAddr, inner: seq<Throttle.Answer>, rate: nat): User {
    Response(ip, Throttle.Polls(inner, rate, []))
  }

  function Step(s: State, rate: nat, e: Event): State {
    match e
    case OpenResponse(ip, inner) => s.(users := s.users + [NewResponse(ip, inner, rate)])
    case OpenSocket(ip) => s.(users := s.users + [Socket(ip, Relay.Opened(rate))])
    case Turn(user, r) => if user < |s.users| then TakeTurn(s, rate, user, r) else s
    case Read(user, data) =>
      if user < |s.users| then s.(users := s.users[user := s.users[user].OnRead(data)]) else s
    case Write(user, outcome) =>
      if user < |s.users| then s.(users := s.users[user := s.users[user].OnWrite(outcome)]) else s
  }

  function TakeTurn(s: State, rate: nat, user: nat, r: Reading): State
    requires user < |s.users|
  {
    var u := s.users[user];
    var n := u.Amount();
    var users := s.users[user := u.Hear(Accepts(s.table, u.ip, rate, n, r))];
    if u.Asks() then State(Debited(s.table, u.ip, rate, n, r), users, s.log + [Attempt(u.ip, n, r)])
    else s.(users := users)
  }

  function Resumed(s: State, rate: nat, events: seq<Event>): State {
    if events == [] then s
    else Step(Resumed(s, rate, events[..|events| - 1]), rate, events[|events| - 1])
  }

  function Reached(rate: nat, events: seq<Event>): State {
    Resumed(IDLE, rate, events)
  }

  /** The turns of a response do to the body and the table what the two halves of ThrottledBody.PollFrame do. */
  lemma TurnIsHalfPoll(s: State, rate: nat, user: nat, r: Reading)
    requires user < |s.users| && s.users[user].Response? && s.users[user].run.body.rate == rate
    ensures var u, next := s.users[user], TakeTurn(s, rate, user, r);
            var b, t := u.run.body, s.table;
            && next.users[user].Response?
            && next.users[user].run.body ==
                 (if u.run.receiving then b.Arrival(b.Fits(t, u.ip, r)).0 else b.AfterDebt(b.Paid(t, u.ip, r)))
            && next.table == if u.run.receiving then b.ArrivalTable(t, u.ip, r) else b.DebtTable(t, u.ip, r)
  {
  }

  // Books

  /** The sum of f over the users of one address. */
  function Total(users: seq<User>, ip: IpAddr, f: User -> int): int {
    if users == [] then 0
    else Total(users[1..], ip, f) + if users[0].ip == ip then f(users[0]) else 0
  }

  /** What the users of one address have debited, and carried, together. */
  function TotalDebited(s: State, ip: IpAddr): int {
    Total(s.users, ip, DebitedBytes)
  }

  function TotalCarried(s: State, ip: IpAddr): int {
    Total(s.users, ip, CarriedBytes)
  }

  ghost predicate Consistent(s: State, rate: nat) {
    && s.table == TableAfter(rate, s.log)
    && (forall u :: u in s.users ==> u.Sound(rate))
    && (forall ip :: TotalDebited(s, ip) == DebitedTo(ip, rate, s.log))
  }

  lemma {:induction false} TotalAfterUpdate(users: seq<User>, i: nat, u: User, ip: IpAddr, f: User -> int)
    requires i < |users| && users[i].ip == u.ip
    ensures Total(users[i := u], ip, f) == Total(users, ip, f) + if u.ip == ip then f(u) - f(users[i]) else 0
    decreases |users|
  {
    if i == 0 {
      assert users[i := u][1..] == users[1..];
    } else {
      assert users[i := u][1..] == users[1..][i - 1 := u];
      TotalAfterUpdate(users[1..], i - 1, u, ip, f);
    }
  }

  lemma {:induction false} TotalAfterOpening(users: seq<User>, u: User, ip: IpAddr, f: User -> int)
    requires f(u) == 0
    ensures Total(users + [u], ip, f) == Total(users, ip, f)
    decreases |users|
  {
    if users == [] {
      assert users + [u] == [u];
    } else {
      assert (users + [u])[1..] == users[1..] + [u];
      TotalAfterOpening(users[1..], u, ip, f);
    }
  }

  /** One more attempt moves the table, and the debits of its own address only, as its verdict says. */
  lemma LogOne(rate: nat, log: seq<Attempt>, a: Attempt, ip: IpAddr)
    ensures TableAfter(rate, log + [a]) == Debited(TableAfter(rate, log), a.ip, rate, a.amount, a.reading)
    ensures DebitedTo(ip, rate, log + [a]) == DebitedTo(ip, rate, log) +
              if a.ip == ip && Accepts(TableAfter(rate, log), a.ip, rate, a.amount, a.reading) then a.amount else 0
  {
    assert (log + [a])[..|log|] == log;
  }

  /** A section books exactly what the quota grants it. */
  lemma ObserveBooks(run: Throttle.Run, verdict: bool)
    ensures run.Observe(verdict).debited == run.debited + if run.Asks() && verdict then run.Amount() else 0
    ensures run.Observe(verdict).body.rate == run.body.rate
  {
  }

  lemma ResponseKeepsSound(u: User, rate: nat, verdict: bool)
    requires u.Response? && u.Sound(rate)
    ensures u.Hear(verdict).Sound(rate)
    ensures DebitedBytes(u.Hear(verdict)) == DebitedBytes(u) + if u.Asks() && verdict then u.Amount() else 0
  {
    Throttle.ObserveSettles(u.run, verdict);
    ObserveBooks(u.run, verdict);
  }

  lemma HearKeepsSound(u: User, rate: nat, verdict: bool)
    requires u.Sound(rate)
    ensures u.Hear(verdict).Sound(rate) && u.Hear(verdict).ip == u.ip
    ensures DebitedBytes(u.Hear(verdict)) == DebitedBytes(u) + if u.Asks() && verdict then u.Amount() else 0
  {
    match u
    case Response(_, _) => ResponseKeepsSound(u, rate, verdict);
    case Socket(_, direction) => direction.StepsStayInStep(Relay.ReadFailed, verdict, Relay.Written);
  }

  lemma UpdateKeepsSound(users: seq<User>, i: nat, u: User, rate: nat)
    requires i < |users| && u.Sound(rate)
    requires forall v :: v in users ==> v.Sound(rate)
    ensures forall v :: v in users[i := u] ==> v.Sound(rate)
  {
  }

  /** If the log gains for the user's address what its books gain, and nothing for others, books and log still agree. */
  lemma UpdateKeepsBooks(users: seq<User>, i: nat, u: User, rate: nat, log: seq<Attempt>, log': seq<Attempt>)
    requires i < |users| && users[i].ip == u.ip
    requires forall ip :: Total(users, ip, DebitedBytes) == DebitedTo(ip, rate, log)
    requires forall ip :: DebitedTo(ip, rate, log') ==
               DebitedTo(ip, rate, log) + if u.ip == ip then DebitedBytes(u) - DebitedBytes(users[i]) else 0
    ensures forall ip :: Total(users[i := u], ip, DebitedBytes) == DebitedTo(ip, rate, log')
  {
    forall ip ensures Total(users[i := u], ip, DebitedBytes) == DebitedTo(ip, rate, log') {
      TotalAfterUpdate(users, i, u, ip, DebitedBytes);
    }
  }

  /** The bytes that a turn is granted. */
  function Gain(u: User, rate: nat, t: Table, r: Reading): nat {
    if u.Asks() && Accepts(t, u.ip, rate, u.Amount(), r) then u.Amount() else 0
  }

  lemma TurnIsLogged(s: State, rate: nat, user: nat, r: Reading, ip: IpAddr)
    requires s.table == TableAfter(rate, s.log) && user < |s.users|
    ensures var next, u := TakeTurn(s, rate, user, r), s.users[user];
            && next.table == TableAfter(rate, next.log)
            && DebitedTo(ip, rate, next.log) == DebitedTo(ip, rate, s.log) + if u.ip == ip then Gain(u, rate, s.table, r) else 0
  {
    var u := s.users[user];
    if u.Asks() { LogOne(rate, s.log, Attempt(u.ip, u.Amount(), r), ip); }
  }

  lemma TurnKeepsConsistent(s: State, rate: nat, user: nat, r: Reading)
    requires Consistent(s, rate) && user < |s.users|
    ensures Consistent(TakeTurn(s, rate, user, r), rate)
  {
    var next, u := TakeTurn(s, rate, user, r), s.users[user];
    var u' := u.Hear(Accepts(s.table, u.ip, rate, u.Amount(), r));
    HearKeepsSound(u, rate, Accepts(s.table, u.ip, rate, u.Amount(), r));
    UpdateKeepsSound(s.users, user, u', rate);
    assert DebitedBytes(u') - DebitedBytes(u) == Gain(u, rate, s.table, r);
    forall ip
      ensures DebitedTo(ip, rate, next.log) == DebitedTo(ip, rate, s.log) + if u.ip == ip then Gain(u, rate, s.table, r) else 0
    {
      TurnIsLogged(s, rate, user, r, ip);
    }
    TurnIsLogged(s, rate, user, r, u.ip);
    assert forall ip :: TotalDebited(s, ip) == Total(s.users, ip, DebitedBytes);
    UpdateKeepsBooks(s.users, user, u', rate, s.log, next.log);
  }

  lemma TrafficKeepsSound(u: User, rate: nat, data: Relay.ReadAnswer, outcome: Relay.WriteAnswer)
    requires u.Sound(rate)
    ensures u.OnRead(data).Sound(rate) && u.OnWrite(outcome).Sound(rate)
    ensures DebitedBytes(u.OnRead(data)) == DebitedBytes(u.OnWrite(outcome)) == DebitedBytes(u)
  {
    if u.Socket? { u.direction.StepsStayInStep(data, false, outcome); }
  }

  lemma StepKeepsConsistent(s: State, rate: nat, e: Event)
    requires Consistent(s, rate) && rate > 0
    ensures Consistent(Step(s, rate, e), rate)
  {
    var next := Step(s, rate, e);
    if e.Turn? {
      if e.user < |s.users| { TurnKeepsConsistent(s, rate, e.user, e.reading); }
    } else if e.Read? || e.Write? {
      if e.user < |s.users| {
        var u := s.users[e.user];
        TrafficKeepsSound(u, rate, if e.Read? then e.data else Relay.ReadFailed, if e.Write? then e.outcome else Relay.Written);
        forall ip ensures TotalDebited(next, ip) == TotalDebited(s, ip) {
          TotalAfterUpdate(s.users, e.user, next.users[e.user], ip, DebitedBytes);
        }
      }
    } else {
      var u := next.users[|s.users|];
      assert next.users == s.users + [u] && u.Sound(rate);
      forall ip ensures TotalDebited(next, ip) == TotalDebited(s, ip) {
        TotalAfterOpening(s.users, u, ip, DebitedBytes);
      }
    }
  }

  lemma {:induction false} ResumedIsConsistent(s: State, rate: nat, events: seq<Event>)
    requires rate > 0 && Consistent(s, rate)
    ensures Consistent(Resumed(s, rate, events), rate)
    decreases |events|
  {
    if events != [] {
      ResumedIsConsistent(s, rate, events[..|events| - 1]);
      StepKeepsConsistent(Resumed(s, rate, events[..|events| - 1]), rate, events[|events| - 1]);
    }
  }

  /** In every reachable state the table is the one the log explains, and the users' books add up to the log. */
  lemma ReachedIsConsistent(rate: nat, events: seq<Event>)
    requires rate > 0
    ensures Consistent(Reached(rate, events), rate)
  {
    ResumedIsConsistent(IDLE, rate, events);
  }

  // Bounds

  /** What the user has carried or is about to write, less what it has paid for. */
  function Lead(u: User): int {
    CarriedBytes(u) + PaidAhead(u) - DebitedBytes(u)
  }

  lemma HearLosesLead(u: User, rate: nat, verdict: bool)
    requires u.Sound(rate)
    ensures Lead(u.Hear(verdict)) <= Lead(u)
  {
    match u
    case Response(_, run) =>
      if run.Takes() {
        Throttle.ObserveWithFrame(run, verdict);
        Throttle.BytesAppend(run.delivered, run.body.Next().frame);
      } else {
        Throttle.ObserveWithoutFrame(run, verdict);
      }
    case Socket(_, _) =>
  }

  lemma StepLosesLead(s: State, rate: nat, e: Event, ip: IpAddr)
    requires Consistent(s, rate)
    ensures Total(Step(s, rate, e).users, ip, Lead) <= Total(s.users, ip, Lead)
  {
    var next := Step(s, rate, e);
    if e.OpenResponse? || e.OpenSocket? {
      TotalAfterOpening(s.users, next.users[|s.users|], ip, Lead);
    } else if e.user < |s.users| {
      var u := s.users[e.user];
      assert u.Sound(rate);
      if e.Turn? { HearLosesLead(u, rate, Accepts(s.table, u.ip, rate, u.Amount(), e.reading)); }
      TotalAfterUpdate(s.users, e.user, next.users[e.user], ip, Lead);
    }
  }

  lemma {:induction false} RunLosesLead(s: State, rate: nat, events: seq<Event>, ip: IpAddr)
    requires rate > 0 && Consistent(s, rate)
    ensures Total(Resumed(s, rate, events).users, ip, Lead) <= Total(s.users, ip, Lead)
    decreases |events|
  {
    if events != [] {
      var front := events[..|events| - 1];
      RunLosesLead(s, rate, front, ip);
      ResumedIsConsistent(s, rate, front);
      StepLosesLead(Resumed(s, rate, front), rate, events[|events| - 1], ip);
    }
  }

  lemma {:induction false} TotalLead(users: seq<User>, ip: IpAddr)
    ensures Total(users, ip, Lead) == Total(users, ip, CarriedBytes) + Total(users, ip, PaidAhead) - Total(users, ip, DebitedBytes)
    ensures Total(users, ip, PaidAhead) >= 0
    decreases |users|
  {
    if users != [] { TotalLead(users[1..], ip); }
  }

  /**
   * The bandwidth promise, end to end: in any run whose clock readings for an address lie between
   * t1 and t2, all response bodies and all WebSocket directions of that address together carry at
   * most rate * (t2 - t1) bytes, whatever they and the users of other addresses do.
   */
  lemma CarriedBytesBound(rate: nat, events: seq<Event>, ip: IpAddr, t1: Instant, t2: Instant)
    requires rate > 0 && t1 <= t2
    requires TimelyFor(ip, Reached(rate, events).log)
    requires forall a :: a in Reached(rate, events).log && a.ip == ip ==> t1 <= a.reading.created && a.reading.now <= t2
    ensures TotalCarried(Reached(rate, events), ip) * NANOS <= (t2 - t1) * rate
  {
    var s := Reached(rate, events);
    ReachedIsConsistent(rate, events);
    RunLosesLead(IDLE, rate, events, ip);
    TotalLead(s.users, ip);
    assert TotalDebited(s, ip) == DebitedTo(ip, rate, s.log);
    WholeTraceBound(ip, rate, s.log, t1, t2);
  }

  /** The WebSocket directions of an address. */
  function IsSocket(u: User): int {
    if u.Socket? then 1 else 0
  }

  lemma {:induction false} OneChunkPerSocket(users: seq<User>, ip: IpAddr)
    ensures Total(users, ip, PaidAhead) <= Relay.BUFFER_SIZE * Total(users, ip, IsSocket)
    decreases |users|
  {
    if users != [] { OneChunkPerSocket(users[1..], ip); }
  }

  lemma {:induction false} LogGrows(s: State, rate: nat, events: seq<Event>)
    ensures |s.log| <= |Resumed(s, rate, events).log| && Resumed(s, rate, events).log[..|s.log|] == s.log
    ensures |s.users| <= |Resumed(s, rate, events).users|
    decreases |events|
  {
    if events != [] {
      LogGrows(s, rate, events[..|events| - 1]);
    }
  }

  /**
   * The bound for a window inside a run: while the readings of an address lie between t1 and t2, its
   * users are debited at most the burst of twice the rate plus what accrues, and carry at most
   * that, plus what their sockets had paid for when the window opened: one buffer each.
   */
  lemma WindowOfRunBound(rate: nat, before: seq<Event>, during: seq<Event>, ip: IpAddr, t1: Instant, t2: Instant)
    requires rate > 0 && t1 <= t2
    requires var s, end := Reached(rate, before), Resumed(Reached(rate, before), rate, during);
             && TimelyFor(ip, end.log)
             && forall i :: |s.log| <= i < |end.log| && end.log[i].ip == ip ==> t1 <= end.log[i].reading.now <= t2
    ensures var s, end := Reached(rate, before), Resumed(Reached(rate, before), rate, during);
            var paid := TotalDebited(end, ip) - TotalDebited(s, ip);
            && paid * NANOS <= Cap(rate) + (t2 - t1) * rate
            && TotalCarried(end, ip) - TotalCarried(s, ip) <= paid + Relay.BUFFER_SIZE * Total(s.users, ip, IsSocket)
  {
    var s, end := Reached(rate, before), Resumed(Reached(rate, before), rate, during);
    ReachedIsConsistent(rate, before);
    ResumedIsConsistent(s, rate, during);
    LogGrows(s, rate, during);
    DebitedSinceIsInWindow(ip, rate, end.log, |s.log|, t1, t2);
    SharedBucketBound(ip, rate, end.log, t1, t2);
    assert TotalDebited(s, ip) == DebitedTo(ip, rate, s.log) && TotalDebited(end, ip) == DebitedTo(ip, rate, end.log);
    RunLosesLead(s, rate, during, ip);
    TotalLead(s.users, ip);
    TotalLead(end.users, ip);
    OneChunkPerSocket(s.users, ip);
  }
}
