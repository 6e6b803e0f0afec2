/**
 * The calls of src/ban.rs in flight at the same time. Each lock section is one step; between its
 * sections a call holds the clock reading it took when it started, however stale that has become.
 */
module BanProtocol {
  import opened Prelude
  import opened Ban

  datatype Call =
    | Banning(ip: IpAddr, expireAt: Instant)    // about to insert
    | Reading(ip: IpAddr, sampled: Instant)     // about to take the read lock
    | Rechecking(ip: IpAddr, sampled: Instant)  // saw an expired entry, about to take the write lock
    | Cleaning(sampled: Instant)                // about to take the write lock for a cleanup pass
    | Answered(ip: IpAddr, sampled: Instant, verdict: bool, lastBan: Option<Instant>, decidedAt: Instant)
    | Finished

  /** `last` remembers the last ban written for each address, whatever became of its entry. */
  datatype State = State(clock: Instant, table: Table, last: Table, calls: map<nat, Call>)

  datatype Event =
    | Tick(to: Instant)
    | StartPunish(id: nat, punished: IpAddr, violation: Violation)
    | StartCheck(id: nat, checked: IpAddr)
    | StartCleanup(id: nat)
    | Resume(id: nat)

  function LastBan(s: State, ip: IpAddr): Option<Instant> {
    if ip in s.last then Some(s.last[ip]) else None
  }

  function Answer(s: State, ip: IpAddr, sampled: Instant, verdict: bool): Call {
    Answered(ip, sampled, verdict, LastBan(s, ip), s.clock)
  }

  function Start(s: State, id: nat, c: Call): State {
    if id in s.calls then s else s.(calls := s.calls[id := c])
  }

  /** The next lock section of a call. */
  function Section(s: State, id: nat): State
    requires id in s.calls
  {
    match s.calls[id]
    case Banning(ip, expireAt) =>
      s.(table := s.table[ip := expireAt], last := s.last[ip := expireAt], calls := s.calls[id := Finished])
    case Reading(ip, sampled) =>
      (match ReadVerdict(s.table, ip, sampled)
       case Some(verdict) => s.(calls := s.calls[id := Answer(s, ip, sampled, verdict)])
       case None => s.(calls := s.calls[id := Rechecking(ip, sampled)]))
    case Rechecking(ip, sampled) =>
      s.(table := Rechecked(s.table, ip, sampled),
         calls := s.calls[id := Answer(s, ip, sampled, Protects(s.table, ip, sampled))])
    case Cleaning(sampled) =>
      s.(table := Retained(s.table, sampled), calls := s.calls[id := Finished])
    case Answered(_, _, _, _, _) => s
    case Finished => s
  }

  function Step(s: State, config: BanConfig, e: Event): State {
    match e
    case Tick(to) => if to >= s.clock then s.(clock := to) else s
    case StartPunish(id, ip, v) =>
      if config.Seconds(v) > 0 then Start(s, id, Banning(ip, s.clock + config.Seconds(v) * NANOS)) else s
    case StartCheck(id, ip) => Start(s, id, Reading(ip, s.clock))
    case StartCleanup(id) => Start(s, id, Cleaning(s.clock))
    case Resume(id) => if id in s.calls then Section(s, id) else s
  }

  function Run(s: State, config: BanConfig, events: seq<Event>): State {
    if events == [] then s
    else Step(Run(s, config, events[..|events| - 1]), config, events[|events| - 1])
  }

  const IDLE := State(0, map[], map[], map[])

  ghost predicate CallSound(c: Call, clock: Instant) {
    match c
    case Banning(_, _) => true
    case Reading(_, sampled) => sampled <= clock
    case Rechecking(_, sampled) => sampled <= clock
    case Cleaning(sampled) => sampled <= clock
    case Answered(_, sampled, verdict, lastBan, decidedAt) =>
      && sampled <= decidedAt <= clock
      && (verdict ==> lastBan.Some? && sampled <= lastBan.value)
      && (!verdict ==> lastBan.None? || lastBan.value <= decidedAt)
    case Finished => true
  }

  /** Entries are last bans, bans that have not run out are entries, and every call is sound. */
  ghost predicate Safe(s: State) {
    && (forall ip :: ip in s.table ==> ip in s.last && s.table[ip] == s.last[ip])
    && (forall ip :: ip in s.last && s.last[ip] > s.clock ==> ip in s.table)
    && (forall id :: id in s.calls ==> CallSound(s.calls[id], s.clock))
  }

  lemma StepKeepsSafe(s: State, config: BanConfig, e: Event)
    requires Safe(s)
    ensures Safe(Step(s, config, e))
  {
    match e
    case Tick(to) =>
    case StartPunish(id, ip, v) =>
    case StartCheck(id, ip) =>
    case StartCleanup(id) =>
    case Resume(id) =>
      if id in s.calls {
        assert CallSound(s.calls[id], s.clock);
        var next := Section(s, id);
        forall other | other in next.calls ensures CallSound(next.calls[other], next.clock) {
          if other != id { assert next.calls[other] == s.calls[other]; }
        }
      }
  }

  lemma {:induction false} RunKeepsSafe(s: State, config: BanConfig, events: seq<Event>)
    requires Safe(s)
    ensures Safe(Run(s, config, events))
    decreases |events|
  {
    if events != [] {
      RunKeepsSafe(s, config, events[..|events| - 1]);
      StepKeepsSafe(Run(s, config, events[..|events| - 1]), config, events[|events| - 1]);
    }
  }

  /** Ban safety in every reachable state, under every interleaving. */
  lemma BanSafety(config: BanConfig, events: seq<Event>)
    ensures var s := Run(IDLE, config, events);
            && (forall ip :: ip in s.table ==> ip in s.last && s.table[ip] == s.last[ip])
            && (forall ip :: ip in s.last && s.last[ip] > s.clock ==> ip in s.table)
  {
    RunKeepsSafe(IDLE, config, events);
  }

  /**
   * Every check that has answered, in every reachable state: a yes means that the last ban at the
   * deciding section ran at least to the instant sampled at the call, a no means that there was
   * none or that it had run out by the clock of the deciding section.
   */
  lemma CheckCorrectness(config: BanConfig, events: seq<Event>, id: nat)
    requires id in Run(IDLE, config, events).calls && Run(IDLE, config, events).calls[id].Answered?
    ensures var c := Run(IDLE, config, events).calls[id];
            if c.verdict then c.lastBan.Some? && c.lastBan.value >= c.sampled
            else c.lastBan.None? || c.lastBan.value <= c.decidedAt
  {
    RunKeepsSafe(IDLE, config, events);
    assert CallSound(Run(IDLE, config, events).calls[id], Run(IDLE, config, events).clock);
  }

  /** The event writes a ban for the address. */
  predicate Bans(s: State, e: Event, ip: IpAddr) {
    e.Resume? && e.id in s.calls && s.calls[e.id].Banning? && s.calls[e.id].ip == ip
  }

  /** None of the events of a run writes a ban for the address. */
  ghost predicate Undisturbed(s: State, config: BanConfig, events: seq<Event>, ip: IpAddr) {
    events == [] ||
    var front, e := events[..|events| - 1], events[|events| - 1];
    Undisturbed(s, config, front, ip) && !Bans(Run(s, config, front), e, ip)
  }

  /** The call is not a check of the address that has answered no. */
  predicate NotRefuted(s: State, id: nat, ip: IpAddr) {
    id in s.calls && s.calls[id].Answered? && s.calls[id].ip == ip ==> s.calls[id].verdict
  }

  lemma StepWhileBanned(s: State, config: BanConfig, e: Event, ip: IpAddr, id: nat)
    requires Safe(s) && ip in s.last && !Bans(s, e, ip)
    ensures var next := Step(s, config, e);
            && ip in next.last && next.last[ip] == s.last[ip] && s.clock <= next.clock
            && (NotRefuted(s, id, ip) && next.clock < s.last[ip] ==> NotRefuted(next, id, ip))
  {
    if id in s.calls {
      assert CallSound(s.calls[id], s.clock);
    }
  }

  /**
   * A ban holds: once it is written, and until its expiry or the next ban of the same address,
   * every check of that address that decides, however old its clock reading, answers yes.
   */
  lemma {:induction false} BanHolds(config: BanConfig, before: seq<Event>, events: seq<Event>, ip: IpAddr, id: nat)
    requires var s := Run(IDLE, config, before);
             ip in s.last && NotRefuted(s, id, ip) && Undisturbed(s, config, events, ip)
    ensures var s, end := Run(IDLE, config, before), Run(Run(IDLE, config, before), config, events);
            && ip in end.last && end.last[ip] == s.last[ip] && s.clock <= end.clock
            && (end.clock < s.last[ip] ==> ip in end.table && end.table[ip] == s.last[ip] && NotRefuted(end, id, ip))
    decreases |events|
  {
    var s := Run(IDLE, config, before);
    RunKeepsSafe(IDLE, config, before);
    RunKeepsSafe(s, config, events);
    if events != [] {
      var front, e := events[..|events| - 1], events[|events| - 1];
      BanHolds(config, before, front, ip, id);
      RunKeepsSafe(s, config, front);
      StepWhileBanned(Run(s, config, front), config, e, ip, id);
    }
  }

  /** Events other than those of the call leave it where it is. */
  lemma {:induction false} CallStays(s: State, config: BanConfig, events: seq<Event>, id: nat)
    requires id in s.calls && Resume(id) !in events
    ensures id in Run(s, config, events).calls && Run(s, config, events).calls[id] == s.calls[id]
    decreases |events|
  {
    if events != [] {
      CallStays(s, config, events[..|events| - 1], id);
      assert events[|events| - 1] in events;
    }
  }

  /** The call is a check of the address, as it started at `at`, at whatever point it is by now. */
  predicate ChecksSince(c: Call, ip: IpAddr, at: Instant) {
    match c
    case Reading(checked, sampled) => checked == ip && sampled == at
    case Rechecking(checked, sampled) => checked == ip && sampled == at
    case Answered(checked, sampled, _, _, _) => checked == ip && sampled == at
    case _ => false
  }

  lemma {:induction false} CheckStaysCheck(s: State, config: BanConfig, events: seq<Event>, id: nat, ip: IpAddr, at: Instant)
    requires id in s.calls && ChecksSince(s.calls[id], ip, at)
    ensures id in Run(s, config, events).calls && ChecksSince(Run(s, config, events).calls[id], ip, at)
    decreases |events|
  {
    if events != [] { CheckStaysCheck(s, config, events[..|events| - 1], id, ip, at); }
  }

  /** A check judges by the clock as it was when the check was called, and a cleanup by the clock at its tick. */
  lemma CallsSampleOnce(s: State, config: BanConfig, events: seq<Event>, id: nat, ip: IpAddr)
    requires id !in s.calls
    ensures var end := Run(Step(s, config, StartCheck(id, ip)), config, events);
            id in end.calls && ChecksSince(end.calls[id], ip, s.clock)
    ensures Resume(id) !in events ==>
              var end := Run(Step(s, config, StartCleanup(id)), config, events);
              id in end.calls && end.calls[id] == Cleaning(s.clock)
  {
    CheckStaysCheck(Step(s, config, StartCheck(id, ip)), config, events, id, ip, s.clock);
    if Resume(id) !in events { CallStays(Step(s, config, StartCleanup(id)), config, events, id); }
  }

  /**
   * A punishment bans for the time configured for its violation, counted from its call, however long it
   * then waits for the lock; a violation whose time is zero starts nothing.
   */
  lemma PunishmentIsAsConfigured(s: State, config: BanConfig, events: seq<Event>, id: nat, ip: IpAddr, v: Violation)
    requires id !in s.calls && Resume(id) !in events
    ensures var seconds := match v
                           case Timeout => config.banTimeout
                           case Protocol => config.banProtocol
                           case Waf => config.banWaf
                           case RateLimit => config.banRateLimit;
            var started := Step(s, config, StartPunish(id, ip, v));
            if seconds == 0 then started == s
            else
              var end := Step(Run(started, config, events), config, Resume(id));
              ip in end.table && end.table[ip] == s.clock + seconds * 1_000_000_000
  {
    var started := Step(s, config, StartPunish(id, ip, v));
    if config.Seconds(v) > 0 { CallStays(started, config, events, id); }
  }

  // How long an entry lives

  /** The event is a section that removes an entry which expires at `expiry`. */
  predicate Removes(s: State, e: Event, ip: IpAddr, expiry: Instant) {
    e.Resume? && e.id in s.calls &&
    match s.calls[e.id]
    case Cleaning(sampled) => sampled >= expiry
    case Rechecking(checked, sampled) => checked == ip && sampled > expiry
    case _ => false
  }

  /** The k-th event of the run removes the entry. */
  ghost predicate RemovesAt(s: State, config: BanConfig, events: seq<Event>, k: nat, ip: IpAddr, expiry: Instant)
    requires k < |events|
  {
    Removes(Run(s, config, events[..k]), events[k], ip, expiry)
  }

  ghost predicate Removed(s: State, config: BanConfig, events: seq<Event>, ip: IpAddr, expiry: Instant) {
    exists k :: 0 <= k < |events| && RemovesAt(s, config, events, k, ip, expiry)
  }

  lemma RemovedStep(s: State, config: BanConfig, events: seq<Event>, ip: IpAddr, expiry: Instant)
    requires events != []
    ensures var front, e := events[..|events| - 1], events[|events| - 1];
            Removed(s, config, events, ip, expiry) <==>
            Removed(s, config, front, ip, expiry) || Removes(Run(s, config, front), e, ip, expiry)
  {
    var last := |events| - 1;
    var front := events[..last];
    forall k | 0 <= k < last
      ensures RemovesAt(s, config, events, k, ip, expiry) == RemovesAt(s, config, front, k, ip, expiry)
    {
      assert events[..k] == front[..k];
    }
    assert RemovesAt(s, config, events, last, ip, expiry) == Removes(Run(s, config, front), events[last], ip, expiry);
  }

  /**
   * The exact lifetime of an entry: as long as no other ban of its address is written, it is in the
   * table if and only if no cleanup that sampled the clock at its expiry or later, and no check of
   * the address that sampled the clock after its expiry, has had its write section.
   */
  lemma {:induction false} EntryLifetime(s: State, config: BanConfig, events: seq<Event>, ip: IpAddr)
    requires ip in s.table && Undisturbed(s, config, events, ip)
    ensures var end := Run(s, config, events);
            && (ip in end.table <==> !Removed(s, config, events, ip, s.table[ip]))
            && (ip in end.table ==> end.table[ip] == s.table[ip])
    decreases |events|
  {
    if events != [] {
      EntryLifetime(s, config, events[..|events| - 1], ip);
      RemovedStep(s, config, events, ip, s.table[ip]);
    }
  }

  /**
   * What follows for checks: the section in which a check of the address decides answers yes if and
   * only if the check sampled the clock no later than the expiry and the entry was not removed
   * before. At the instant of expiry itself the answer thus depends on the cleanup alone.
   */
  lemma CheckAnswersYesIff(s: State, config: BanConfig, events: seq<Event>, ip: IpAddr, id: nat)
    requires ip in s.table && Undisturbed(s, config, events, ip)
    requires id in Run(s, config, events).calls
    requires var c := Run(s, config, events).calls[id]; (c.Reading? || c.Rechecking?) && c.ip == ip
    ensures var end := Run(s, config, events);
            var sampled, after := end.calls[id].sampled, Section(end, id).calls[id];
            && (after.Answered? && after.verdict <==>
                  sampled <= s.table[ip] && !Removed(s, config, events, ip, s.table[ip]))
            && (after.Answered? || after.Rechecking?)
            && (after.Rechecking? ==> sampled > s.table[ip])
  {
    EntryLifetime(s, config, events, ip);
  }

  // Two places where the code promises less than one might expect

  /** A ban of an idle system, and the clock moved to its instant of expiry. */
  function Expiring(config: BanConfig, ip: IpAddr): State {
    var banned := Step(Step(IDLE, config, StartPunish(0, ip, Waf)), config, Resume(0));
    Step(banned, config, Tick(config.banWaf * NANOS))
  }

  function Checked(s: State, config: BanConfig, ip: IpAddr): State {
    Step(Step(s, config, StartCheck(1, ip)), config, Resume(1))
  }

  function Swept(s: State, config: BanConfig): State {
    Step(Step(s, config, StartCleanup(2)), config, Resume(2))
  }

  /** At the instant of expiry itself, a check answers yes before a cleanup pass and no after it. */
  lemma ExpiryInstantDependsOnCleanup(config: BanConfig, ip: IpAddr)
    requires config.banWaf > 0
    ensures var s := Expiring(config, ip);
            var unswept, swept := Checked(s, config, ip), Checked(Swept(s, config), config, ip);
            && ip in s.last && s.last[ip] == s.clock == unswept.clock == swept.clock
            && 1 in unswept.calls && unswept.calls[1] == Answered(ip, s.clock, true, Some(s.clock), s.clock)
            && 1 in swept.calls && swept.calls[1] == Answered(ip, s.clock, false, Some(s.clock), s.clock)
  {
    var until := config.banWaf * NANOS;
    var s := Expiring(config, ip);
    assert s == State(until, map[ip := until], map[ip := until], map[0 := Finished]);
    var t := Step(s, config, StartCleanup(2));
    assert t.calls[2] == Cleaning(until);
    assert Swept(s, config).table == map[];
  }

  /** A later, shorter ban replaces a longer one: the address is free while the longer one would still run. */
  lemma ShorterBanReplacesLonger(config: BanConfig, ip: IpAddr)
    requires 0 < config.banTimeout < config.banWaf
    ensures var long := Step(Step(IDLE, config, StartPunish(0, ip, Waf)), config, Resume(0));
            var short := Step(Step(long, config, StartPunish(1, ip, Timeout)), config, Resume(1));
            && Protects(long.table, ip, config.banWaf * NANOS)
            && !Protects(short.table, ip, config.banWaf * NANOS)
  {
    var long := Step(Step(IDLE, config, StartPunish(0, ip, Waf)), config, Resume(0));
    assert long.table == map[ip := config.banWaf * NANOS] && long.calls == map[0 := Finished];
  }
}
