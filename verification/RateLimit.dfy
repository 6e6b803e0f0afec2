/**
 * The request limiter of src/ratelimit.rs: a fixed-window counter per address, and a background
 * task that drops records of addresses that have been quiet.
 */
module RateLimit {
  import opened Prelude

  const IDLE_SECONDS := 10

  type U32 = n: int | 0 <= n < 0x1_0000_0000

  datatype RateState = RateState(count: U32, lastReset: Instant)

  type Records = map<IpAddr, RateState>

  predicate Expired(st: RateState, now: Instant) {
    ElapsedSince(now, st.lastReset) >= NANOS
  }

  predicate Allows(st: RateState, maxRps: U32, now: Instant) {
    Expired(st, now) || st.count < maxRps
  }

  function Counted(st: RateState, maxRps: U32, now: Instant): RateState {
    if Expired(st, now) then RateState(1, now)
    else if st.count < maxRps then st.(count := st.count + 1)
    else st
  }

  function Entry(t: Records, ip: IpAddr, now: Instant): RateState {
    if ip in t then t[ip] else RateState(0, now)
  }

  /** Zero requests per second stands for no limit at all. */
  predicate Verdict(t: Records, ip: IpAddr, maxRps: U32, now: Instant) {
    maxRps == 0 || Allows(Entry(t, ip, now), maxRps, now)
  }

  function AfterCheck(t: Records, ip: IpAddr, maxRps: U32, now: Instant): Records {
    if maxRps == 0 then t else t[ip := Counted(Entry(t, ip, now), maxRps, now)]
  }

  predicate Idle(st: RateState, now: Instant) {
    ElapsedSince(now, st.lastReset) >= IDLE_SECONDS * NANOS
  }

  /** The records after the cleanup task has gone through one shard of the map. */
  function AfterSweep(t: Records, shard: set<IpAddr>, now: Instant): Records {
    map ip | ip in t && !(ip in shard && Idle(t[ip], now)) :: t[ip]
  }

  class RateLimiter {
    var records: Records

    constructor ()
      ensures records == map[]
    {
      records := map[];
    }

    method Check(ip: IpAddr, maxRps: U32, now: Instant) returns (ok: bool)
      modifies this
      ensures ok == Verdict(old(records), ip, maxRps, now)
      ensures records == AfterCheck(old(records), ip, maxRps, now)
    {
      if maxRps == 0 {
        return true;
      }
      var entry := if ip in records then records[ip] else RateState(0, now);
      if ElapsedSince(now, entry.lastReset) >= NANOS {
        entry := RateState(1, now);
        ok := true;
      } else if entry.count < maxRps {
        entry := entry.(count := entry.count + 1);
        ok := true;
      } else {
        ok := false;
      }
      records := records[ip := entry];
    }

    method Sweep(shard: set<IpAddr>, now: Instant)
      modifies this
      ensures records == AfterSweep(old(records), shard, now)
      ensures forall ip :: ip in records <==>
                ip in old(records) && !(ip in shard && now - old(records)[ip].lastReset >= 10 * NANOS)
      ensures forall ip :: ip in records ==> records[ip] == old(records)[ip]
    {
      records := map ip | ip in records &&
                          (ip !in shard || ElapsedSince(now, records[ip].lastReset) < IDLE_SECONDS * NANOS) :: records[ip];
    }
  }

  // Whole runs

  /**
   * One locked section: the check of a request, or the cleanup of a shard. Its clock reading was
   * taken at `sampled`, before the lock was obtained at `locked`.
   */
  datatype Event =
    | Request(ip: IpAddr, sampled: Instant, locked: Instant)
    | Sweep(shard: set<IpAddr>, sampled: Instant, locked: Instant)

  /** The records after a run, with the cleanup at work or switched off. */
  function After(maxRps: U32, trace: seq<Event>, cleanup: bool): Records {
    if trace == [] then map[]
    else
      var t := After(maxRps, trace[..|trace| - 1], cleanup);
      match trace[|trace| - 1]
      case Request(ip, now, _) => AfterCheck(t, ip, maxRps, now)
      case Sweep(shard, now, _) => if cleanup then AfterSweep(t, shard, now) else t
  }

  predicate Admitted(maxRps: U32, trace: seq<Event>, cleanup: bool, i: nat)
    requires i < |trace|
  {
    trace[i].Request? && Verdict(After(maxRps, trace[..i], cleanup), trace[i].ip, maxRps, trace[i].sampled)
  }

  /** Clock readings never go back by more than d from one locked section to a later one. */
  ghost predicate GoesBackAtMost(trace: seq<Event>, d: nat) {
    forall i, j :: 0 <= i < j < |trace| ==> trace[i].sampled <= trace[j].sampled + d
  }

  const MOST_BACK := (IDLE_SECONDS - 1) * NANOS

  ghost predicate FreshReadings(trace: seq<Event>) {
    GoesBackAtMost(trace, MOST_BACK)
  }

  /**
   * The cleaned-up records agree with the full ones, and a record that only the full ones have is
   * already expired for everything that still follows.
   */
  ghost predicate Simulates(kept: Records, full: Records, rest: seq<Event>) {
    && (forall ip :: ip in kept ==> ip in full && kept[ip] == full[ip])
    && (forall ip, e :: ip in full && ip !in kept && e in rest ==> full[ip].lastReset + NANOS <= e.sampled)
  }

  lemma SweepKeepsSimulation(kept: Records, full: Records, e: Event, rest: seq<Event>)
    requires e.Sweep? && Simulates(kept, full, [e] + rest) && FreshReadings([e] + rest)
    ensures Simulates(AfterSweep(kept, e.shard, e.sampled), full, rest)
  {
    var all := [e] + rest;
    forall ip, f | ip in full && ip !in AfterSweep(kept, e.shard, e.sampled) && f in rest
      ensures full[ip].lastReset + NANOS <= f.sampled
    {
      var j :| 0 <= j < |rest| && rest[j] == f;
      assert all[0] == e && all[j + 1] == f;
      if ip in kept { assert Idle(kept[ip], e.sampled); } else { assert f in all; }
    }
  }

  lemma RequestKeepsSimulation(kept: Records, full: Records, maxRps: U32, e: Event, rest: seq<Event>)
    requires e.Request? && Simulates(kept, full, [e] + rest) && maxRps > 0
    ensures Verdict(kept, e.ip, maxRps, e.sampled) == Verdict(full, e.ip, maxRps, e.sampled)
    ensures Simulates(AfterCheck(kept, e.ip, maxRps, e.sampled), AfterCheck(full, e.ip, maxRps, e.sampled), rest)
  {
    var all := [e] + rest;
    assert all[0] == e && forall f :: f in rest ==> f in all;
    if e.ip in full && e.ip !in kept {
      assert full[e.ip].lastReset + NANOS <= e.sampled;
      assert Expired(full[e.ip], e.sampled);
    }
  }

  lemma FreshSuffix(trace: seq<Event>, k: nat)
    requires FreshReadings(trace) && k <= |trace|
    ensures FreshReadings(trace[k..])
  {
    var rest := trace[k..];
    forall i, j | 0 <= i < j < |rest| ensures rest[i].sampled <= rest[j].sampled + MOST_BACK {
      assert rest[i] == trace[k + i] && rest[j] == trace[k + j];
    }
  }

  lemma {:induction false} SimulationHolds(maxRps: U32, trace: seq<Event>, k: nat)
    requires maxRps > 0 && FreshReadings(trace) && k <= |trace|
    ensures Simulates(After(maxRps, trace[..k], true), After(maxRps, trace[..k], false), trace[k..])
  {
    if k > 0 {
      SimulationHolds(maxRps, trace, k - 1);
      var kept, full := After(maxRps, trace[..k - 1], true), After(maxRps, trace[..k - 1], false);
      var e := trace[k - 1];
      assert trace[..k][..k - 1] == trace[..k - 1] && trace[k - 1..] == [e] + trace[k..];
      if e.Request? {
        RequestKeepsSimulation(kept, full, maxRps, e, trace[k..]);
      } else {
        FreshSuffix(trace, k - 1);
        SweepKeepsSimulation(kept, full, e, trace[k..]);
      }
    }
  }

  /** Cleanup is invisible: every verdict is the one a limiter that never forgets would give. */
  lemma CleanupIsInvisible(maxRps: U32, trace: seq<Event>, i: nat)
    requires FreshReadings(trace) && i < |trace|
    ensures Admitted(maxRps, trace, true, i) == Admitted(maxRps, trace, false, i)
  {
    if maxRps > 0 && trace[i].Request? {
      SimulationHolds(maxRps, trace, i);
      assert trace[i..] == [trace[i]] + trace[i + 1..];
      RequestKeepsSimulation(After(maxRps, trace[..i], true), After(maxRps, trace[..i], false), maxRps,
                             trace[i], trace[i + 1..]);
    }
  }

  /** Every verdict of the run is the same with the cleanup and without. */
  ghost predicate CleanupUnseen(maxRps: U32, trace: seq<Event>) {
    forall i :: 0 <= i < |trace| ==> Admitted(maxRps, trace, true, i) == Admitted(maxRps, trace, false, i)
  }

  /**
   * A request, a cleanup ten seconds later, and a request whose reading, just before the first second
   * was over, is older than the cleanup's by more than nine seconds.
   */
  function StaleRun(ip: IpAddr): seq<Event> {
    var late := IDLE_SECONDS * NANOS;
    [Request(ip, 0, 0), Sweep({ip}, late, late), Request(ip, NANOS - 1, late)]
  }

  lemma StaleRunSeesCleanup(ip: IpAddr)
    ensures GoesBackAtMost(StaleRun(ip), MOST_BACK + 1) && !CleanupUnseen(1, StaleRun(ip))
  {
    var trace := StaleRun(ip);
    assert trace[..0] == [] && trace[..1][..0] == [] && trace[..2][..1] == trace[..1];
    forall cleanup: bool ensures After(1, trace[..1], cleanup) == map[ip := RateState(1, 0)] {
      assert After(1, trace[..0], cleanup) == map[];
    }
    assert After(1, trace[..2], true) == map[];
    assert After(1, trace[..2], false) == map[ip := RateState(1, 0)];
    assert Admitted(1, trace, true, 2) && !Admitted(1, trace, false, 2);
  }

  /** Cleanup is invisible in all runs whose readings go back by at most d if and only if d is at most nine seconds. */
  lemma CleanupIsInvisibleIff(d: nat)
    ensures d <= MOST_BACK <==>
            forall maxRps: U32, trace: seq<Event> :: GoesBackAtMost(trace, d) ==> CleanupUnseen(maxRps, trace)
  {
    if d <= MOST_BACK {
      forall maxRps: U32, trace: seq<Event> | GoesBackAtMost(trace, d) ensures CleanupUnseen(maxRps, trace) {
        assert FreshReadings(trace);
        forall i | 0 <= i < |trace| ensures Admitted(maxRps, trace, true, i) == Admitted(maxRps, trace, false, i) {
          CleanupIsInvisible(maxRps, trace, i);
        }
      }
    } else {
      StaleRunSeesCleanup(V4(0));
      assert GoesBackAtMost(StaleRun(V4(0)), d);
    }
  }

  // Exactly who is admitted

  /** The clock readings of the admitted requests of an address, in the order of their locks. */
  function AdmittedReadings(maxRps: U32, trace: seq<Event>, cleanup: bool, ip: IpAddr): seq<Instant> {
    if trace == [] then []
    else
      var last := |trace| - 1;
      AdmittedReadings(maxRps, trace[..last], cleanup, ip)
      + if Admitted(maxRps, trace, cleanup, last) && trace[last].ip == ip then [trace[last].sampled] else []
  }

  /**
   * When the window began that the last of these admissions falls into: the first one opens a window,
   * and so does every one that comes a second or more after the beginning of the window before.
   */
  function WindowStart(admitted: seq<Instant>): Instant
    requires admitted != []
  {
    var last := |admitted| - 1;
    if last == 0 || admitted[last] >= WindowStart(admitted[..last]) + 1_000_000_000 then admitted[last]
    else WindowStart(admitted[..last])
  }

  /** How many of these admissions fall into that window. */
  function InWindow(admitted: seq<Instant>): nat {
    if admitted == [] then 0
    else
      var last := |admitted| - 1;
      if last == 0 || admitted[last] >= WindowStart(admitted[..last]) + 1_000_000_000 then 1
      else InWindow(admitted[..last]) + 1
  }

  /** The record of an address counts the admissions of the window, and nothing else. */
  lemma {:induction false} RecordIsWindow(maxRps: U32, trace: seq<Event>, ip: IpAddr)
    requires maxRps > 0
    ensures var t, times := After(maxRps, trace, false), AdmittedReadings(maxRps, trace, false, ip);
            && (ip in t <==> times != [])
            && (ip in t ==> t[ip].count == InWindow(times) && t[ip].lastReset == WindowStart(times))
    decreases |trace|
  {
    if trace != [] {
      var last := |trace| - 1;
      var front, e := trace[..last], trace[last];
      RecordIsWindow(maxRps, front, ip);
      if e.Request? && e.ip == ip && Admitted(maxRps, trace, false, last) {
        var before, now := AdmittedReadings(maxRps, front, false, ip), AdmittedReadings(maxRps, trace, false, ip);
        assert now == before + [e.sampled] && now[..|before|] == before;
      } else {
        assert AdmittedReadings(maxRps, trace, false, ip) == AdmittedReadings(maxRps, front, false, ip);
      }
    }
  }

  /** The window of the address has begun less than a second before and is full. */
  ghost predicate WindowFull(maxRps: U32, trace: seq<Event>, cleanup: bool, ip: IpAddr, now: Instant) {
    var times := AdmittedReadings(maxRps, trace, cleanup, ip);
    times != [] && now < WindowStart(times) + 1_000_000_000 && InWindow(times) >= maxRps
  }

  /**
   * Exactly who is admitted, in any trace: everybody if there is no limit, and otherwise a request is
   * refused if and only if so many requests of its address have been admitted since its window began.
   */
  lemma RefusedIffWindowFull(maxRps: U32, trace: seq<Event>, cleanup: bool, i: nat)
    requires i < |trace| && trace[i].Request? && (cleanup ==> FreshReadings(trace))
    ensures !Admitted(maxRps, trace, cleanup, i) <==>
            maxRps > 0 && WindowFull(maxRps, trace[..i], cleanup, trace[i].ip, trace[i].sampled)
  {
    if maxRps > 0 {
      RecordIsWindow(maxRps, trace[..i], trace[i].ip);
      if cleanup {
        CleanupIsInvisible(maxRps, trace, i);
        FreshPrefix(trace, i);
        SameReadings(maxRps, trace[..i], trace[i].ip);
      }
    }
  }

  lemma FreshPrefix(trace: seq<Event>, k: nat)
    requires FreshReadings(trace) && k <= |trace|
    ensures FreshReadings(trace[..k])
  {
  }

  lemma {:induction false} SameReadings(maxRps: U32, trace: seq<Event>, ip: IpAddr)
    requires FreshReadings(trace)
    ensures AdmittedReadings(maxRps, trace, true, ip) == AdmittedReadings(maxRps, trace, false, ip)
    decreases |trace|
  {
    if trace != [] {
      var last := |trace| - 1;
      FreshPrefix(trace, last);
      SameReadings(maxRps, trace[..last], ip);
      CleanupIsInvisible(maxRps, trace, last);
    }
  }

  lemma {:induction false} WindowStartIsAdmission(admitted: seq<Instant>)
    requires admitted != []
    ensures WindowStart(admitted) in admitted
    decreases |admitted|
  {
    var last := |admitted| - 1;
    if last > 0 { WindowStartIsAdmission(admitted[..last]); }
  }

  lemma {:induction false} AdmissionOrigin(maxRps: U32, trace: seq<Event>, cleanup: bool, ip: IpAddr, at: Instant) returns (i: nat)
    requires at in AdmittedReadings(maxRps, trace, cleanup, ip)
    ensures i < |trace| && Admitted(maxRps, trace, cleanup, i) && trace[i].ip == ip && trace[i].sampled == at
    decreases |trace|
  {
    var last := |trace| - 1;
    if at in AdmittedReadings(maxRps, trace[..last], cleanup, ip) {
      i := AdmissionOrigin(maxRps, trace[..last], cleanup, ip, at);
      assert trace[..last][..i] == trace[..i];
    } else {
      i := last;
    }
  }

  /** Nobody is shut out: a request a second or more after every admitted request of its address is admitted. */
  lemma QuietSecondIsEnough(maxRps: U32, trace: seq<Event>, cleanup: bool, i: nat)
    requires i < |trace| && trace[i].Request? && (cleanup ==> FreshReadings(trace))
    requires forall j :: 0 <= j < i && Admitted(maxRps, trace, cleanup, j) && trace[j].ip == trace[i].ip ==>
               trace[j].sampled + 1_000_000_000 <= trace[i].sampled
    ensures Admitted(maxRps, trace, cleanup, i)
  {
    var times := AdmittedReadings(maxRps, trace[..i], cleanup, trace[i].ip);
    RefusedIffWindowFull(maxRps, trace, cleanup, i);
    if times != [] {
      WindowStartIsAdmission(times);
      var j := AdmissionOrigin(maxRps, trace[..i], cleanup, trace[i].ip, WindowStart(times));
      assert trace[..i][..j] == trace[..j];
      assert Admitted(maxRps, trace, cleanup, j);
    }
  }

  lemma RefusedChangesNothing(maxRps: U32, trace: seq<Event>, cleanup: bool, k: nat)
    requires k < |trace| && trace[k].Request? && !Admitted(maxRps, trace, cleanup, k)
    ensures After(maxRps, trace[..k + 1], cleanup) == After(maxRps, trace[..k], cleanup)
  {
    assert trace[..k + 1][..k] == trace[..k];
  }

  function Without(trace: seq<Event>, k: nat): seq<Event>
    requires k < |trace|
  {
    trace[..k] + trace[k + 1..]
  }

  lemma {:induction false} SameWithoutRefused(maxRps: U32, trace: seq<Event>, cleanup: bool, k: nat, i: nat)
    requires k <= i < |trace| && trace[k].Request? && !Admitted(maxRps, trace, cleanup, k)
    ensures After(maxRps, Without(trace, k)[..i], cleanup) == After(maxRps, trace[..i + 1], cleanup)
  {
    if i == k {
      RefusedChangesNothing(maxRps, trace, cleanup, k);
      assert Without(trace, k)[..k] == trace[..k];
    } else {
      SameWithoutRefused(maxRps, trace, cleanup, k, i - 1);
      var short, long := Without(trace, k)[..i], trace[..i + 1];
      assert short[..i - 1] == Without(trace, k)[..i - 1] && long[..i] == trace[..i] && short[i - 1] == long[i];
    }
  }

  /** A refused request leaves no trace: without it, every other request gets the verdict it got. */
  lemma RefusedLeavesNoTrace(maxRps: U32, trace: seq<Event>, cleanup: bool, k: nat, i: nat)
    requires k < |trace| && trace[k].Request? && !Admitted(maxRps, trace, cleanup, k) && i < |trace| - 1
    ensures Admitted(maxRps, Without(trace, k), cleanup, i) == Admitted(maxRps, trace, cleanup, if i < k then i else i + 1)
  {
    if i < k {
      assert Without(trace, k)[..i] == trace[..i];
    } else {
      SameWithoutRefused(maxRps, trace, cleanup, k, i);
    }
  }

  /** Requests of an address admitted among the events i, i + 1, ..., j - 1. */
  function AdmittedBetween(maxRps: U32, trace: seq<Event>, cleanup: bool, ip: IpAddr, i: nat, j: nat): nat
    requires i <= j <= |trace|
  {
    if i == j then 0
    else
      AdmittedBetween(maxRps, trace, cleanup, ip, i, j - 1)
      + if Admitted(maxRps, trace, cleanup, j - 1) && trace[j - 1].ip == ip then 1 else 0
  }

  /** How often a window that was reset at `from` can be reset again before `hi`. */
  function Resets(from: Instant, hi: Instant): nat {
    if hi > from then (hi - from - 1) / NANOS else 0
  }

  /**
   * How many requests an address can still have admitted while its clock readings lie between lo
   * and hi, given its record.
   */
  function Budget(t: Records, ip: IpAddr, maxRps: U32, lo: Instant, hi: Instant): int {
    if ip !in t then maxRps * (Resets(lo, hi) + 1)
    else if t[ip].lastReset < lo then maxRps - t[ip].count + maxRps * (Resets(lo, hi) + 1)
    else maxRps - t[ip].count + maxRps * Resets(t[ip].lastReset, hi)
  }

  lemma ResetsAgain(from: Instant, at: Instant, hi: Instant)
    requires from + NANOS <= at < hi
    ensures Resets(at, hi) + 1 <= Resets(from, hi)
  {
  }

  lemma ResetsShrink(from: Instant, at: Instant, hi: Instant)
    requires from <= at
    ensures Resets(at, hi) <= Resets(from, hi)
  {
  }

  /** Every record a run leaves has counted at least one request, and at most the limit. */
  lemma {:induction false} CountsWithinLimit(maxRps: U32, trace: seq<Event>, ip: IpAddr)
    requires maxRps > 0 && ip in After(maxRps, trace, false)
    ensures 1 <= After(maxRps, trace, false)[ip].count <= maxRps
    decreases |trace|
  {
    var front := trace[..|trace| - 1];
    if ip in After(maxRps, front, false) { CountsWithinLimit(maxRps, front, ip); }
  }

  lemma RequestSpendsBudget(t: Records, ip: IpAddr, maxRps: U32, now: Instant, lo: Instant, hi: Instant)
    requires maxRps > 0 && lo <= now < hi && (ip in t ==> 1 <= t[ip].count <= maxRps)
    ensures Budget(AfterCheck(t, ip, maxRps, now), ip, maxRps, lo, hi)
            + (if Verdict(t, ip, maxRps, now) then 1 else 0) <= Budget(t, ip, maxRps, lo, hi)
  {
    ResetsShrink(lo, now, hi);
    MulMono(Resets(now, hi), Resets(lo, hi), maxRps);
    if ip in t && Expired(t[ip], now) && t[ip].lastReset >= lo {
      ResetsAgain(t[ip].lastReset, now, hi);
      MulMono(Resets(now, hi) + 1, Resets(t[ip].lastReset, hi), maxRps);
    }
  }

  lemma {:induction false} StretchSpendsBudget(maxRps: U32, trace: seq<Event>, ip: IpAddr, i: nat, j: nat, lo: Instant, hi: Instant)
    requires maxRps > 0 && i <= j <= |trace|
    requires forall k :: i <= k < j && trace[k].Request? && trace[k].ip == ip ==> lo <= trace[k].sampled < hi
    ensures AdmittedBetween(maxRps, trace, false, ip, i, j) + Budget(After(maxRps, trace[..j], false), ip, maxRps, lo, hi)
            <= Budget(After(maxRps, trace[..i], false), ip, maxRps, lo, hi)
    decreases j
  {
    if i < j {
      StretchSpendsBudget(maxRps, trace, ip, i, j - 1, lo, hi);
      assert trace[..j][..j - 1] == trace[..j - 1];
      var t := After(maxRps, trace[..j - 1], false);
      if trace[j - 1].Request? && trace[j - 1].ip == ip {
        if ip in t { CountsWithinLimit(maxRps, trace[..j - 1], ip); }
        RequestSpendsBudget(t, ip, maxRps, trace[j - 1].sampled, lo, hi);
      }
    }
  }

  /**
   * Any stretch of events whose clock readings for an address fall within m seconds admits at
   * most (m + 1) * maxRps - 1 requests of it, in whatever order the readings come.
   */
  lemma StretchBound(maxRps: U32, trace: seq<Event>, ip: IpAddr, i: nat, j: nat, lo: Instant, m: nat)
    requires maxRps > 0 && m > 0 && i <= j <= |trace|
    requires forall k :: i <= k < j && trace[k].Request? && trace[k].ip == ip ==> lo <= trace[k].sampled < lo + m * NANOS
    ensures AdmittedBetween(maxRps, trace, false, ip, i, j) <= (m + 1) * maxRps - 1
  {
    var hi := lo + m * NANOS;
    StretchSpendsBudget(maxRps, trace, ip, i, j, lo, hi);
    var t, t' := After(maxRps, trace[..i], false), After(maxRps, trace[..j], false);
    assert Resets(lo, hi) == m - 1;
    if ip in t' { CountsWithinLimit(maxRps, trace[..j], ip); MulMono(0, Resets(t'[ip].lastReset, hi), maxRps); }
    if ip in t {
      CountsWithinLimit(maxRps, trace[..i], ip);
      if t[ip].lastReset >= lo {
        ResetsShrink(lo, t[ip].lastReset, hi);
        MulMono(Resets(t[ip].lastReset, hi), m, maxRps);
      }
    }
  }

  /** Requests of an address admitted while the lock times lie in the half-open window from t1 to t2. */
  function AdmittedIn(maxRps: U32, trace: seq<Event>, cleanup: bool, ip: IpAddr, t1: Instant, t2: Instant, n: nat): nat
    requires n <= |trace|
  {
    if n == 0 then 0
    else
      AdmittedIn(maxRps, trace, cleanup, ip, t1, t2, n - 1)
      + if Admitted(maxRps, trace, cleanup, n - 1) && trace[n - 1].ip == ip && t1 <= trace[n - 1].locked < t2 then 1 else 0
  }

  /** Locks are obtained in order, each at most `lag` seconds after its clock reading. */
  ghost predicate Timely(trace: seq<Event>, lag: nat) {
    && (forall i, j :: 0 <= i <= j < |trace| ==> trace[i].locked <= trace[j].locked)
    && (forall i :: 0 <= i < |trace| ==> trace[i].sampled <= trace[i].locked <= trace[i].sampled + lag * NANOS)
  }

  /** The events whose lock time is before t. */
  function Before(trace: seq<Event>, t: Instant): (n: nat)
    ensures n <= |trace|
    ensures n < |trace| ==> trace[n].locked >= t
    ensures forall i :: 0 <= i < n ==> trace[i].locked < t
  {
    if trace == [] || trace[0].locked >= t then 0
    else
      var n := Before(trace[1..], t);
      assert forall i :: 1 <= i < n + 1 ==> trace[i] == trace[1..][i - 1];
      n + 1
  }

  /** Events outside the window add nothing; those inside are admitted as if there were no cleanup. */
  lemma LastInWindow(maxRps: U32, trace: seq<Event>, ip: IpAddr, t1: Instant, t2: Instant, n: nat)
    requires FreshReadings(trace) && 0 < n <= |trace|
    ensures AdmittedIn(maxRps, trace, true, ip, t1, t2, n) == AdmittedIn(maxRps, trace, true, ip, t1, t2, n - 1)
              + if t1 <= trace[n - 1].locked < t2 && Admitted(maxRps, trace, false, n - 1) && trace[n - 1].ip == ip then 1 else 0
  {
    CleanupIsInvisible(maxRps, trace, n - 1);
  }

  lemma {:induction false} WindowIsStretch(maxRps: U32, trace: seq<Event>, ip: IpAddr, t1: Instant, t2: Instant, i: nat, j: nat, n: nat)
    requires FreshReadings(trace) && i <= j <= |trace| && n <= |trace|
    requires forall k :: 0 <= k < |trace| ==> (t1 <= trace[k].locked < t2 <==> i <= k < j)
    ensures AdmittedIn(maxRps, trace, true, ip, t1, t2, n) ==
            if n <= i then 0 else AdmittedBetween(maxRps, trace, false, ip, i, if n < j then n else j)
  {
    if n > 0 {
      WindowIsStretch(maxRps, trace, ip, t1, t2, i, j, n - 1);
      LastInWindow(maxRps, trace, ip, t1, t2, n);
    }
  }

  lemma TimelyIsFresh(trace: seq<Event>, lag: nat)
    requires Timely(trace, lag) && lag <= 9
    ensures FreshReadings(trace)
  {
  }

  /** In order of their locks, the events of a window are consecutive. */
  lemma WindowIsConsecutive(trace: seq<Event>, lag: nat, t1: Instant, t2: Instant)
    requires Timely(trace, lag) && t1 <= t2
    ensures Before(trace, t1) <= Before(trace, t2)
    ensures forall n :: 0 <= n < |trace| ==> (t1 <= trace[n].locked < t2 <==> Before(trace, t1) <= n < Before(trace, t2))
  {
    var i, j := Before(trace, t1), Before(trace, t2);
    forall n | 0 <= n < |trace| ensures t1 <= trace[n].locked < t2 <==> i <= n < j {
      if n >= i { assert trace[i].locked <= trace[n].locked; }
      if n >= j { assert trace[j].locked <= trace[n].locked; }
    }
  }

  /** A window of lock time is a stretch of events whose clock readings start at most `lag` seconds earlier. */
  lemma WindowOfRun(maxRps: U32, trace: seq<Event>, ip: IpAddr, lag: nat, t1: Instant, t2: Instant) returns (i: nat, j: nat)
    requires lag <= 9 && Timely(trace, lag) && t1 <= t2
    ensures i <= j <= |trace| && (t1 == t2 ==> i == j)
    ensures forall k :: i <= k < j ==> t1 - lag * NANOS <= trace[k].sampled < t2
    ensures AdmittedIn(maxRps, trace, true, ip, t1, t2, |trace|) == AdmittedBetween(maxRps, trace, false, ip, i, j)
  {
    i, j := Before(trace, t1), Before(trace, t2);
    TimelyIsFresh(trace, lag);
    WindowIsConsecutive(trace, lag, t1, t2);
    WindowIsStretch(maxRps, trace, ip, t1, t2, i, j, |trace|);
  }

  /**
   * The rate-window bound, with cleanup at work: if every lock is obtained at most `lag` seconds
   * after its clock reading, any half-open window of k seconds of lock time admits at most
   * (k + lag + 1) * maxRps - 1 requests of an address.
   */
  lemma RateWindowBound(maxRps: U32, trace: seq<Event>, ip: IpAddr, t: Instant, k: nat, lag: nat)
    requires maxRps > 0 && lag <= 9 && Timely(trace, lag)
    ensures AdmittedIn(maxRps, trace, true, ip, t, t + k * NANOS, |trace|) <= (k + lag + 1) * maxRps - 1
  {
    var i, j := WindowOfRun(maxRps, trace, ip, lag, t, t + k * NANOS);
    if i < j {
      StretchBound(maxRps, trace, ip, i, j, t - lag * NANOS, k + lag);
    } else {
      MulMono(1, k + lag + 1, maxRps);
    }
  }

  // The bound is reached

  /** A request that samples the clock at `at` and gets the lock then, or when it is first to be had. */
  function Late(ip: IpAddr, at: Instant, open: Instant): Event {
    Request(ip, at, if at < open then open else at)
  }

  function Repeated(ip: IpAddr, at: Instant, open: Instant, n: nat): seq<Event> {
    if n == 0 then [] else Repeated(ip, at, open, n - 1) + [Late(ip, at, open)]
  }

  /**
   * One request at the start, the rest of its quota just before the second is over, then a full quota
   * each second; from the second request on, nobody gets the lock before `open`.
   */
  function Greedy(maxRps: U32, ip: IpAddr, k: nat, open: Instant): seq<Event>
    requires maxRps > 0
  {
    if k == 0 then [Request(ip, 0, 0)] + Repeated(ip, NANOS - 1, open, maxRps - 1)
    else Greedy(maxRps, ip, k - 1, open) + Repeated(ip, k * NANOS, open, maxRps)
  }

  lemma {:induction false} AdmittedInOfPrefix(maxRps: U32, trace: seq<Event>, e: Event, ip: IpAddr, t1: Instant, t2: Instant, n: nat)
    requires n <= |trace|
    ensures AdmittedIn(maxRps, trace + [e], true, ip, t1, t2, n) == AdmittedIn(maxRps, trace, true, ip, t1, t2, n)
  {
    if n > 0 {
      assert (trace + [e])[..n - 1] == trace[..n - 1];
      AdmittedInOfPrefix(maxRps, trace, e, ip, t1, t2, n - 1);
    }
  }

  /** Admissions of a whole run, and the record it leaves. */
  function Tally(maxRps: U32, trace: seq<Event>, ip: IpAddr, t1: Instant, t2: Instant): nat {
    AdmittedIn(maxRps, trace, true, ip, t1, t2, |trace|)
  }

  function Record(maxRps: U32, trace: seq<Event>, ip: IpAddr): Option<RateState> {
    var t := After(maxRps, trace, true);
    if ip in t then Some(t[ip]) else None
  }

  lemma OneMore(maxRps: U32, trace: seq<Event>, e: Event, t1: Instant, t2: Instant)
    requires e.Request? && maxRps > 0 && t1 <= e.locked < t2 && Record(maxRps, trace, e.ip).Some?
    ensures var st := Record(maxRps, trace, e.ip).value;
            var all := trace + [e];
            && Record(maxRps, all, e.ip) == Some(Counted(st, maxRps, e.sampled))
            && Tally(maxRps, all, e.ip, t1, t2) == Tally(maxRps, trace, e.ip, t1, t2) + if Allows(st, maxRps, e.sampled) then 1 else 0
  {
    assert (trace + [e])[..|trace|] == trace;
    AdmittedInOfPrefix(maxRps, trace, e, e.ip, t1, t2, |trace|);
  }

  /** The record after n more requests at one instant, if all are admitted. */
  function Burst(st: RateState, maxRps: U32, at: Instant, n: nat): RateState {
    if n == 0 then st else Counted(Burst(st, maxRps, at, n - 1), maxRps, at)
  }

  lemma {:induction false} BurstCounts(st: RateState, maxRps: U32, at: Instant, n: nat)
    requires if Expired(st, at) then n <= maxRps else st.count + n <= maxRps
    ensures n > 0 ==> Burst(st, maxRps, at, n) ==
                      if Expired(st, at) then RateState(n, at) else RateState(st.count + n, st.lastReset)
  {
    if n > 0 { BurstCounts(st, maxRps, at, n - 1); }
  }

  lemma {:induction false} BurstIsAdmitted(maxRps: U32, trace: seq<Event>, ip: IpAddr, st: RateState, at: Instant, n: nat, open: Instant, hi: Instant)
    requires maxRps > 0 && at < hi && open < hi && Record(maxRps, trace, ip) == Some(st)
    requires if Expired(st, at) then n <= maxRps else st.count + n <= maxRps
    ensures var all := trace + Repeated(ip, at, open, n);
            && Tally(maxRps, all, ip, open, hi) == Tally(maxRps, trace, ip, open, hi) + n
            && Record(maxRps, all, ip) == Some(Burst(st, maxRps, at, n))
    decreases n
  {
    if n == 0 {
      assert trace + Repeated(ip, at, open, 0) == trace;
    } else {
      var front := trace + Repeated(ip, at, open, n - 1);
      assert trace + Repeated(ip, at, open, n) == front + [Late(ip, at, open)];
      BurstIsAdmitted(maxRps, trace, ip, st, at, n - 1, open, hi);
      BurstCounts(st, maxRps, at, n - 1);
      assert Allows(Burst(st, maxRps, at, n - 1), maxRps, at);
      OneMore(maxRps, front, Late(ip, at, open), open, hi);
    }
  }

  /** Timely, with all locks obtained by `at` or when they first can be. */
  ghost predicate TimelyUntil(trace: seq<Event>, lag: nat, at: Instant, open: Instant) {
    Timely(trace, lag) && forall i :: 0 <= i < |trace| ==> trace[i].locked <= at || trace[i].locked <= open
  }

  lemma {:induction false} BurstIsTimely(trace: seq<Event>, lag: nat, ip: IpAddr, at: Instant, open: Instant, n: nat)
    requires TimelyUntil(trace, lag, at, open) && open <= at + lag * NANOS
    ensures TimelyUntil(trace + Repeated(ip, at, open, n), lag, at, open)
    decreases n
  {
    if n == 0 {
      assert trace + Repeated(ip, at, open, 0) == trace;
    } else {
      BurstIsTimely(trace, lag, ip, at, open, n - 1);
      assert trace + Repeated(ip, at, open, n) == (trace + Repeated(ip, at, open, n - 1)) + [Late(ip, at, open)];
    }
  }

  lemma {:induction false} GreedyIsTimely(maxRps: U32, ip: IpAddr, k: nat, lag: nat)
    requires maxRps > 0
    ensures var open := NANOS - 1 + lag * NANOS;
            TimelyUntil(Greedy(maxRps, ip, k, open), lag, NANOS - 1 + k * NANOS, open)
  {
    var open := NANOS - 1 + lag * NANOS;
    if k == 0 {
      BurstIsTimely([Request(ip, 0, 0)], lag, ip, NANOS - 1, open, maxRps - 1);
    } else {
      GreedyIsTimely(maxRps, ip, k - 1, lag);
      BurstIsTimely(Greedy(maxRps, ip, k - 1, open), lag, ip, k * NANOS, open, maxRps);
    }
  }

  lemma FirstRequest(maxRps: U32, ip: IpAddr, open: Instant, hi: Instant)
    requires maxRps > 0 && open > 0
    ensures var first := [Request(ip, 0, 0)];
            Tally(maxRps, first, ip, open, hi) == 0 && Record(maxRps, first, ip) == Some(RateState(1, 0))
  {
    var first := [Request(ip, 0, 0)];
    assert first[..0] == [];
    assert AdmittedIn(maxRps, first, true, ip, open, hi, 1) == AdmittedIn(maxRps, first, true, ip, open, hi, 0);
    assert After(maxRps, first[..0], true) == map[];
  }

  function GreedyCount(maxRps: int, k: nat): int {
    if k == 0 then maxRps - 1 else GreedyCount(maxRps, k - 1) + maxRps
  }

  lemma {:induction false} GreedyCountIsBound(maxRps: int, k: nat)
    ensures GreedyCount(maxRps, k) == (k + 1) * maxRps - 1
  {
    if k > 0 { GreedyCountIsBound(maxRps, k - 1); }
  }

  lemma {:induction false} GreedyIsAdmitted(maxRps: U32, ip: IpAddr, k: nat, open: Instant, hi: Instant)
    requires maxRps > 0 && 0 < open < hi && NANOS - 1 < hi && hi > k * NANOS
    ensures Tally(maxRps, Greedy(maxRps, ip, k, open), ip, open, hi) == GreedyCount(maxRps, k)
    ensures Record(maxRps, Greedy(maxRps, ip, k, open), ip) == Some(RateState(maxRps, k * NANOS))
  {
    if k == 0 {
      var first := [Request(ip, 0, 0)];
      FirstRequest(maxRps, ip, open, hi);
      BurstIsAdmitted(maxRps, first, ip, RateState(1, 0), NANOS - 1, maxRps - 1, open, hi);
      BurstCounts(RateState(1, 0), maxRps, NANOS - 1, maxRps - 1);
    } else {
      GreedyIsAdmitted(maxRps, ip, k - 1, open, hi);
      var st := RateState(maxRps, (k - 1) * NANOS);
      BurstIsAdmitted(maxRps, Greedy(maxRps, ip, k - 1, open), ip, st, k * NANOS, maxRps, open, hi);
      BurstCounts(st, maxRps, k * NANOS, maxRps);
    }
  }

  lemma WindowEnd(k: nat, lag: nat)
    requires k > 0
    ensures var open := NANOS - 1 + lag * NANOS;
            0 < open < open + k * NANOS == (k + lag) * NANOS + NANOS - 1
  {
  }

  lemma GreedyReachesBound(maxRps: U32, ip: IpAddr, n: nat, open: Instant, hi: Instant)
    requires maxRps > 0 && 0 < open < hi && hi == n * NANOS + NANOS - 1 && n > 0
    ensures var trace := Greedy(maxRps, ip, n, open);
            AdmittedIn(maxRps, trace, true, ip, open, hi, |trace|) == (n + 1) * maxRps - 1
  {
    GreedyIsAdmitted(maxRps, ip, n, open, hi);
    GreedyCountIsBound(maxRps, n);
  }

  /** For every limit, every k and every lag, some run admits exactly the bound within k seconds. */
  lemma BoundIsReached(maxRps: U32, ip: IpAddr, k: nat, lag: nat)
    requires maxRps > 0 && k > 0
    ensures var t := NANOS - 1 + lag * NANOS;
            var trace := Greedy(maxRps, ip, k + lag, t);
            && Timely(trace, lag)
            && AdmittedIn(maxRps, trace, true, ip, t, t + k * NANOS, |trace|) == (k + lag + 1) * maxRps - 1
  {
    var t := NANOS - 1 + lag * NANOS;
    assert Timely(Greedy(maxRps, ip, k + lag, t), lag) by {
      GreedyIsTimely(maxRps, ip, k + lag, lag);
    }
    WindowEnd(k, lag);
    GreedyReachesBound(maxRps, ip, k + lag, t, t + k * NANOS);
  }
}
