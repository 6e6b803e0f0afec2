/**
 * The load balancer of src/proxy.rs and the health map of src/health.rs it consults. Every
 * request draws a ticket from a shared counter and tries the servers in turn from there.
 */
module Balancer {
  import opened Prelude

  /** The number of values of a 64-bit `usize`, at which counter and index wrap around. */
  const WORDS := 0x1_0000_0000_0000_0000

  // Remainders

  lemma RemainderIsUnique(x: int, q: int, r: nat, n: nat)
    requires r < n && x == q * n + r
    ensures x % n == r
  {
    var q', r' := x / n, x % n;
    assert (q - q') * n == r' - r;
    if q - q' > 0 { MulMono(1, q - q', n); }
    if q - q' < 0 { MulMono(q - q', -1, n); }
  }

  lemma RemainderRepeats(x: nat, n: nat)
    requires n > 0
    ensures (x + n) % n == x % n
  {
    RemainderIsUnique(x + n, x / n + 1, x % n, n);
  }

  // The balancer itself

  class HealthManager {
    var statuses: map<string, bool>

    /** An upstream that was never probed counts as healthy. */
    constructor ()
      ensures forall addr :: IsHealthy(addr)
    {
      statuses := map[];
    }

    /** The checker stores the outcome of a probe. */
    method Record(addr: string, healthy: bool)
      modifies this
      ensures IsHealthy(addr) == healthy
      ensures forall other :: other != addr ==> IsHealthy(other) == old(IsHealthy(other))
    {
      statuses := statuses[addr := healthy];
    }

    predicate IsHealthy(addr: string)
      reads this
    {
      addr in statuses ==> statuses[addr]
    }

    /** The health of a list of upstreams, by position. */
    function Health(upstreams: seq<string>): (up: seq<bool>)
      reads this
      ensures |up| == |upstreams| && forall i :: 0 <= i < |up| ==> up[i] == IsHealthy(upstreams[i])
    {
      seq(|upstreams|, i requires 0 <= i < |upstreams| reads this => IsHealthy(upstreams[i]))
    }
  }

  class AtomicCounter {
    var value: nat

    constructor ()
      ensures value == 0
    {
      value := 0;
    }

    method FetchAdd() returns (ticket: nat)
      modifies this
      ensures ticket == old(value) && value == (old(value) + 1) % WORDS
    {
      ticket := value;
      value := (value + 1) % WORDS;
    }
  }

  /** The position tried at attempt i: the sum wraps at 64 bits before it is reduced. */
  function Slot(ticket: nat, i: nat, len: nat): nat
    requires len > 0
  {
    (ticket + i) % WORDS % len
  }

  /** The position picked by a ticket, if any position tried from attempt i on is up. */
  function PickFrom(up: seq<bool>, ticket: nat, i: nat): (r: Option<nat>)
    ensures r.Some? ==> r.value < |up| && up[r.value]
    decreases |up| - i
  {
    if i >= |up| then None
    else if up[Slot(ticket, i, |up|)] then Some(Slot(ticket, i, |up|))
    else PickFrom(up, ticket, i + 1)
  }

  function Pick(up: seq<bool>, ticket: nat): (r: Option<nat>)
    ensures r.Some? ==> r.value < |up| && up[r.value]
  {
    PickFrom(up, ticket, 0)
  }

  method SelectUpstream(upstreams: seq<string>, counter: AtomicCounter, health: HealthManager) returns (r: Option<string>)
    modifies counter
    ensures counter.value == (old(counter.value) + 1) % WORDS
    ensures r == match Pick(health.Health(upstreams), old(counter.value))
                 case Some(idx) => Some(upstreams[idx])
                 case None => None
  {
    var len := |upstreams|;
    var start := counter.FetchAdd();
    for i := 0 to len
      invariant Pick(health.Health(upstreams), start) == PickFrom(health.Health(upstreams), start, i)
    {
      var idx := (start + i) % WORDS % len;
      var addr := upstreams[idx];
      if health.IsHealthy(addr) {
        return Some(addr);
      }
    }
    r := None;
  }

  // When a healthy upstream is found

  lemma {:induction false} PickFromIsFirst(up: seq<bool>, ticket: nat, i: nat)
    requires i <= |up|
    ensures match PickFrom(up, ticket, i)
            case Some(idx) =>
              exists d :: i <= d < |up| && Slot(ticket, d, |up|) == idx && forall e :: i <= e < d ==> !up[Slot(ticket, e, |up|)]
            case None => forall e :: i <= e < |up| ==> !up[Slot(ticket, e, |up|)]
    decreases |up| - i
  {
    if i < |up| {
      if up[Slot(ticket, i, |up|)] {
        assert Slot(ticket, i, |up|) == PickFrom(up, ticket, i).value;
      } else {
        PickFromIsFirst(up, ticket, i + 1);
      }
    }
  }

  /** The scan visits the position. */
  predicate Visits(len: nat, ticket: nat, idx: nat)
    requires len > 0
  {
    exists i :: 0 <= i < len && Slot(ticket, i, len) == idx
  }

  lemma SlotOfMultiple(len: nat, ticket: nat, i: nat, q: int, idx: nat)
    requires idx < len && ticket + i == q * len + idx && ticket + i < WORDS
    ensures Slot(ticket, i, len) == idx
  {
    RemainderIsUnique(ticket + i, q, idx, len);
  }

  lemma StepsToReach(len: nat, ticket: nat, idx: nat) returns (i: nat, q: int)
    requires idx < len
    ensures i < len && ticket + i == q * len + idx
  {
    q := ticket / len;
    var r := ticket % len;
    if idx >= r {
      i := idx - r;
    } else {
      i := idx - r + len;
      assert (q + 1) * len == q * len + len;
      q := q + 1;
    }
  }

  lemma VisitsWithoutWrap(len: nat, ticket: nat, idx: nat)
    requires idx < len && ticket + len <= WORDS
    ensures Visits(len, ticket, idx)
  {
    var i, q := StepsToReach(len, ticket, idx);
    SlotOfMultiple(len, ticket, i, q, idx);
  }

  /** Up to the wrap, the scan walks towards position 2^64 % len, which it does not reach. */
  lemma SlotBeforeWrap(len: nat, ticket: nat, i: nat)
    requires ticket + i < WORDS < ticket + len
    ensures var w, back := WORDS % len, WORDS - ticket - i;
            Slot(ticket, i, len) == if w >= back then w - back else w - back + len
  {
    var w, back := WORDS % len, WORDS - ticket - i;
    RemainderIsUnique(ticket + i, WORDS / len - (if w >= back then 0 else 1), if w >= back then w - back else w - back + len, len);
  }

  /** After the wrap it starts over from position 0. */
  lemma SlotAfterWrap(len: nat, ticket: nat, i: nat)
    requires ticket < WORDS <= ticket + i && i < len <= WORDS
    ensures Slot(ticket, i, len) == ticket + i - WORDS
  {
    var k := ticket + i - WORDS;
    assert k < len;
    RemainderIsUnique(ticket + i, 1, k, WORDS);
    RemainderIsUnique(k, 0, k, len);
  }

  lemma VisitsAcrossWrap(len: nat, ticket: nat, idx: nat)
    requires idx < len <= WORDS && ticket < WORDS < ticket + len && WORDS % len == 0
    ensures Visits(len, ticket, idx)
  {
    var p := WORDS - ticket;
    if idx >= len - p {
      SlotBeforeWrap(len, ticket, idx - (len - p));
      assert Slot(ticket, idx - (len - p), len) == idx;
    } else {
      SlotAfterWrap(len, ticket, p + idx);
      assert Slot(ticket, p + idx, len) == idx;
    }
  }

  /** When the scan wraps and its length does not divide 2^64, it meets some position twice and misses another. */
  lemma MissesAcrossWrap(len: nat, ticket: nat) returns (missed: nat)
    requires len <= WORDS && ticket < WORDS < ticket + len && WORDS % len != 0
    ensures missed < len && !Visits(len, ticket, missed)
  {
    var p, w := WORDS - ticket, WORDS % len;
    missed := if w >= p then len - 1 else if w >= len - p then w else len - p;
    forall i | 0 <= i < len ensures Slot(ticket, i, len) != missed {
      if i < p { SlotBeforeWrap(len, ticket, i); } else { SlotAfterWrap(len, ticket, i); }
    }
  }

  /**
   * The scan finds an upstream whenever one is healthy if and only if its positions do not wrap
   * at 64 bits, or wrap harmlessly because their number divides 2^64.
   */
  lemma FindsHealthyIff(len: nat, ticket: nat)
    requires 0 < len <= WORDS && ticket < WORDS
    ensures (forall up: seq<bool> :: |up| == len && true in up ==> Pick(up, ticket).Some?)
            <==> ticket + len <= WORDS || WORDS % len == 0
  {
    if ticket + len <= WORDS || WORDS % len == 0 {
      forall up: seq<bool> | |up| == len && true in up ensures Pick(up, ticket).Some? {
        var idx :| 0 <= idx < len && up[idx];
        if ticket + len <= WORDS { VisitsWithoutWrap(len, ticket, idx); } else { VisitsAcrossWrap(len, ticket, idx); }
        PickFromIsFirst(up, ticket, 0);
      }
    } else {
      var missed := MissesAcrossWrap(len, ticket);
      var up := seq(len, i => i == missed);
      assert up[missed];
      PickFromIsFirst(up, ticket, 0);
      assert Pick(up, ticket).None?;
    }
  }

  // Shares of the upstreams

  /** The pick without the wrap at 64 bits: the first healthy position at or cyclically after the ticket. */
  function Next(up: seq<bool>, ticket: nat): nat
    requires true in up
  {
    NextFrom(up, ticket, 0)
  }

  /** Positions continued periodically past the end of the list. */
  predicate UpAt(up: seq<bool>, n: nat)
    requires |up| > 0
  {
    up[n % |up|]
  }

  function NextFrom(up: seq<bool>, ticket: nat, i: nat): nat
    requires |up| > 0
    decreases |up| - i
  {
    if i >= |up| || UpAt(up, ticket + i) then (ticket + i) % |up| else NextFrom(up, ticket, i + 1)
  }

  lemma SlotWithoutWrap(ticket: nat, i: nat, len: nat)
    requires len > 0 && ticket + i < WORDS
    ensures Slot(ticket, i, len) == (ticket + i) % len
  {
  }

  lemma {:induction false} PickIsNextFrom(up: seq<bool>, ticket: nat, i: nat)
    requires |up| > 0 && ticket + |up| <= WORDS && i <= |up| && PickFrom(up, ticket, i).Some?
    ensures PickFrom(up, ticket, i) == Some(NextFrom(up, ticket, i))
    decreases |up| - i
  {
    if i < |up| {
      SlotWithoutWrap(ticket, i, |up|);
      if !up[Slot(ticket, i, |up|)] { PickIsNextFrom(up, ticket, i + 1); }
    }
  }

  /** While the counter is clear of the wrap, the pick of a ticket is the next healthy position. */
  lemma PickIsNext(up: seq<bool>, ticket: nat)
    requires true in up && ticket + |up| <= WORDS && |up| <= WORDS
    ensures Pick(up, ticket) == Some(Next(up, ticket))
  {
    if ticket < WORDS { FindsHealthyIff(|up|, ticket); }
    PickIsNextFrom(up, ticket, 0);
  }

  lemma {:induction false} NextFromRepeats(up: seq<bool>, ticket: nat, i: nat)
    requires |up| > 0
    ensures NextFrom(up, ticket + |up|, i) == NextFrom(up, ticket, i)
    decreases |up| - i
  {
    RemainderRepeats(ticket + i, |up|);
    assert ticket + |up| + i == ticket + i + |up|;
    if i < |up| { NextFromRepeats(up, ticket, i + 1); }
  }

  /** Three upstreams, the last one healthy, and the last ticket before the wrap: the scan tries 0, 0 and 1. */
  lemma WrapMissesHealthy()
    ensures Pick([false, false, true], WORDS - 1) == None
  {
    var up := [false, false, true];
    assert Slot(WORDS - 1, 0, 3) == 0 && Slot(WORDS - 1, 1, 3) == 0 && Slot(WORDS - 1, 2, 3) == 1;
    assert PickFrom(up, WORDS - 1, 3) == None;
    assert PickFrom(up, WORDS - 1, 2) == None;
    assert PickFrom(up, WORDS - 1, 1) == None;
  }

  // Health that changes during a scan

  /** What the health task had recorded at each attempt of one scan: one picture of all positions per attempt. */
  ghost predicate Pictures(ups: seq<seq<bool>>) {
    forall i :: 0 <= i < |ups| ==> |ups[i]| == |ups|
  }

  /** The scan from attempt i on, when attempt k finds the health ups[k]. */
  function ScanFrom(ups: seq<seq<bool>>, ticket: nat, i: nat): (r: Option<nat>)
    requires Pictures(ups)
    decreases |ups| - i
  {
    if i >= |ups| then None
    else if ups[i][Slot(ticket, i, |ups|)] then Some(Slot(ticket, i, |ups|))
    else ScanFrom(ups, ticket, i + 1)
  }

  /** The position that attempt k tries was up when it was tried. */
  ghost predicate UpWhenTried(ups: seq<seq<bool>>, ticket: nat, k: nat)
    requires Pictures(ups) && k < |ups|
  {
    ups[k][Slot(ticket, k, |ups|)]
  }

  /**
   * However health changes meanwhile, a scan picks a position that was up when it was tried, and the
   * first such one; it finds none only if every position it tried was down when tried.
   */
  lemma {:induction false} ScanIsFirstUp(ups: seq<seq<bool>>, ticket: nat, i: nat)
    requires Pictures(ups) && i <= |ups|
    ensures match ScanFrom(ups, ticket, i)
            case Some(idx) =>
              exists k :: i <= k < |ups| && Slot(ticket, k, |ups|) == idx && UpWhenTried(ups, ticket, k)
                          && forall e :: i <= e < k ==> !UpWhenTried(ups, ticket, e)
            case None => forall e :: i <= e < |ups| ==> !UpWhenTried(ups, ticket, e)
    decreases |ups| - i
  {
    if i < |ups| {
      if ups[i][Slot(ticket, i, |ups|)] {
        assert UpWhenTried(ups, ticket, i);
      } else {
        ScanIsFirstUp(ups, ticket, i + 1);
      }
    }
  }

  /** With health that stays as it is, the scan is the pick of the ticket. */
  lemma {:induction false} SteadyScanIsPick(ups: seq<seq<bool>>, up: seq<bool>, ticket: nat, i: nat)
    requires Pictures(ups) && i <= |ups| && forall k :: 0 <= k < |ups| ==> ups[k] == up
    requires |up| == |ups|
    ensures ScanFrom(ups, ticket, i) == PickFrom(up, ticket, i)
    decreases |ups| - i
  {
    if i < |ups| { SteadyScanIsPick(ups, up, ticket, i + 1); }
  }

  /** Clear of the wrap, an upstream that stays up through the scan keeps it from coming back empty. */
  lemma SteadyUpstreamIsEnough(ups: seq<seq<bool>>, ticket: nat, idx: nat)
    requires Pictures(ups) && ticket + |ups| <= WORDS && idx < |ups|
    requires forall k :: 0 <= k < |ups| ==> ups[k][idx]
    ensures ScanFrom(ups, ticket, 0).Some?
  {
    VisitsWithoutWrap(|ups|, ticket, idx);
    ScanIsFirstUp(ups, ticket, 0);
    var k :| 0 <= k < |ups| && Slot(ticket, k, |ups|) == idx;
    assert UpWhenTried(ups, ticket, k);
  }
}
