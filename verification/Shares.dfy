/**
 * How the tickets of the balancer of src/proxy.rs spread over the upstreams while the health of
 * each stays as it is: the exact share of every position, in every schedule of the callers.
 */
module Shares {
  import opened Prelude
  import opened Balancer

  /** How many of the n tickets from s on go to position j. */
  function Share(up: seq<bool>, s: nat, n: nat, j: nat): nat
    requires true in up
  {
    if n == 0 then 0 else Share(up, s, n - 1, j) + if Next(up, s + n - 1) == j then 1 else 0
  }

  /** The number of unhealthy positions immediately, and cyclically, before position j. */
  function Gap(up: seq<bool>, j: nat): nat
    requires j < |up|
  {
    GapFrom(up, j, 0)
  }

  function GapFrom(up: seq<bool>, j: nat, g: nat): nat
    requires j < |up|
    decreases |up| - g
  {
    if g + 1 >= |up| || UpAt(up, j + |up| - 1 - g) then g else GapFrom(up, j, g + 1)
  }

  lemma {:induction false} GapIsDown(up: seq<bool>, j: nat, g: nat)
    requires j < |up| && g < |up|
    ensures var e, gap := j + |up|, GapFrom(up, j, g);
            && g <= gap < |up|
            && (forall p :: e - gap <= p < e - g ==> !UpAt(up, p))
            && (gap + 1 < |up| ==> UpAt(up, e - 1 - gap))
    decreases |up| - g
  {
    if g + 1 < |up| && !UpAt(up, j + |up| - 1 - g) { GapIsDown(up, j, g + 1); }
  }

  lemma {:induction false} NextSkipsDown(up: seq<bool>, t: nat, i: nat, d: nat)
    requires i <= d < |up|
    requires forall p :: t + i <= p < t + d ==> !UpAt(up, p)
    ensures NextFrom(up, t, i) == NextFrom(up, t, d)
    decreases d - i
  {
    if i < d { NextSkipsDown(up, t, i + 1, d); }
  }

  lemma {:induction false} NextStopsAtUp(up: seq<bool>, t: nat, i: nat, d: nat) returns (stop: nat)
    requires i <= d < |up| && UpAt(up, t + d)
    ensures i <= stop <= d && NextFrom(up, t, i) == (t + stop) % |up|
    decreases d - i
  {
    if UpAt(up, t + i) { stop := i; } else { stop := NextStopsAtUp(up, t, i + 1, d); }
  }

  lemma NearbyDiffer(x: nat, y: nat, n: nat)
    requires x < y < x + n
    ensures x % n != y % n
  {
    if x % n == y % n {
      var q := y / n - x / n;
      assert y - x == q * n;
      if q >= 1 { MulMono(1, q, n); } else { MulMono(q, 0, n); }
    }
  }

  /** The tickets that pick position j are those that start at it or in the gap before it. */
  lemma NextIffWithinGap(up: seq<bool>, j: nat, d: nat)
    requires j < |up| && up[j] && d < |up|
    ensures Next(up, j + |up| - d) == j <==> d <= Gap(up, j)
  {
    var e, gap := j + |up|, Gap(up, j);
    RemainderIsUnique(e, 1, j, |up|);
    GapIsDown(up, j, 0);
    if d <= gap {
      NextSkipsDown(up, e - d, 0, d);
      assert UpAt(up, e);
    } else {
      var stop := NextStopsAtUp(up, e - d, 0, d - gap - 1);
      NearbyDiffer(e - d + stop, e, |up|);
    }
  }

  /** Of the tickets from just after position j round to position j, the last 1 + Gap(j) pick it. */
  lemma {:induction false} ShareUpTo(up: seq<bool>, j: nat, m: nat)
    requires j < |up| && up[j] && m <= |up|
    ensures var skipped := |up| - 1 - Gap(up, j);
            Share(up, j + 1, m, j) == if m <= skipped then 0 else m - skipped
  {
    GapIsDown(up, j, 0);
    if m > 0 {
      ShareUpTo(up, j, m - 1);
      NextIffWithinGap(up, j, |up| - m);
      assert j + 1 + m - 1 == j + |up| - (|up| - m);
    }
  }

  lemma {:induction false} ShareHead(up: seq<bool>, s: nat, n: nat, j: nat)
    requires true in up
    ensures Share(up, s, n + 1, j) == (if Next(up, s) == j then 1 else 0) + Share(up, s + 1, n, j)
  {
    if n > 0 { ShareHead(up, s, n - 1, j); }
  }

  /** The share of a full round does not depend on the ticket it starts with. */
  lemma {:induction false} ShareSlides(up: seq<bool>, s: nat, j: nat)
    requires true in up
    ensures Share(up, s, |up|, j) == Share(up, 0, |up|, j)
  {
    if s > 0 {
      ShareSlides(up, s - 1, j);
      ShareHead(up, s - 1, |up|, j);
      NextFromRepeats(up, s - 1, 0);
    }
  }

  /**
   * Exact shares: of any |up| consecutive tickets, a healthy position gets one for itself and one
   * for every unhealthy position immediately before it.
   */
  lemma ExactShare(up: seq<bool>, s: nat, j: nat)
    requires j < |up| && up[j]
    ensures Share(up, s, |up|, j) == 1 + Gap(up, j)
  {
    GapIsDown(up, j, 0);
    ShareUpTo(up, j, |up|);
    ShareSlides(up, s, j);
    ShareSlides(up, j + 1, j);
  }

  /** Among any |up| consecutive positions there is a healthy one. */
  lemma SomeUpAhead(up: seq<bool>, t: nat) returns (d: nat)
    requires true in up
    ensures d < |up| && UpAt(up, t + d)
  {
    var idx :| 0 <= idx < |up| && up[idx];
    var r := t % |up|;
    d := if idx >= r then idx - r else idx - r + |up|;
    RemainderIsUnique(t + d, t / |up| + (if idx >= r then 0 else 1), idx, |up|);
  }

  lemma {:induction false} NextFromIsUp(up: seq<bool>, t: nat, i: nat, d: nat)
    requires i <= d < |up| && UpAt(up, t + d)
    ensures NextFrom(up, t, i) < |up| && up[NextFrom(up, t, i)]
    decreases d - i
  {
    if !UpAt(up, t + i) { NextFromIsUp(up, t, i + 1, d); }
  }

  lemma NextIsUp(up: seq<bool>, t: nat)
    requires true in up
    ensures Next(up, t) < |up| && up[Next(up, t)]
  {
    var d := SomeUpAhead(up, t);
    NextFromIsUp(up, t, 0, d);
  }

  /** The shares of the first m positions together. */
  function ShareSum(up: seq<bool>, s: nat, n: nat, m: nat): nat
    requires true in up
  {
    if m == 0 then 0 else ShareSum(up, s, n, m - 1) + Share(up, s, n, m - 1)
  }

  lemma {:induction false} OneTicketOneShare(up: seq<bool>, s: nat, n: nat, m: nat)
    requires true in up && n > 0
    ensures ShareSum(up, s, n, m) == ShareSum(up, s, n - 1, m) + if Next(up, s + n - 1) < m then 1 else 0
  {
    if m > 0 { OneTicketOneShare(up, s, n, m - 1); }
  }

  lemma {:induction false} NoTicketsNoShares(up: seq<bool>, s: nat, m: nat)
    requires true in up
    ensures ShareSum(up, s, 0, m) == 0
  {
    if m > 0 { NoTicketsNoShares(up, s, m - 1); }
  }

  /** Every ticket is somebody's: the shares of all positions add up to the number of tickets. */
  lemma {:induction false} SharesAddUp(up: seq<bool>, s: nat, n: nat)
    requires true in up
    ensures ShareSum(up, s, n, |up|) == n
  {
    if n == 0 {
      NoTicketsNoShares(up, s, |up|);
    } else {
      SharesAddUp(up, s, n - 1);
      OneTicketOneShare(up, s, n, |up|);
      NextIsUp(up, s + n - 1);
    }
  }

  // All upstreams healthy

  lemma AllUpNext(up: seq<bool>, t: nat)
    requires up != [] && false !in up
    ensures true in up && Next(up, t) == t % |up|
  {
    assert up[0] && up[t % |up|];
  }

  lemma {:induction false} FewTicketsDiffer(up: seq<bool>, s: nat, n: nat, j: nat)
    requires up != [] && false !in up && j < |up| && n <= |up|
    ensures true in up && Share(up, s, n, j) <= 1
    ensures Share(up, s, n, j) == 1 ==> exists t :: s <= t < s + n && t % |up| == j
  {
    assert up[0];
    if n > 0 {
      FewTicketsDiffer(up, s, n - 1, j);
      AllUpNext(up, s + n - 1);
      if (s + n - 1) % |up| == j && Share(up, s, n - 1, j) == 1 {
        var t :| s <= t < s + n - 1 && t % |up| == j;
        NearbyDiffer(t, s + n - 1, |up|);
      }
    }
  }

  lemma {:induction false} ShareSplits(up: seq<bool>, s: nat, a: nat, b: nat, j: nat)
    requires true in up
    ensures Share(up, s, a + b, j) == Share(up, s, a, j) + Share(up, s + a, b, j)
    decreases b
  {
    if b > 0 { ShareSplits(up, s, a, b - 1, j); }
  }

  /** With every upstream healthy, any run of tickets gives any two positions shares that differ by at most one. */
  lemma {:induction false} FairWhenAllUp(up: seq<bool>, s: nat, n: nat, i: nat, j: nat)
    requires false !in up && i < |up| && j < |up|
    ensures true in up && Share(up, s, n, i) <= Share(up, s, n, j) + 1
    decreases n
  {
    assert up[i] && up[j];
    if n < |up| {
      FewTicketsDiffer(up, s, n, i);
    } else {
      FairWhenAllUp(up, s + |up|, n - |up|, i, j);
      ShareSplits(up, s, |up|, n - |up|, i);
      ShareSplits(up, s, |up|, n - |up|, j);
      AllUpGap(up, i);
      AllUpGap(up, j);
      ExactShare(up, s, i);
      ExactShare(up, s, j);
    }
  }

  lemma AllUpGap(up: seq<bool>, j: nat)
    requires false !in up && j < |up|
    ensures up[j] && Gap(up, j) == 0
  {
    assert UpAt(up, j + |up| - 1);
  }

  // Concurrent callers

  /** Callers between drawing their ticket and finishing their scan, and those that have finished. */
  datatype Callers = Callers(counter: nat, held: seq<nat>, done: seq<nat>)

  datatype Action = Draw | Finish(which: nat)

  function Act(c: Callers, a: Action): Callers {
    match a
    case Draw => Callers(c.counter + 1, c.held + [c.counter], c.done)
    case Finish(k) =>
      if k < |c.held| then Callers(c.counter, c.held[..k] + c.held[k + 1..], c.done + [c.held[k]]) else c
  }

  function Schedule(start: nat, actions: seq<Action>): Callers {
    if actions == [] then Callers(start, [], [])
    else Act(Schedule(start, actions[..|actions| - 1]), actions[|actions| - 1])
  }

  /** How many of the tickets pick position j. */
  function PicksOf(up: seq<bool>, tickets: seq<nat>, j: nat): nat {
    if tickets == [] then 0
    else PicksOf(up, tickets[..|tickets| - 1], j) + if Pick(up, tickets[|tickets| - 1]) == Some(j) then 1 else 0
  }

  lemma {:induction false} PicksOfConcat(up: seq<bool>, a: seq<nat>, b: seq<nat>, j: nat)
    ensures PicksOf(up, a + b, j) == PicksOf(up, a, j) + PicksOf(up, b, j)
    decreases |b|
  {
    if b == [] {
      assert a + b == a;
    } else {
      assert (a + b)[..|a + b| - 1] == a + b[..|b| - 1];
      PicksOfConcat(up, a, b[..|b| - 1], j);
    }
  }

  lemma ActMovesPicks(up: seq<bool>, c: Callers, a: Action, j: nat)
    ensures var next := Act(c, a);
            PicksOf(up, next.done, j) + PicksOf(up, next.held, j) == PicksOf(up, c.done, j) + PicksOf(up, c.held, j)
              + if a.Draw? && Pick(up, c.counter) == Some(j) then 1 else 0
  {
    match a
    case Draw =>
      PicksOfConcat(up, c.held, [c.counter], j);
      assert PicksOf(up, [c.counter], j) == if Pick(up, c.counter) == Some(j) then 1 else 0;
    case Finish(k) =>
      if k < |c.held| {
        var front, one, back := c.held[..k], [c.held[k]], c.held[k + 1..];
        assert c.held == front + (one + back);
        PicksOfConcat(up, front, one + back, j);
        PicksOfConcat(up, one, back, j);
        PicksOfConcat(up, front, back, j);
        PicksOfConcat(up, c.done, one, j);
      }
  }

  lemma OneMoreShare(up: seq<bool>, start: nat, ticket: nat, j: nat)
    requires true in up && start <= ticket && ticket + |up| <= WORDS
    ensures Share(up, start, ticket + 1 - start, j) ==
            Share(up, start, ticket - start, j) + if Pick(up, ticket) == Some(j) then 1 else 0
  {
    PickIsNext(up, ticket);
    assert start + (ticket + 1 - start) - 1 == ticket;
  }

  /** The tickets drawn so far, finished or not, pick position j as often as its share says. */
  ghost predicate OnShare(up: seq<bool>, start: nat, c: Callers, j: nat)
    requires true in up
  {
    && c.counter >= start
    && PicksOf(up, c.done, j) + PicksOf(up, c.held, j) == Share(up, start, c.counter - start, j)
  }

  lemma ActKeepsShare(up: seq<bool>, start: nat, c: Callers, a: Action, j: nat)
    requires true in up && OnShare(up, start, c, j) && Act(c, a).counter + |up| <= WORDS + 1
    ensures OnShare(up, start, Act(c, a), j)
  {
    ActMovesPicks(up, c, a, j);
    if a.Draw? {
      OneMoreShare(up, start, c.counter, j);
    } else {
      assert Act(c, a).counter == c.counter;
    }
  }

  lemma {:induction false} ScheduleKeepsShare(up: seq<bool>, start: nat, actions: seq<Action>, j: nat)
    requires true in up && Schedule(start, actions).counter + |up| <= WORDS + 1
    ensures OnShare(up, start, Schedule(start, actions), j)
    decreases |actions|
  {
    if actions != [] {
      var front, a := actions[..|actions| - 1], actions[|actions| - 1];
      ScheduleKeepsShare(up, start, front, j);
      ActKeepsShare(up, start, Schedule(start, front), a, j);
    }
  }

  /**
   * Whatever the schedule, when a full round of callers has drawn tickets and all have finished,
   * every healthy position was picked exactly 1 + Gap times.
   */
  lemma AnyScheduleGivesExactShares(up: seq<bool>, start: nat, actions: seq<Action>, j: nat)
    requires j < |up| && up[j]
    requires var c := Schedule(start, actions);
             c.held == [] && c.counter == start + |up| && c.counter + |up| <= WORDS + 1
    ensures PicksOf(up, Schedule(start, actions).done, j) == 1 + Gap(up, j)
  {
    ScheduleKeepsShare(up, start, actions, j);
    ExactShare(up, start, j);
  }
}
