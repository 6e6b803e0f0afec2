/**
 * The route table of a virtual host: how src/config.rs builds it, and how src/proxy.rs looks a
 * path up in it and serves it. A path or a prefix is the string of its bytes, so that lengths
 * and prefixes are those of the source's byte strings.
 */
module Routing {
  import opened Prelude
  import opened Balancer
  import opened Shares

  datatype Route = Route(prefix: string, upstreams: seq<string>)

  // Building the table

  ghost predicate LongestFirst(routers: seq<Route>) {
    forall i, j :: 0 <= i <= j < |routers| ==> |routers[i].prefix| >= |routers[j].prefix|
  }

  ghost predicate DistinctPrefixes(routers: seq<Route>) {
    forall i, j :: 0 <= i < j < |routers| ==> routers[i].prefix != routers[j].prefix
  }

  function Inserted(routers: seq<Route>, at: nat, r: Route): seq<Route>
    requires at <= |routers|
  {
    routers[..at] + [r] + routers[at..]
  }

  lemma InsertKeepsOrder(routers: seq<Route>, at: nat, r: Route)
    requires LongestFirst(routers) && at <= |routers|
    requires at > 0 ==> |routers[at - 1].prefix| >= |r.prefix|
    requires forall i :: at <= i < |routers| ==> |routers[i].prefix| < |r.prefix|
    ensures LongestFirst(Inserted(routers, at, r))
  {
    var s := Inserted(routers, at, r);
    forall i, j | 0 <= i <= j < |s| ensures |s[i].prefix| >= |s[j].prefix| {
      if i < at {
        assert s[i] == routers[i] && |routers[i].prefix| >= |routers[at - 1].prefix|;
        assert s[j] == if j < at then routers[j] else if j == at then r else routers[j - 1];
      } else {
        assert s[i] == if i == at then r else routers[i - 1];
        assert s[j] == if j == at then r else routers[j - 1];
      }
    }
  }

  lemma InsertAddsOne(routers: seq<Route>, at: nat, r: Route)
    requires at <= |routers|
    ensures multiset(Inserted(routers, at, r)) == multiset(routers) + multiset{r}
  {
    assert routers == routers[..at] + routers[at..];
  }

  method SortLongestFirst(routers: seq<Route>) returns (sorted: seq<Route>)
    ensures LongestFirst(sorted) && multiset(sorted) == multiset(routers)
  {
    sorted := [];
    for n := 0 to |routers|
      invariant LongestFirst(sorted) && multiset(sorted) == multiset(routers[..n])
    {
      var r := routers[n];
      var at := |sorted|;
      while at > 0 && |sorted[at - 1].prefix| < |r.prefix|
        invariant 0 <= at <= |sorted|
        invariant forall i :: at <= i < |sorted| ==> |sorted[i].prefix| < |r.prefix|
      {
        at := at - 1;
      }
      InsertKeepsOrder(sorted, at, r);
      InsertAddsOne(sorted, at, r);
      assert routers[..n + 1] == routers[..n] + [r];
      sorted := Inserted(sorted, at, r);
    }
    assert routers[..|routers|] == routers;
  }

  lemma SamePrefixesDistinct(a: seq<Route>, b: seq<Route>)
    requires multiset(a) == multiset(b) && DistinctPrefixes(b)
    ensures DistinctPrefixes(a)
  {
    forall i, j | 0 <= i < j < |a| ensures a[i].prefix != a[j].prefix {
      if a[i].prefix == a[j].prefix {
        assert a[i] in multiset(b) && a[j] in multiset(b);
        var m :| 0 <= m < |b| && b[m] == a[i];
        var n :| 0 <= n < |b| && b[n] == a[j];
        assert m == n;
        TwiceInMultiset(a, i, j);
        OnceInMultiset(b, m);
      }
    }
  }

  lemma TwiceInMultiset(a: seq<Route>, i: nat, j: nat)
    requires i < j < |a| && a[i] == a[j]
    ensures multiset(a)[a[i]] >= 2
  {
    assert a == a[..j] + ([a[j]] + a[j + 1..]);
    assert a[i] == a[..j][i] && a[i] in multiset(a[..j]);
  }

  lemma OnceInMultiset(b: seq<Route>, m: nat)
    requires m < |b| && DistinctPrefixes(b)
    ensures multiset(b)[b[m]] == 1
  {
    assert b == b[..m] + ([b[m]] + b[m + 1..]);
    assert b[m] !in b[..m] && b[m] !in b[m + 1..];
  }

  // Looking a path up

  /** The first route, from position i on, whose prefix starts the path and has a counter. */
  function FirstHit(routers: seq<Route>, counted: set<string>, path: string, i: nat): (r: Option<nat>)
    ensures r.Some? ==> i <= r.value < |routers| && routers[r.value].prefix <= path && routers[r.value].prefix in counted
    decreases |routers| - i
  {
    if i >= |routers| then None
    else if routers[i].prefix <= path && routers[i].prefix in counted then Some(i)
    else FirstHit(routers, counted, path, i + 1)
  }

  /** What the configuration promises: the table lists the configured routes, longest prefix first. */
  ghost predicate TableOf(raw: map<string, seq<string>>, routers: seq<Route>, counted: set<string>) {
    && LongestFirst(routers)
    && (forall i :: 0 <= i < |routers| ==> routers[i].prefix in raw && raw[routers[i].prefix] == routers[i].upstreams)
    && (forall p :: p in raw ==> exists i :: 0 <= i < |routers| && routers[i].prefix == p)
    && counted == raw.Keys
  }

  /** The longest configured prefix of the path. */
  ghost predicate LongestPrefix(raw: map<string, seq<string>>, path: string, p: string) {
    p in raw && p <= path && forall q :: q in raw && q <= path ==> |q| <= |p|
  }

  lemma {:induction false} FirstHitIsFirst(routers: seq<Route>, counted: set<string>, path: string, i: nat)
    ensures match FirstHit(routers, counted, path, i)
            case Some(k) =>
              forall h :: i <= h < k ==> !(routers[h].prefix <= path && routers[h].prefix in counted)
            case None => forall h :: i <= h < |routers| ==> !(routers[h].prefix <= path && routers[h].prefix in counted)
    decreases |routers| - i
  {
    if i < |routers| { FirstHitIsFirst(routers, counted, path, i + 1); }
  }

  /** Two prefixes of one path that are equally long are the same. */
  lemma LongestPrefixIsUnique(raw: map<string, seq<string>>, path: string, p: string, q: string)
    requires LongestPrefix(raw, path, p) && LongestPrefix(raw, path, q)
    ensures p == q
  {
    assert p == path[..|p|] && q == path[..|q|];
  }

  /**
   * Longest-prefix routing: the first hit is the longest configured prefix of the path, with the
   * upstreams configured for it; there is none exactly when no configured prefix starts the path.
   */
  lemma FirstHitIsLongestPrefix(raw: map<string, seq<string>>, routers: seq<Route>, counted: set<string>, path: string)
    requires TableOf(raw, routers, counted)
    ensures match FirstHit(routers, counted, path, 0)
            case Some(k) =>
              LongestPrefix(raw, path, routers[k].prefix) && routers[k].upstreams == raw[routers[k].prefix]
            case None => forall p :: p in raw ==> !(p <= path)
  {
    FirstHitIsFirst(routers, counted, path, 0);
    match FirstHit(routers, counted, path, 0)
    case Some(k) =>
      forall q | q in raw && q <= path ensures |q| <= |routers[k].prefix| {
        var h :| 0 <= h < |routers| && routers[h].prefix == q;
        assert h >= k;
      }
    case None =>
      forall p | p in raw ensures !(p <= path) {
        var h :| 0 <= h < |routers| && routers[h].prefix == p;
      }
  }

  /** The order in which the configuration map is walked does not matter. */
  lemma OrderDoesNotMatter(raw: map<string, seq<string>>, a: seq<Route>, b: seq<Route>, counted: set<string>, path: string)
    requires TableOf(raw, a, counted) && TableOf(raw, b, counted)
    ensures var x, y := FirstHit(a, counted, path, 0), FirstHit(b, counted, path, 0);
            && x.Some? == y.Some?
            && (x.Some? ==> a[x.value] == b[y.value])
  {
    FirstHitIsLongestPrefix(raw, a, counted, path);
    FirstHitIsLongestPrefix(raw, b, counted, path);
    var x, y := FirstHit(a, counted, path, 0), FirstHit(b, counted, path, 0);
    if x.Some? && y.Some? {
      LongestPrefixIsUnique(raw, path, a[x.value].prefix, b[y.value].prefix);
    }
  }

  /** One pass over the configuration: a counter at zero for every route, and the routes in the order met. */
  method CollectRoutes(entries: seq<Route>) returns (state: map<string, AtomicCounter>, pushed: seq<Route>)
    ensures pushed == entries
    ensures state.Keys == set r | r in entries :: r.prefix
    ensures forall p :: p in state ==> fresh(state[p]) && state[p].value == 0
    ensures forall p, q :: p in state && q in state && p != q ==> state[p] != state[q]
  {
    state, pushed := map[], [];
    for n := 0 to |entries|
      invariant pushed == entries[..n]
      invariant state.Keys == set r | r in entries[..n] :: r.prefix
      invariant forall p :: p in state ==> fresh(state[p]) && state[p].value == 0
      invariant forall p, q :: p in state && q in state && p != q ==> state[p] != state[q]
    {
      var counter := new AtomicCounter();
      state := state[entries[n].prefix := counter];
      pushed := pushed + [entries[n]];
      assert entries[..n + 1] == entries[..n] + [entries[n]];
    }
    assert entries[..|entries|] == entries;
  }

  class VHost {
    var routers: seq<Route>
    var routersState: map<string, AtomicCounter>

    /** Every route has a counter, and no two routes share one. */
    ghost predicate Valid()
      reads this
    {
      && DistinctPrefixes(routers)
      && (forall i :: 0 <= i < |routers| ==> routers[i].prefix in routersState)
      && (forall p, q :: p in routersState && q in routersState && p != q ==> routersState[p] != routersState[q])
    }

    ghost function Counters(): map<string, nat>
      reads this, routersState.Values
    {
      map p | p in routersState :: routersState[p].value
    }

    /** `entries` is the configuration map, walked in any order. */
    constructor (ghost raw: map<string, seq<string>>, entries: seq<Route>)
      requires DistinctPrefixes(entries)
      requires forall r :: r in entries <==> r.prefix in raw && r.upstreams == raw[r.prefix]
      ensures Valid() && fresh(routersState.Values)
      ensures TableOf(raw, routers, routersState.Keys)
      ensures Counters() == map p | p in raw :: 0
    {
      var state, pushed := CollectRoutes(entries);
      var sorted := SortLongestFirst(pushed);
      SamePrefixesDistinct(sorted, entries);
      SortedIsTable(raw, entries, sorted);
      assert state.Keys == raw.Keys by {
        forall p | p in raw ensures p in state {
          assert Route(p, raw[p]) in entries;
        }
      }
      routers := sorted;
      routersState := state;
    }

    method MatchRoute(path: string) returns (best: Option<nat>)
      ensures best == FirstHit(routers, routersState.Keys, path, 0)
    {
      best := None;
      for k := 0 to |routers|
        invariant FirstHit(routers, routersState.Keys, path, 0) == FirstHit(routers, routersState.Keys, path, k)
      {
        var prefix := routers[k].prefix;
        if prefix <= path {
          if prefix in routersState {
            return Some(k);
          }
        }
      }
    }

    /** Route a path and select an upstream for it; only the counter of the matched route moves. */
    method Dispatch(path: string, health: HealthManager) returns (r: Option<string>)
      requires Valid()
      modifies routersState.Values
      ensures Valid() && routers == old(routers) && routersState == old(routersState)
      ensures Counters() == AfterRequest(routers, old(Counters()), path)
      ensures match FirstHit(routers, routersState.Keys, path, 0)
              case None => r == None
              case Some(k) =>
                r == match Pick(health.Health(routers[k].upstreams), old(Counters())[routers[k].prefix])
                     case Some(idx) => Some(routers[k].upstreams[idx])
                     case None => None
    {
      ghost var before := Counters();
      assert before.Keys == routersState.Keys;
      var best := MatchRoute(path);
      match best {
        case None => r := None;
        case Some(k) =>
          var prefix := routers[k].prefix;
          r := SelectUpstream(routers[k].upstreams, routersState[prefix], health);
          assert Counters() == before[prefix := (before[prefix] + 1) % WORDS];
      }
    }
  }

  lemma SortedIsTable(raw: map<string, seq<string>>, entries: seq<Route>, sorted: seq<Route>)
    requires forall r :: r in entries <==> r.prefix in raw && r.upstreams == raw[r.prefix]
    requires LongestFirst(sorted) && multiset(sorted) == multiset(entries)
    ensures TableOf(raw, sorted, raw.Keys)
  {
    forall i | 0 <= i < |sorted| ensures sorted[i].prefix in raw && raw[sorted[i].prefix] == sorted[i].upstreams {
      assert sorted[i] in multiset(entries);
    }
    forall p | p in raw ensures exists i :: 0 <= i < |sorted| && sorted[i].prefix == p {
      assert Route(p, raw[p]) in entries;
      assert Route(p, raw[p]) in multiset(sorted);
    }
  }

  // Whole runs over one virtual host

  /** How many of the requests are matched to route k. */
  function Hits(routers: seq<Route>, counted: set<string>, paths: seq<string>, k: nat): nat {
    if paths == [] then 0
    else
      var last := |paths| - 1;
      Hits(routers, counted, paths[..last], k) + if FirstHit(routers, counted, paths[last], 0) == Some(k) then 1 else 0
  }

  /** The counters after one request; only the matched route's counter moves. */
  function AfterRequest(routers: seq<Route>, counters: map<string, nat>, path: string): map<string, nat> {
    match FirstHit(routers, counters.Keys, path, 0)
    case Some(k) => counters[routers[k].prefix := (counters[routers[k].prefix] + 1) % WORDS]
    case None => counters
  }

  function CountersAfter(routers: seq<Route>, counters: map<string, nat>, paths: seq<string>): map<string, nat> {
    if paths == [] then counters
    else AfterRequest(routers, CountersAfter(routers, counters, paths[..|paths| - 1]), paths[|paths| - 1])
  }

  /** How many requests of the run are served on route k by the upstream at position j. */
  function ServedBy(routers: seq<Route>, counters: map<string, nat>, up: seq<bool>, paths: seq<string>, k: nat, j: nat): nat
    requires k < |routers|
  {
    if paths == [] then 0
    else
      var last := |paths| - 1;
      var before := CountersAfter(routers, counters, paths[..last]);
      ServedBy(routers, counters, up, paths[..last], k, j)
      + if FirstHit(routers, counters.Keys, paths[last], 0) == Some(k) && routers[k].prefix in before
           && Pick(up, before[routers[k].prefix]) == Some(j)
        then 1 else 0
  }

  /** The ticket of a route counts its own requests only. */
  lemma {:induction false} CounterIsOwnTraffic(routers: seq<Route>, counters: map<string, nat>, paths: seq<string>, k: nat)
    requires DistinctPrefixes(routers) && k < |routers| && routers[k].prefix in counters && counters[routers[k].prefix] == 0
    ensures var after := CountersAfter(routers, counters, paths);
            && after.Keys == counters.Keys
            && after[routers[k].prefix] == Hits(routers, counters.Keys, paths, k) % WORDS
    decreases |paths|
  {
    if paths != [] {
      var last := |paths| - 1;
      CounterIsOwnTraffic(routers, counters, paths[..last], k);
    }
  }

  lemma LastRequestDrawsOwnTicket(routers: seq<Route>, counters: map<string, nat>, up: seq<bool>, paths: seq<string>, k: nat, j: nat)
    requires DistinctPrefixes(routers) && k < |routers| && routers[k].prefix in counters && counters[routers[k].prefix] == 0
    requires paths != [] && Hits(routers, counters.Keys, paths[..|paths| - 1], k) < WORDS
    ensures var front, hit := paths[..|paths| - 1], FirstHit(routers, counters.Keys, paths[|paths| - 1], 0) == Some(k);
            var n := Hits(routers, counters.Keys, front, k);
            && Hits(routers, counters.Keys, paths, k) == (if hit then n + 1 else n)
            && ServedBy(routers, counters, up, paths, k, j) ==
               ServedBy(routers, counters, up, front, k, j) + if hit && Pick(up, n) == Some(j) then 1 else 0
  {
    var front := paths[..|paths| - 1];
    CounterIsOwnTraffic(routers, counters, front, k);
    var before := CountersAfter(routers, counters, front);
    assert routers[k].prefix in before && before[routers[k].prefix] == Hits(routers, counters.Keys, front, k);
  }

  /** On one route, a run serves exactly what as many consecutive tickets from zero would, whatever the other routes do. */
  lemma {:induction false} ServedIsOwnShare(routers: seq<Route>, counters: map<string, nat>, up: seq<bool>, paths: seq<string>, k: nat, j: nat)
    requires DistinctPrefixes(routers) && k < |routers| && routers[k].prefix in counters && counters[routers[k].prefix] == 0
    requires true in up && |paths| + |up| <= WORDS + 1
    ensures ServedBy(routers, counters, up, paths, k, j) == Share(up, 0, Hits(routers, counters.Keys, paths, k), j)
    decreases |paths|
  {
    if paths != [] {
      var front := paths[..|paths| - 1];
      ServedIsOwnShare(routers, counters, up, front, k, j);
      HitsWithinRun(routers, counters.Keys, front, k);
      LastRequestDrawsOwnTicket(routers, counters, up, paths, k, j);
      OneMoreShare(up, 0, Hits(routers, counters.Keys, front, k), j);
    }
  }

  /** Per-route fairness: with all of a route's upstreams healthy, no two of them serve counts that differ by more than one. */
  lemma RouteIsFair(routers: seq<Route>, counters: map<string, nat>, up: seq<bool>, paths: seq<string>, k: nat, i: nat, j: nat)
    requires DistinctPrefixes(routers) && k < |routers| && routers[k].prefix in counters && counters[routers[k].prefix] == 0
    requires |up| == |routers[k].upstreams| && false !in up && i < |up| && j < |up|
    requires |paths| + |up| <= WORDS + 1
    ensures ServedBy(routers, counters, up, paths, k, i) <= ServedBy(routers, counters, up, paths, k, j) + 1
  {
    var n := Hits(routers, counters.Keys, paths, k);
    FairWhenAllUp(up, 0, n, i, j);
    ServedIsOwnShare(routers, counters, up, paths, k, i);
    ServedIsOwnShare(routers, counters, up, paths, k, j);
  }

  lemma {:induction false} HitsWithinRun(routers: seq<Route>, counted: set<string>, paths: seq<string>, k: nat)
    ensures Hits(routers, counted, paths, k) <= |paths|
    decreases |paths|
  {
    if paths != [] { HitsWithinRun(routers, counted, paths[..|paths| - 1], k); }
  }
}
