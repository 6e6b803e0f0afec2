/**
 * What the token buckets of src/bandwidth.rs admit: exactly when a call is admitted, in terms
 * of the calls before it, and how much one address can be debited in any window, whoever else
 * uses the table.
 */
module Quota {
  import opened Prelude
  import opened Bandwidth

  datatype Call = Call(now: Instant, amount: nat)

  /** The calls made on one bucket, at one rate. */
  datatype History = History(created: Instant, rate: nat, calls: seq<Call>) {

    /** The clock is monotonic and is read while the entry is locked. */
    ghost predicate Timely() {
      && (calls != [] ==> created <= calls[0].now)
      && forall i, j :: 0 <= i <= j < |calls| ==> calls[i].now <= calls[j].now
    }

    function State(k: nat): Bucket
      requires k <= |calls|
    {
      if k == 0 then Fresh(created)
      else AfterCall(State(k - 1), rate, calls[k - 1].amount, calls[k - 1].now)
    }

    predicate Admits(k: nat)
      requires k < |calls|
    {
      Affordable(State(k), rate, calls[k].amount, calls[k].now)
    }

    /** Bytes admitted by the calls j, j + 1, ..., k - 1. */
    function Admitted(j: nat, k: nat): nat
      requires j <= k <= |calls|
    {
      if j == k then 0
      else Admitted(j, k - 1) + if Admits(k - 1) then calls[k - 1].amount else 0
    }

    /** What is left at call k of the allowance 2 * rate + rate * (now - s) counted from call j at time s. */
    function Slack(j: nat, k: nat): int
      requires j <= k < |calls|
    {
      Cap(rate) + (calls[k].now - calls[j].now) * rate - Admitted(j, k) * NANOS
    }

    /** What is left at call k of the allowance rate * (now - created) counted from the creation. */
    function SlackSinceCreation(k: nat): int
      requires k < |calls|
    {
      (calls[k].now - created) * rate - Admitted(0, k) * NANOS
    }

    lemma SlackStep(j: nat, k: nat)
      requires j < k < |calls|
      ensures Slack(j, k) == Slack(j, k - 1) + (calls[k].now - calls[k - 1].now) * rate
                             - (if Admits(k - 1) then calls[k - 1].amount else 0) * NANOS
    {
      var a, b, c := calls[j].now, calls[k - 1].now, calls[k].now;
      assert (c - a) * rate == (b - a) * rate + (c - b) * rate;
    }

    lemma SlackSinceCreationStep(k: nat)
      requires 0 < k < |calls|
      ensures SlackSinceCreation(k) == SlackSinceCreation(k - 1) + (calls[k].now - calls[k - 1].now) * rate
                                       - (if Admits(k - 1) then calls[k - 1].amount else 0) * NANOS
    {
      var a, b, c := created, calls[k - 1].now, calls[k].now;
      assert (c - a) * rate == (b - a) * rate + (c - b) * rate;
    }

    /** The tokens a call finds are the minimum of all the slacks of the calls up to it. */
    lemma {:induction false} TokensAreLeastSlack(k: nat)
      requires Timely() && k < |calls|
      ensures var have := Available(State(k), rate, calls[k].now);
              && have <= SlackSinceCreation(k)
              && (forall j :: 0 <= j <= k ==> have <= Slack(j, k))
              && (have == SlackSinceCreation(k) || exists j :: 0 <= j <= k && have == Slack(j, k))
    {
      var have := Available(State(k), rate, calls[k].now);
      assert Slack(k, k) == Cap(rate);
      if k == 0 {
        assert have == SlackSinceCreation(0) || have == Slack(0, 0);
      } else {
        TokensAreLeastSlack(k - 1);
        var before := Available(State(k - 1), rate, calls[k - 1].now);
        var paid := (if Admits(k - 1) then calls[k - 1].amount else 0) * NANOS;
        var earned := (calls[k].now - calls[k - 1].now) * rate;
        assert State(k) == Bucket(before - paid, calls[k - 1].now);
        assert have == if before - paid + earned > Cap(rate) then Cap(rate) else before - paid + earned;
        SlackSinceCreationStep(k);
        forall j | 0 <= j <= k ensures have <= Slack(j, k) {
          if j < k { SlackStep(j, k); }
        }
        if have != Slack(k, k) && before != SlackSinceCreation(k - 1) {
          var j :| 0 <= j <= k - 1 && before == Slack(j, k - 1);
          SlackStep(j, k);
          assert have == Slack(j, k);
        }
      }
    }

    /** The allowance counted from call j, after paying for call k as well. */
    predicate Within(j: nat, k: nat)
      requires j <= k < |calls|
    {
      (Admitted(j, k) + calls[k].amount) * NANOS <= Cap(rate) + (calls[k].now - calls[j].now) * rate
    }

    /** The allowance counted from the creation of the bucket, after paying for call k as well. */
    predicate WithinSinceCreation(k: nat)
      requires k < |calls|
    {
      (Admitted(0, k) + calls[k].amount) * NANOS <= (calls[k].now - created) * rate
    }

    lemma WithinIsSlack(j: nat, k: nat)
      requires j <= k < |calls|
      ensures Within(j, k) <==> calls[k].amount * NANOS <= Slack(j, k)
    {
    }

    /** Exact admission: a call is admitted if and only if paying for it breaks none of the allowances. */
    lemma ExactAdmission(k: nat)
      requires Timely() && k < |calls|
      ensures Admits(k) <==> WithinSinceCreation(k) && forall j :: 0 <= j <= k ==> Within(j, k)
    {
      TokensAreLeastSlack(k);
      var have := Available(State(k), rate, calls[k].now);
      forall j | 0 <= j <= k ensures Within(j, k) <==> calls[k].amount * NANOS <= Slack(j, k) {
        WithinIsSlack(j, k);
      }
      if have != SlackSinceCreation(k) {
        var j :| 0 <= j <= k && have == Slack(j, k);
        assert Within(j, k) <==> Admits(k);
      }
    }

    /** Any run of consecutive calls is admitted at most twice the rate plus what accrues over its span. */
    lemma {:induction false} SpanBound(j: nat, k: nat)
      requires Timely() && j <= k < |calls|
      ensures Admitted(j, k + 1) * NANOS <= Cap(rate) + (calls[k].now - calls[j].now) * rate
      decreases k
    {
      if Admits(k) {
        ExactAdmission(k);
        assert Within(j, k);
      } else if j < k {
        SpanBound(j, k - 1);
        MulMono(calls[k - 1].now - calls[j].now, calls[k].now - calls[j].now, rate);
      }
    }

    /** A bucket starts empty, so all it ever admits is what accrues since its creation. */
    lemma {:induction false} CreationBound(k: nat)
      requires Timely() && k < |calls|
      ensures Admitted(0, k + 1) * NANOS <= (calls[k].now - created) * rate
    {
      if Admits(k) {
        ExactAdmission(k);
      } else if k > 0 {
        CreationBound(k - 1);
        MulMono(calls[k - 1].now - created, calls[k].now - created, rate);
      } else {
        MulMono(0, calls[0].now - created, rate);
      }
    }

    /** Bytes admitted by the first k calls that were made between t1 and t2. */
    function AdmittedIn(t1: Instant, t2: Instant, k: nat): nat
      requires k <= |calls|
    {
      if k == 0 then 0
      else AdmittedIn(t1, t2, k - 1) + if t1 <= calls[k - 1].now <= t2 && Admits(k - 1) then calls[k - 1].amount else 0
    }

    lemma {:induction false} NothingBefore(t1: Instant, t2: Instant, k: nat)
      requires k <= |calls| && forall i :: 0 <= i < k ==> calls[i].now < t1
      ensures AdmittedIn(t1, t2, k) == 0
    {
      if k > 0 { NothingBefore(t1, t2, k - 1); }
    }

    lemma {:induction false} WindowIsSpan(t1: Instant, t2: Instant, j: nat, k: nat)
      requires j <= k <= |calls|
      requires forall i :: 0 <= i < j ==> calls[i].now < t1
      requires forall i :: j <= i < k ==> t1 <= calls[i].now <= t2
      ensures AdmittedIn(t1, t2, k) == Admitted(j, k)
      decreases k
    {
      if j == k { NothingBefore(t1, t2, k); } else { WindowIsSpan(t1, t2, j, k - 1); }
    }

    /** Any window admits at most twice the rate plus what accrues over its length. */
    lemma {:induction false} WindowBound(t1: Instant, t2: Instant, k: nat)
      requires Timely() && t1 <= t2 && k <= |calls|
      ensures AdmittedIn(t1, t2, k) * NANOS <= Cap(rate) + (t2 - t1) * rate
    {
      if k > 0 {
        if calls[k - 1].now > t2 {
          WindowBound(t1, t2, k - 1);
        } else {
          var j := 0;
          while j < k && calls[j].now < t1
            invariant j <= k && forall i :: 0 <= i < j ==> calls[i].now < t1
          {
            j := j + 1;
          }
          WindowIsSpan(t1, t2, j, k);
          if j < k {
            SpanBound(j, k - 1);
            MulMono(calls[k - 1].now - calls[j].now, t2 - t1, rate);
          } else {
            MulMono(0, t2 - t1, rate);
          }
        }
      } else {
        MulMono(0, t2 - t1, rate);
      }
    }
  }

  // One table, many addresses

  /** One call of `try_consume` on the shared table. */
  datatype Attempt = Attempt(ip: IpAddr, amount: nat, reading: Reading)

  function TableAfter(rate: nat, trace: seq<Attempt>): Table {
    if trace == [] then map[]
    else
      var a := trace[|trace| - 1];
      Debited(TableAfter(rate, trace[..|trace| - 1]), a.ip, rate, a.amount, a.reading)
  }

  predicate Accepted(rate: nat, trace: seq<Attempt>, i: nat)
    requires i < |trace|
  {
    var a := trace[i];
    Accepts(TableAfter(rate, trace[..i]), a.ip, rate, a.amount, a.reading)
  }

  /** The calls of one address, in order. */
  function CallsOf(ip: IpAddr, trace: seq<Attempt>): seq<Call> {
    if trace == [] then []
    else
      var a := trace[|trace| - 1];
      CallsOf(ip, trace[..|trace| - 1]) + if a.ip == ip then [Call(a.reading.now, a.amount)] else []
  }

  function FirstCreated(ip: IpAddr, trace: seq<Attempt>): Instant {
    if trace == [] then 0
    else if trace[0].ip == ip then trace[0].reading.created
    else FirstCreated(ip, trace[1..])
  }

  function HistoryOf(ip: IpAddr, rate: nat, trace: seq<Attempt>): History {
    History(FirstCreated(ip, trace), rate, CallsOf(ip, trace))
  }

  /** The readings taken for one address never go back. */
  ghost predicate TimelyFor(ip: IpAddr, trace: seq<Attempt>) {
    && (forall i :: 0 <= i < |trace| && trace[i].ip == ip ==> trace[i].reading.created <= trace[i].reading.now)
    && (forall i, j :: 0 <= i <= j < |trace| && trace[i].ip == ip && trace[j].ip == ip ==>
          trace[i].reading.now <= trace[j].reading.now)
  }

  lemma {:induction false} FirstCreatedExtends(ip: IpAddr, trace: seq<Attempt>, a: Attempt)
    ensures CallsOf(ip, trace) != [] ==> FirstCreated(ip, trace + [a]) == FirstCreated(ip, trace)
    ensures CallsOf(ip, trace) == [] && a.ip == ip ==> FirstCreated(ip, trace + [a]) == a.reading.created
    decreases |trace|
  {
    if trace != [] {
      assert (trace + [a])[1..] == trace[1..] + [a];
      FirstCreatedExtends(ip, trace[1..], a);
      CallsOfHead(ip, trace);
    } else {
      assert trace + [a] == [a];
    }
  }

  lemma {:induction false} CallsOfHead(ip: IpAddr, trace: seq<Attempt>)
    requires trace != []
    ensures CallsOf(ip, trace) ==
            (if trace[0].ip == ip then [Call(trace[0].reading.now, trace[0].amount)] else []) + CallsOf(ip, trace[1..])
    decreases |trace|
  {
    if |trace| > 1 {
      var front := trace[..|trace| - 1];
      assert front[1..] == trace[1..][..|trace[1..]| - 1];
      CallsOfHead(ip, front);
    }
  }

  /** Where in the trace the k-th call of an address was made. */
  lemma {:induction false} CallOrigin(ip: IpAddr, trace: seq<Attempt>, k: nat) returns (i: nat)
    requires k < |CallsOf(ip, trace)|
    ensures i < |trace| && trace[i].ip == ip && trace[i].reading.now == CallsOf(ip, trace)[k].now
    decreases |trace|
  {
    var front, a := trace[..|trace| - 1], trace[|trace| - 1];
    if k < |CallsOf(ip, front)| {
      i := CallOrigin(ip, front, k);
    } else {
      i := |trace| - 1;
    }
  }

  lemma {:induction false} CallsOfTimely(ip: IpAddr, rate: nat, trace: seq<Attempt>)
    requires TimelyFor(ip, trace)
    ensures HistoryOf(ip, rate, trace).Timely()
    decreases |trace|
  {
    if trace != [] {
      var front, a := trace[..|trace| - 1], trace[|trace| - 1];
      assert trace == front + [a];
      CallsOfTimely(ip, rate, front);
      FirstCreatedExtends(ip, front, a);
      if a.ip == ip {
        var calls := CallsOf(ip, trace);
        forall i, j | 0 <= i <= j < |calls| ensures calls[i].now <= calls[j].now {
          if j == |calls| - 1 && i < j {
            var m := CallOrigin(ip, front, i);
            assert trace[m] == front[m] && trace[|trace| - 1] == a;
          }
        }
      } else {
        assert CallsOf(ip, trace) == CallsOf(ip, front);
      }
    }
  }

  lemma {:induction false} StateOfPrefix(h: History, more: seq<Call>, k: nat)
    requires k <= |h.calls|
    ensures h.State(k) == History(h.created, h.rate, h.calls + more).State(k)
  {
    if k > 0 { StateOfPrefix(h, more, k - 1); }
  }

  /** Calls for other addresses never touch an address: its bucket is the one its own calls alone produce. */
  lemma {:induction false} OnlyOwnCallsCount(ip: IpAddr, rate: nat, trace: seq<Attempt>)
    ensures var h := HistoryOf(ip, rate, trace);
            && (ip in TableAfter(rate, trace) <==> h.calls != [])
            && (ip in TableAfter(rate, trace) ==> TableAfter(rate, trace)[ip] == h.State(|h.calls|))
    decreases |trace|
  {
    if trace != [] {
      var front, a := trace[..|trace| - 1], trace[|trace| - 1];
      assert trace == front + [a];
      OnlyOwnCallsCount(ip, rate, front);
      FirstCreatedExtends(ip, front, a);
      if a.ip == ip {
        var h := HistoryOf(ip, rate, front);
        if h.calls == [] {
          assert HistoryOf(ip, rate, trace).State(0) == Fresh(a.reading.created);
        } else {
          StateOfPrefix(h, [Call(a.reading.now, a.amount)], |h.calls|);
        }
      } else {
        assert HistoryOf(ip, rate, trace).calls == HistoryOf(ip, rate, front).calls;
      }
    }
  }

  /** The verdict on an attempt is the one its own address's history gives, as if no other address existed. */
  lemma VerdictIsOwnHistory(rate: nat, trace: seq<Attempt>, i: nat)
    requires i < |trace|
    ensures var ip := trace[i].ip;
            var h := HistoryOf(ip, rate, trace[..i + 1]);
            && |h.calls| == |CallsOf(ip, trace[..i])| + 1
            && (Accepted(rate, trace, i) <==> h.Admits(|h.calls| - 1))
  {
    var a := trace[i];
    assert trace[..i + 1][..i] == trace[..i];
    assert trace[..i + 1] == trace[..i] + [a];
    OnlyOwnCallsCount(a.ip, rate, trace[..i]);
    FirstCreatedExtends(a.ip, trace[..i], a);
    var h := HistoryOf(a.ip, rate, trace[..i]);
    StateOfPrefix(HistoryOf(a.ip, rate, trace[..i + 1]).(calls := h.calls), [Call(a.reading.now, a.amount)], |h.calls|);
  }

  /** The last attempt of the trace, made by the address, breaks none of its allowances. */
  ghost predicate WithinAllowances(ip: IpAddr, rate: nat, trace: seq<Attempt>) {
    var h := HistoryOf(ip, rate, trace);
    var k := |h.calls| - 1;
    k >= 0 && h.WithinSinceCreation(k) && forall j :: 0 <= j <= k ==> h.Within(j, k)
  }

  /**
   * Exact admission on the shared table: an attempt is accepted if and only if paying for it breaks
   * none of the allowances of its own address, counted from each of that address's calls so far.
   */
  lemma AcceptedIffWithinAllowances(rate: nat, trace: seq<Attempt>, i: nat)
    requires i < |trace| && TimelyFor(trace[i].ip, trace)
    ensures Accepted(rate, trace, i) <==> WithinAllowances(trace[i].ip, rate, trace[..i + 1])
  {
    var h := HistoryOf(trace[i].ip, rate, trace[..i + 1]);
    VerdictIsOwnHistory(rate, trace, i);
    CallsOfTimely(trace[i].ip, rate, trace[..i + 1]);
    h.ExactAdmission(|h.calls| - 1);
  }

  /** No bucket is ever overdrawn or filled above twice the rate. */
  lemma {:induction false} BucketsWithinCap(rate: nat, trace: seq<Attempt>, ip: IpAddr)
    requires ip in TableAfter(rate, trace)
    ensures 0 <= TableAfter(rate, trace)[ip].tokens <= Cap(rate)
    decreases |trace|
  {
    var front, a := trace[..|trace| - 1], trace[|trace| - 1];
    if ip in TableAfter(rate, front) { BucketsWithinCap(rate, front, ip); }
    if a.ip == ip {
      var b := Entry(TableAfter(rate, front), ip, a.reading.created);
      MulMono(0, ElapsedSince(a.reading.now, b.lastFill), rate);
    }
  }

  /** Bytes debited to an address by the attempts of a trace whose reading lies between t1 and t2. */
  function DebitedIn(ip: IpAddr, rate: nat, trace: seq<Attempt>, t1: Instant, t2: Instant): nat {
    if trace == [] then 0
    else
      var last := |trace| - 1;
      DebitedIn(ip, rate, trace[..last], t1, t2)
      + if trace[last].ip == ip && t1 <= trace[last].reading.now <= t2 && Accepted(rate, trace, last)
        then trace[last].amount else 0
  }

  lemma {:induction false} AdmittedInOfPrefix(h: History, more: seq<Call>, t1: Instant, t2: Instant, k: nat)
    requires k <= |h.calls|
    ensures h.AdmittedIn(t1, t2, k) == History(h.created, h.rate, h.calls + more).AdmittedIn(t1, t2, k)
  {
    if k > 0 {
      AdmittedInOfPrefix(h, more, t1, t2, k - 1);
      StateOfPrefix(h, more, k - 1);
    }
  }

  lemma {:induction false} DebitedInIsOwnHistory(ip: IpAddr, rate: nat, trace: seq<Attempt>, t1: Instant, t2: Instant)
    ensures var h := HistoryOf(ip, rate, trace);
            DebitedIn(ip, rate, trace, t1, t2) == h.AdmittedIn(t1, t2, |h.calls|)
    decreases |trace|
  {
    if trace != [] {
      var last := |trace| - 1;
      var front, a := trace[..last], trace[last];
      assert trace == front + [a];
      DebitedInIsOwnHistory(ip, rate, front, t1, t2);
      FirstCreatedExtends(ip, front, a);
      var h, h' := HistoryOf(ip, rate, front), HistoryOf(ip, rate, trace);
      if a.ip == ip {
        assert trace[..last + 1] == trace;
        VerdictIsOwnHistory(rate, trace, last);
        AdmittedInOfPrefix(h'.(calls := h.calls), [Call(a.reading.now, a.amount)], t1, t2, |h.calls|);
        if h.calls == [] { assert h.AdmittedIn(t1, t2, 0) == 0; }
      } else {
        assert h'.calls == h.calls;
      }
    }
  }

  /**
   * The shared-bucket bound: whatever other addresses do, and however the users of one address
   * are interleaved, a window debits that address at most 2 * rate + rate * (t2 - t1) bytes.
   */
  lemma SharedBucketBound(ip: IpAddr, rate: nat, trace: seq<Attempt>, t1: Instant, t2: Instant)
    requires TimelyFor(ip, trace) && t1 <= t2
    ensures DebitedIn(ip, rate, trace, t1, t2) * NANOS <= Cap(rate) + (t2 - t1) * rate
  {
    var h := HistoryOf(ip, rate, trace);
    CallsOfTimely(ip, rate, trace);
    DebitedInIsOwnHistory(ip, rate, trace, t1, t2);
    h.WindowBound(t1, t2, |h.calls|);
  }

  /** Bytes debited to an address by a whole trace. */
  function DebitedTo(ip: IpAddr, rate: nat, trace: seq<Attempt>): nat {
    if trace == [] then 0
    else
      var last := |trace| - 1;
      DebitedTo(ip, rate, trace[..last])
      + if trace[last].ip == ip && Accepted(rate, trace, last) then trace[last].amount else 0
  }

  lemma {:induction false} DebitedToIsOwnHistory(ip: IpAddr, rate: nat, trace: seq<Attempt>)
    ensures var h := HistoryOf(ip, rate, trace);
            DebitedTo(ip, rate, trace) == h.Admitted(0, |h.calls|)
    decreases |trace|
  {
    if trace != [] {
      var last := |trace| - 1;
      var front, a := trace[..last], trace[last];
      assert trace == front + [a];
      DebitedToIsOwnHistory(ip, rate, front);
      FirstCreatedExtends(ip, front, a);
      var h, h' := HistoryOf(ip, rate, front), HistoryOf(ip, rate, trace);
      if a.ip == ip {
        assert trace[..last + 1] == trace;
        VerdictIsOwnHistory(rate, trace, last);
        AdmittedOfPrefix(h'.(calls := h.calls), [Call(a.reading.now, a.amount)], |h.calls|);
        if h.calls == [] { assert h.Admitted(0, 0) == 0; }
      } else {
        assert h'.calls == h.calls;
      }
    }
  }

  lemma {:induction false} AdmittedOfPrefix(h: History, more: seq<Call>, k: nat)
    requires k <= |h.calls|
    ensures h.Admitted(0, k) == History(h.created, h.rate, h.calls + more).Admitted(0, k)
  {
    if k > 0 {
      AdmittedOfPrefix(h, more, k - 1);
      StateOfPrefix(h, more, k - 1);
    }
  }

  lemma {:induction false} FirstCreatedIsReading(ip: IpAddr, trace: seq<Attempt>) returns (i: nat)
    requires CallsOf(ip, trace) != []
    ensures i < |trace| && trace[i].ip == ip && trace[i].reading.created == FirstCreated(ip, trace)
    decreases |trace|
  {
    CallsOfHead(ip, trace);
    if trace[0].ip == ip {
      i := 0;
    } else {
      i := FirstCreatedIsReading(ip, trace[1..]);
      i := i + 1;
    }
  }

  /** A trace whose readings for an address lie between t1 and t2 debits it at most what accrues in between. */
  lemma WholeTraceBound(ip: IpAddr, rate: nat, trace: seq<Attempt>, t1: Instant, t2: Instant)
    requires TimelyFor(ip, trace) && t1 <= t2
    requires forall i :: 0 <= i < |trace| && trace[i].ip == ip ==>
               t1 <= trace[i].reading.created && trace[i].reading.now <= t2
    ensures DebitedTo(ip, rate, trace) * NANOS <= (t2 - t1) * rate
  {
    var h := HistoryOf(ip, rate, trace);
    CallsOfTimely(ip, rate, trace);
    DebitedToIsOwnHistory(ip, rate, trace);
    if h.calls == [] {
      MulMono(0, t2 - t1, rate);
    } else {
      var first := FirstCreatedIsReading(ip, trace);
      var k := |h.calls| - 1;
      var last := CallOrigin(ip, trace, k);
      h.CreationBound(k);
      MulMono(h.calls[k].now - h.created, t2 - t1, rate);
    }
  }

  /** What a trace debits to an address after its first n attempts was debited in any window that holds them all. */
  lemma {:induction false} DebitedSinceIsInWindow(ip: IpAddr, rate: nat, trace: seq<Attempt>, n: nat, t1: Instant, t2: Instant)
    requires n <= |trace|
    requires forall i :: n <= i < |trace| && trace[i].ip == ip ==> t1 <= trace[i].reading.now <= t2
    ensures DebitedTo(ip, rate, trace) - DebitedTo(ip, rate, trace[..n]) <= DebitedIn(ip, rate, trace, t1, t2)
    decreases |trace|
  {
    if n < |trace| {
      var front := trace[..|trace| - 1];
      assert front[..n] == trace[..n];
      DebitedSinceIsInWindow(ip, rate, front, n, t1, t2);
    } else {
      assert trace[..n] == trace;
    }
  }
}
