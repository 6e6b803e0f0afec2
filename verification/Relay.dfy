/**
 * One direction of the WebSocket relay of src/proxy.rs: read a chunk, wait until the quota of
 * the client's address pays for it, write it, and start over. Everything the outside answers
 * (reads, verdicts of the quota, writes) is a script; a direction whose script has run out is
 * suspended where it stands.
 */
module Relay {
  import opened Prelude
  import opened Bandwidth

  const BUFFER_SIZE := 8192

  type Chunk = c: seq<Byte> | |c| <= BUFFER_SIZE

  datatype ReadAnswer = Bytes(chunk: Chunk) | ReadFailed | IdleTimeout

  /** A failed write may have sent some of the chunk. */
  datatype WriteAnswer = Written | WriteFailed(sent: nat)

  datatype Phase = AwaitingData | AwaitingQuota(chunk: Chunk) | AwaitingWrite(chunk: Chunk) | Closed

  function Sent(chunk: Chunk, answer: WriteAnswer): seq<Byte> {
    if answer.WriteFailed? && answer.sent < |chunk| then chunk[..answer.sent] else chunk
  }

  datatype Direction = Direction(maxBw: nat, phase: Phase, read: seq<Byte>, written: seq<Byte>, debited: nat) {

    function OnRead(a: ReadAnswer): Direction {
      if !phase.AwaitingData? then this
      else if a.Bytes? && a.chunk != [] then
        this.(phase := if maxBw > 0 then AwaitingQuota(a.chunk) else AwaitingWrite(a.chunk), read := read + a.chunk)
      else this.(phase := Closed)
    }

    function OnVerdict(ok: bool): Direction {
      if phase.AwaitingQuota? && ok then this.(phase := AwaitingWrite(phase.chunk), debited := debited + |phase.chunk|)
      else this
    }

    function OnWrite(a: WriteAnswer): Direction {
      if !phase.AwaitingWrite? then this
      else this.(phase := if a.Written? then AwaitingData else Closed, written := written + Sent(phase.chunk, a))
    }

    /** The direction driven by its scripts for as long as they have the answer it waits for. */
    function Run(arrivals: seq<ReadAnswer>, verdicts: seq<bool>, writes: seq<WriteAnswer>): Direction
      decreases |arrivals| + |verdicts| + |writes|
    {
      match phase
      case AwaitingData => if arrivals == [] then this else OnRead(arrivals[0]).Run(arrivals[1..], verdicts, writes)
      case AwaitingQuota(_) => if verdicts == [] then this else OnVerdict(verdicts[0]).Run(arrivals, verdicts[1..], writes)
      case AwaitingWrite(_) => if writes == [] then this else OnWrite(writes[0]).Run(arrivals, verdicts, writes[1..])
      case Closed => this
    }

    /** How the bytes read, debited and written stand to each other in every phase. */
    ghost predicate InStep() {
      && (match phase
          case AwaitingData => read == written
          case AwaitingQuota(c) => maxBw > 0 && read == written + c
          case AwaitingWrite(c) => read == written + c
          case Closed => written <= read && |read| - |written| <= BUFFER_SIZE)
      && debited == (if maxBw == 0 then 0 else if phase.AwaitingQuota? then |written| else |read|)
    }

    /** What a user of the relay sees of InStep. */
    ghost predicate Faithful() {
      && written <= read
      && |read| <= |written| + BUFFER_SIZE
      && (maxBw > 0 ==> |written| <= debited <= |read|)
    }

    lemma StepsStayInStep(r: ReadAnswer, ok: bool, w: WriteAnswer)
      requires InStep()
      ensures OnRead(r).InStep() && OnVerdict(ok).InStep() && OnWrite(w).InStep()
    {
      if phase.AwaitingWrite? {
        var c, sent := phase.chunk, Sent(phase.chunk, w);
        assert c == sent + c[|sent|..];
        assert read == (written + sent) + c[|sent|..];
      }
    }

    lemma {:induction false} RunStaysInStep(arrivals: seq<ReadAnswer>, verdicts: seq<bool>, writes: seq<WriteAnswer>)
      requires InStep()
      ensures Run(arrivals, verdicts, writes).InStep()
      ensures Run(arrivals, verdicts, writes).maxBw == maxBw
      decreases |arrivals| + |verdicts| + |writes|
    {
      StepsStayInStep(if arrivals == [] then ReadFailed else arrivals[0], verdicts != [] && verdicts[0],
                      if writes == [] then Written else writes[0]);
      match phase
      case AwaitingData => if arrivals != [] { OnRead(arrivals[0]).RunStaysInStep(arrivals[1..], verdicts, writes); }
      case AwaitingQuota(_) => if verdicts != [] { OnVerdict(verdicts[0]).RunStaysInStep(arrivals, verdicts[1..], writes); }
      case AwaitingWrite(_) => if writes != [] { OnWrite(writes[0]).RunStaysInStep(arrivals, verdicts, writes[1..]); }
      case Closed =>
    }

    lemma InStepIsFaithful()
      requires InStep()
      ensures Faithful()
    {
      if phase.AwaitingQuota? || phase.AwaitingWrite? { assert read == written + phase.chunk; }
    }
  }

  function Opened(maxBw: nat): Direction {
    Direction(maxBw, AwaitingData, [], [], 0)
  }

  // Exactly what is relayed

  /** A read that brings data: not the end of the stream, not a failure, not the idle timeout. */
  predicate BringsData(a: ReadAnswer) {
    a.Bytes? && |a.chunk| > 0
  }

  /** How many reads bring data before one that does not. */
  function GoodReads(arrivals: seq<ReadAnswer>): (n: nat)
    ensures n <= |arrivals|
  {
    if arrivals == [] || !BringsData(arrivals[0]) then 0 else GoodReads(arrivals[1..]) + 1
  }

  /** How many writes succeed before one that fails. */
  function GoodWrites(writes: seq<WriteAnswer>): (n: nat)
    ensures n <= |writes|
  {
    if writes == [] || writes[0].WriteFailed? then 0 else GoodWrites(writes[1..]) + 1
  }

  /** How often the quota says yes. */
  function Yeses(verdicts: seq<bool>): nat {
    if verdicts == [] then 0 else Yeses(verdicts[1..]) + if verdicts[0] then 1 else 0
  }

  /** How many chunks can be paid for; without a quota, all of them. */
  function Payable(maxBw: nat, arrivals: seq<ReadAnswer>, verdicts: seq<bool>): nat {
    if maxBw > 0 then Yeses(verdicts) else |arrivals|
  }

  function Least(a: nat, b: nat, c: nat): nat {
    if a <= b && a <= c then a else if b <= c then b else c
  }

  /** How many chunks go through whole. */
  function Relayed(maxBw: nat, arrivals: seq<ReadAnswer>, verdicts: seq<bool>, writes: seq<WriteAnswer>): (k: nat)
    ensures k <= GoodReads(arrivals) && k <= GoodWrites(writes)
  {
    Least(GoodReads(arrivals), GoodWrites(writes), Payable(maxBw, arrivals, verdicts))
  }

  /** The chunk behind those is read and paid for, and its write fails. */
  predicate Breaks(maxBw: nat, arrivals: seq<ReadAnswer>, verdicts: seq<bool>, writes: seq<WriteAnswer>) {
    var k := Relayed(maxBw, arrivals, verdicts, writes);
    k < GoodReads(arrivals) && k < Payable(maxBw, arrivals, verdicts) && k < |writes|
  }

  /** The data of the first k reads, in order. */
  function Joined(arrivals: seq<ReadAnswer>, k: nat): seq<Byte>
    requires k <= |arrivals|
  {
    if k == 0 then [] else Joined(arrivals, k - 1) + DataOf(arrivals[k - 1])
  }

  function DataOf(a: ReadAnswer): seq<Byte> {
    if a.Bytes? then a.chunk else []
  }

  /** All that is written: the chunks that go through whole, and what a failing write has sent of the next. */
  function Output(maxBw: nat, arrivals: seq<ReadAnswer>, verdicts: seq<bool>, writes: seq<WriteAnswer>): seq<Byte> {
    var k := Relayed(maxBw, arrivals, verdicts, writes);
    Joined(arrivals, k)
    + if !Breaks(maxBw, arrivals, verdicts, writes) then []
      else if writes[k].WriteFailed? && writes[k].sent < |DataOf(arrivals[k])| then DataOf(arrivals[k])[..writes[k].sent]
      else DataOf(arrivals[k])
  }

  /** The direction is over: a write has failed, or all that went before the first read without data went through. */
  predicate Over(maxBw: nat, arrivals: seq<ReadAnswer>, verdicts: seq<bool>, writes: seq<WriteAnswer>) {
    || Breaks(maxBw, arrivals, verdicts, writes)
    || Relayed(maxBw, arrivals, verdicts, writes) == GoodReads(arrivals) < |arrivals|
  }

  lemma {:induction false} JoinedHead(arrivals: seq<ReadAnswer>, k: nat)
    requires 0 < k <= |arrivals|
    ensures Joined(arrivals, k) == DataOf(arrivals[0]) + Joined(arrivals[1..], k - 1)
  {
    if k > 1 { JoinedHead(arrivals, k - 1); }
  }

  /** Waiting for the quota uses verdicts up to the first yes. */
  lemma {:induction false} QuotaWait(d: Direction, arrivals: seq<ReadAnswer>, verdicts: seq<bool>, writes: seq<WriteAnswer>) returns (rest: seq<bool>)
    requires d.phase.AwaitingQuota?
    ensures if Yeses(verdicts) == 0 then d.Run(arrivals, verdicts, writes) == d
            else Yeses(rest) == Yeses(verdicts) - 1
                 && d.Run(arrivals, verdicts, writes) == d.OnVerdict(true).Run(arrivals, rest, writes)
    decreases |verdicts|
  {
    rest := [];
    if verdicts != [] {
      if verdicts[0] { rest := verdicts[1..]; } else { rest := QuotaWait(d, arrivals, verdicts[1..], writes); }
    }
  }

  /** The first chunk is paid for, and its write succeeds: everything shifts by one. */
  lemma ShiftByOne(maxBw: nat, a: seq<ReadAnswer>, v: seq<bool>, rest: seq<bool>, w: seq<WriteAnswer>)
    requires a != [] && BringsData(a[0]) && w != [] && w[0].Written?
    requires if maxBw > 0 then Yeses(v) == Yeses(rest) + 1 else true
    ensures Output(maxBw, a, v, w) == a[0].chunk + Output(maxBw, a[1..], rest, w[1..])
    ensures Over(maxBw, a, v, w) == Over(maxBw, a[1..], rest, w[1..])
  {
    var k := Relayed(maxBw, a, v, w);
    assert k == Relayed(maxBw, a[1..], rest, w[1..]) + 1;
    JoinedHead(a, k);
  }

  lemma {:induction false} RelayIsExact(d: Direction, arrivals: seq<ReadAnswer>, verdicts: seq<bool>, writes: seq<WriteAnswer>)
    requires d.phase.AwaitingData?
    ensures var end := d.Run(arrivals, verdicts, writes);
            && end.written == d.written + Output(d.maxBw, arrivals, verdicts, writes)
            && (end.phase.Closed? <==> Over(d.maxBw, arrivals, verdicts, writes))
    decreases |arrivals|
  {
    if arrivals == [] || !BringsData(arrivals[0]) {
      assert d.written + [] == d.written;
    } else {
      PaidChunkIsExact(d.OnRead(arrivals[0]), arrivals, verdicts, writes);
    }
  }

  lemma {:induction false} PaidChunkIsExact(d: Direction, arrivals: seq<ReadAnswer>, verdicts: seq<bool>, writes: seq<WriteAnswer>)
    requires arrivals != [] && BringsData(arrivals[0])
    requires d.phase == if d.maxBw > 0 then AwaitingQuota(arrivals[0].chunk) else AwaitingWrite(arrivals[0].chunk)
    ensures var end := d.Run(arrivals[1..], verdicts, writes);
            && end.written == d.written + Output(d.maxBw, arrivals, verdicts, writes)
            && (end.phase.Closed? <==> Over(d.maxBw, arrivals, verdicts, writes))
    decreases |arrivals|, 0
  {
    var rest, paid := verdicts, d;
    if d.maxBw > 0 {
      rest := QuotaWait(d, arrivals[1..], verdicts, writes);
      paid := d.OnVerdict(true);
    }
    if Payable(d.maxBw, arrivals, verdicts) == 0 || writes == [] {
      NothingYet(d.maxBw, arrivals, verdicts, writes);
      assert d.written + [] == d.written;
    } else if writes[0].Written? {
      RelayIsExact(paid.OnWrite(writes[0]), arrivals[1..], rest, writes[1..]);
      ShiftByOne(d.maxBw, arrivals, verdicts, rest, writes);
    } else {
      BreaksAtOnce(d.maxBw, arrivals, verdicts, writes);
    }
  }

  lemma NothingYet(maxBw: nat, a: seq<ReadAnswer>, v: seq<bool>, w: seq<WriteAnswer>)
    requires a != [] && BringsData(a[0]) && (Payable(maxBw, a, v) == 0 || w == [])
    ensures Output(maxBw, a, v, w) == [] && !Over(maxBw, a, v, w)
  {
  }

  lemma BreaksAtOnce(maxBw: nat, a: seq<ReadAnswer>, v: seq<bool>, w: seq<WriteAnswer>)
    requires a != [] && BringsData(a[0]) && Payable(maxBw, a, v) > 0 && w != [] && w[0].WriteFailed?
    ensures Output(maxBw, a, v, w) == Sent(a[0].chunk, w[0]) && Over(maxBw, a, v, w)
  {
  }

  /** If every read brings data and every chunk can be paid for and written, all data goes through, in order. */
  lemma AllGoesThrough(maxBw: nat, arrivals: seq<ReadAnswer>, verdicts: seq<bool>, writes: seq<WriteAnswer>)
    requires forall i :: 0 <= i < |arrivals| ==> arrivals[i].Bytes? && |arrivals[i].chunk| > 0
    requires |writes| >= |arrivals| && forall i :: 0 <= i < |arrivals| ==> writes[i] == Written
    requires maxBw > 0 ==> Yeses(verdicts) >= |arrivals|
    ensures Output(maxBw, arrivals, verdicts, writes) == Joined(arrivals, |arrivals|)
    ensures !Over(maxBw, arrivals, verdicts, writes)
  {
    AllGood(arrivals, writes);
  }

  lemma {:induction false} AllGood(arrivals: seq<ReadAnswer>, writes: seq<WriteAnswer>)
    requires forall i :: 0 <= i < |arrivals| ==> arrivals[i].Bytes? && |arrivals[i].chunk| > 0
    requires |writes| >= |arrivals| && forall i :: 0 <= i < |arrivals| ==> writes[i] == Written
    ensures GoodReads(arrivals) == |arrivals| <= GoodWrites(writes)
    decreases |arrivals|
  {
    if arrivals != [] { AllGood(arrivals[1..], writes[1..]); }
  }

  /** The relay loop itself. */
  method PumpChunks(maxBw: nat, arrivals: seq<ReadAnswer>, verdicts: seq<bool>, writes: seq<WriteAnswer>)
    returns (read: seq<Byte>, written: seq<Byte>, debited: nat, over: bool)
    ensures var end := Opened(maxBw).Run(arrivals, verdicts, writes);
            read == end.read && written == end.written && debited == end.debited && over == end.phase.Closed?
  {
    ghost var end := Opened(maxBw).Run(arrivals, verdicts, writes);
    read, written, debited, over := [], [], 0, false;
    var i, v, w := 0, 0, 0;
    while i < |arrivals| && arrivals[i].Bytes? && arrivals[i].chunk != []
      invariant 0 <= i <= |arrivals| && 0 <= v <= |verdicts| && 0 <= w <= |writes| && !over
      invariant Direction(maxBw, AwaitingData, read, written, debited).Run(arrivals[i..], verdicts[v..], writes[w..]) == end
    {
      var buf := arrivals[i].chunk;
      i := i + 1;
      read := read + buf;
      if maxBw > 0 {
        while v < |verdicts| && !verdicts[v]
          invariant 0 <= v <= |verdicts|
          invariant Direction(maxBw, AwaitingQuota(buf), read, written, debited).Run(arrivals[i..], verdicts[v..], writes[w..]) == end
        {
          v := v + 1;
        }
        if v == |verdicts| {
          return;
        }
        v := v + 1;
        debited := debited + |buf|;
      }
      assert Direction(maxBw, AwaitingWrite(buf), read, written, debited).Run(arrivals[i..], verdicts[v..], writes[w..]) == end;
      if w == |writes| {
        return;
      }
      var answer := writes[w];
      w := w + 1;
      written := written + Sent(buf, answer);
      if answer.WriteFailed? {
        assert Direction(maxBw, Closed, read, written, debited).Run(arrivals[i..], verdicts[v..], writes[w..]) == end;
        over := true;
        return;
      }
    }
    over := i < |arrivals|;
  }

  /** One direction from its opening, as far as its scripts go. */
  method Pump(maxBw: nat, arrivals: seq<ReadAnswer>, verdicts: seq<bool>, writes: seq<WriteAnswer>)
    returns (read: seq<Byte>, written: seq<Byte>, debited: nat, over: bool)
    ensures written == Output(maxBw, arrivals, verdicts, writes)
    ensures over <==> Over(maxBw, arrivals, verdicts, writes)
    ensures written <= read && |read| <= |written| + BUFFER_SIZE
    ensures maxBw > 0 ==> |written| <= debited <= |read|
  {
    Opened(maxBw).RunStaysInStep(arrivals, verdicts, writes);
    Opened(maxBw).Run(arrivals, verdicts, writes).InStepIsFaithful();
    RelayIsExact(Opened(maxBw), arrivals, verdicts, writes);
    read, written, debited, over := PumpChunks(maxBw, arrivals, verdicts, writes);
  }

  // How long a direction waits when nobody else uses its bucket

  const RETRY_NANOS := 5_000_000

  /** The bucket after the first k attempts to pay for n bytes. */
  function Tried(b: Bucket, rate: nat, n: nat, times: seq<Instant>, k: nat): Bucket
    requires k <= |times|
  {
    if k == 0 then b else AfterCall(Tried(b, rate, n, times, k - 1), rate, n, times[k - 1])
  }

  predicate Pays(b: Bucket, rate: nat, n: nat, times: seq<Instant>, k: nat)
    requires k < |times|
  {
    Affordable(Tried(b, rate, n, times, k), rate, n, times[k])
  }

  /** The loop sleeps five milliseconds after every refusal. */
  ghost predicate Spaced(times: seq<Instant>) {
    forall i :: 0 <= i < |times| - 1 ==> times[i] + RETRY_NANOS <= times[i + 1]
  }

  lemma {:induction false} RefusalsSaveUp(b: Bucket, rate: nat, n: nat, times: seq<Instant>, k: nat)
    requires b.tokens >= 0 && Spaced(times) && k < |times|
    requires forall i :: 0 <= i < k ==> !Pays(b, rate, n, times, i)
    ensures var have := Available(Tried(b, rate, n, times, k), rate, times[k]);
            have >= k * (RETRY_NANOS * rate) || have == Cap(rate)
  {
    if k > 0 {
      RefusalsSaveUp(b, rate, n, times, k - 1);
      assert !Pays(b, rate, n, times, k - 1);
      assert times[k - 1] + RETRY_NANOS <= times[k];
      MulMono(RETRY_NANOS, times[k] - times[k - 1], rate);
      assert k * (RETRY_NANOS * rate) == (k - 1) * (RETRY_NANOS * rate) + RETRY_NANOS * rate;
    } else {
      MulMono(0, ElapsedSince(times[0], b.lastFill), rate);
    }
  }

  /** A chunk above twice the rate is never paid for, however long the direction waits. */
  lemma TooLargeNeverPays(b: Bucket, rate: nat, n: nat, times: seq<Instant>, k: nat)
    requires n > 2 * rate && k < |times|
    ensures !Pays(b, rate, n, times, k)
  {
  }

  /** The refusals a sole user can see: 200 * n / rate, rounded up. */
  function MostRefusals(rate: nat, n: nat): (m: nat)
    requires rate > 0
    ensures (m - 1) * rate < 200 * n <= m * rate
  {
    (200 * n + rate - 1) / rate
  }

  lemma SavingsSuffice(m: nat, rate: nat, n: nat, have: int)
    requires n <= 2 * rate && 200 * n <= m * rate
    requires have >= m * (RETRY_NANOS * rate) || have == Cap(rate)
    ensures have >= n * NANOS
  {
    var earned := m * rate;
    assert m * (RETRY_NANOS * rate) == RETRY_NANOS * earned;
  }

  lemma SoleUserIsPaid(b: Bucket, rate: nat, n: nat, times: seq<Instant>)
    requires rate > 0 && n <= 2 * rate && b.tokens >= 0 && Spaced(times)
    requires |times| > MostRefusals(rate, n)
    ensures exists k :: 0 <= k <= MostRefusals(rate, n) && Pays(b, rate, n, times, k)
  {
    var m := MostRefusals(rate, n);
    if forall i :: 0 <= i < m ==> !Pays(b, rate, n, times, i) {
      RefusalsSaveUp(b, rate, n, times, m);
      SavingsSuffice(m, rate, n, Available(Tried(b, rate, n, times, m), rate, times[m]));
      assert Pays(b, rate, n, times, m);
    }
  }

  /** The wait of a sole user is certain to end if and only if the chunk is at most twice the rate. */
  lemma WaitEndsIff(rate: nat, n: nat)
    requires rate > 0
    ensures n <= 2 * rate <==>
            forall b: Bucket, times: seq<Instant> ::
              b.tokens >= 0 && Spaced(times) && |times| > MostRefusals(rate, n) ==>
                exists k :: 0 <= k < |times| && Pays(b, rate, n, times, k)
  {
    if n <= 2 * rate {
      forall b: Bucket, times: seq<Instant> | b.tokens >= 0 && Spaced(times) && |times| > MostRefusals(rate, n)
        ensures exists k :: 0 <= k < |times| && Pays(b, rate, n, times, k)
      {
        SoleUserIsPaid(b, rate, n, times);
      }
    } else {
      var times := seq(MostRefusals(rate, n) + 1, i => i * RETRY_NANOS);
      assert Spaced(times);
      forall k | 0 <= k < |times| ensures !Pays(Fresh(0), rate, n, times, k) {
        TooLargeNeverPays(Fresh(0), rate, n, times, k);
      }
      assert Fresh(0).tokens >= 0;
    }
  }
}
