/**
 * The response body wrapper of src/bandwidth.rs. The wrapped body is a script of the answers it
 * will give; once the script is used up it keeps answering Pending. A frame that the quota
 * refuses on arrival is dropped: only its size is remembered, and paid for on a later poll.
 */
module Throttle {
  import opened Prelude
  import opened Bandwidth

  datatype Frame = Data(payload: seq<Byte>) | Trailers(fields: seq<(string, string)>) {
    function Size(): nat {
      if Data? then |payload| else 0
    }
  }

  datatype Answer = Pending | End | Failed | Ready(frame: Frame)

  datatype Body = Body(inner: seq<Answer>, rate: nat, pending: nat) {

    function Next(): Answer {
      if inner == [] then Pending else inner[0]
    }

    function AfterNext(): Body {
      if inner == [] then this else this.(inner := inner[1..])
    }

    /** A poll first tries to pay for an earlier refused frame. */
    predicate Owes() {
      rate > 0 && pending > 0
    }

    /** The first half of a poll lets it go on. */
    predicate Clear(paid: bool) {
      Owes() ==> paid
    }

    /** The body after the first half of a poll, given the quota's verdict on the debt. */
    function AfterDebt(paid: bool): Body {
      if Owes() && paid then this.(pending := 0) else this
    }

    /** The second half of a poll meets a data frame, whose size it then tries to pay for. */
    predicate MeetsData() {
      rate > 0 && Next().Ready? && Next().frame.Data?
    }

    /** The second half of a poll, given the quota's verdict on the arriving frame. */
    function Arrival(fits: bool): (Body, Answer) {
      if MeetsData() && !fits then (AfterNext().(pending := |Next().frame.payload|), Pending)
      else (AfterNext(), Next())
    }

    function Poll(paid: bool, fits: bool): (Body, Answer) {
      if Clear(paid) then AfterDebt(paid).Arrival(fits) else (this, Pending)
    }

    predicate Paid(t: Table, ip: IpAddr, r: Reading) {
      Owes() && Accepts(t, ip, rate, pending, r)
    }

    /** The shared table after the first half of a poll. */
    function DebtTable(t: Table, ip: IpAddr, r: Reading): Table {
      if Owes() then Debited(t, ip, rate, pending, r) else t
    }

    predicate Fits(t: Table, ip: IpAddr, r: Reading) {
      MeetsData() && Accepts(t, ip, rate, |Next().frame.payload|, r)
    }

    /** The shared table after the second half of a poll. */
    function ArrivalTable(t: Table, ip: IpAddr, r: Reading): Table {
      if MeetsData() then Debited(t, ip, rate, |Next().frame.payload|, r) else t
    }

    /** A whole poll on the shared table, without interference between its halves. */
    function PollOn(t: Table, ip: IpAddr, r1: Reading, r2: Reading): (Body, Table, Answer) {
      var paid, t' := Paid(t, ip, r1), DebtTable(t, ip, r1);
      var b := AfterDebt(paid);
      var (next, answer) := Poll(paid, b.Fits(t', ip, r2));
      (next, if Clear(paid) then b.ArrivalTable(t', ip, r2) else t', answer)
    }
  }

  class ThrottledBody {
    var inner: seq<Answer>
    const limiter: BandwidthLimiter
    const ip: IpAddr
    const rate: nat
    var pendingAmount: nat

    ghost function View(): Body
      reads this
    {
      Body(inner, rate, pendingAmount)
    }

    constructor (inner: seq<Answer>, limiter: BandwidthLimiter, ip: IpAddr, rate: nat)
      ensures View() == Body(inner, rate, 0)
      ensures this.limiter == limiter && this.ip == ip
    {
      this.inner := inner;
      this.limiter := limiter;
      this.ip := ip;
      this.rate := rate;
      pendingAmount := 0;
    }

    method PollInner() returns (answer: Answer)
      modifies this`inner
      ensures answer == old(View()).Next()
      ensures View() == old(View()).AfterNext()
    {
      if inner == [] {
        answer := Pending;
      } else {
        answer := inner[0];
        inner := inner[1..];
      }
    }

    /** The first half of a poll: settle what an earlier refused frame still owes. */
    method PayDebt(r: Reading) returns (clear: bool)
      requires limiter.Valid()
      modifies this`pendingAmount, limiter, limiter.buckets.Values
      ensures limiter.Valid() && fresh(limiter.buckets.Values - old(limiter.buckets.Values))
      ensures var b, t := old(View()), old(limiter.View());
              && clear == b.Clear(b.Paid(t, ip, r))
              && View() == b.AfterDebt(b.Paid(t, ip, r))
              && limiter.View() == b.DebtTable(t, ip, r)
    {
      clear := true;
      if rate > 0 && pendingAmount > 0 {
        clear := limiter.TryConsume(ip, rate, pendingAmount, r);
        if clear {
          pendingAmount := 0;
        }
      }
    }

    /** The second half of a poll: take the next frame and ask the quota for it. */
    method Receive(r: Reading) returns (answer: Answer)
      requires limiter.Valid() && rate > 0
      modifies this, limiter, limiter.buckets.Values
      ensures limiter.Valid() && fresh(limiter.buckets.Values - old(limiter.buckets.Values))
      ensures var b, t := old(View()), old(limiter.View());
              && (View(), answer) == b.Arrival(b.Fits(t, ip, r))
              && limiter.View() == b.ArrivalTable(t, ip, r)
    {
      ghost var b, t := View(), limiter.View();
      answer := PollInner();
      assert View() == b.AfterNext() && limiter.View() == t;
      if answer.Ready? && answer.frame.Data? {
        var amount := |answer.frame.payload|;
        var fits := limiter.TryConsume(ip, rate, amount, r);
        if !fits {
          pendingAmount := amount;
          answer := Pending;
        }
      }
    }

    /** A poll between whose halves no other user of the quota gets at the bucket. */
    method PollFrame(r1: Reading, r2: Reading) returns (answer: Answer)
      requires limiter.Valid()
      modifies this, limiter, limiter.buckets.Values
      ensures limiter.Valid() && fresh(limiter.buckets.Values - old(limiter.buckets.Values))
      ensures (View(), limiter.View(), answer) == old(View()).PollOn(old(limiter.View()), ip, r1, r2)
    {
      if rate == 0 {
        answer := PollInner();
        return;
      }
      var clear := PayDebt(r1);
      if clear {
        answer := Receive(r2);
      } else {
        answer := Pending;
      }
    }
  }

  // Accounting over whole runs

  /**
   * What the polls of a body have shown so far. A poll has two sections, and others may use the
   * quota between them: the first settles the debt, the second, while `receiving`, takes a frame.
   * `refused` holds the quota's verdict on each frame taken, `delivered` what the polls returned.
   */
  datatype Run = Run(body: Body, receiving: bool, taken: seq<Frame>, refused: seq<bool>, delivered: seq<Frame>, debited: nat) {

    /** The next section takes a frame from the wrapped body. */
    predicate Takes() {
      receiving && body.Next().Ready?
    }

    /** The next section asks the quota for a frame that has just arrived. */
    predicate AsksForFrame() {
      receiving && body.MeetsData()
    }

    /** The next section asks the quota for something, and for how much. */
    predicate Asks() {
      if receiving then body.MeetsData() else body.Owes()
    }

    function Amount(): nat {
      if !receiving then body.pending else if body.MeetsData() then |body.Next().frame.payload| else 0
    }

    /** The next section, given the quota's verdict if it asks for one. */
    function Observe(verdict: bool): Run {
      var paid := debited + if Asks() && verdict then Amount() else 0;
      if receiving then
        var (next, answer) := body.Arrival(verdict);
        Run(next, false,
            taken + (if Takes() then [body.Next().frame] else []),
            refused + (if Takes() then [AsksForFrame() && !verdict] else []),
            delivered + (if answer.Ready? then [answer.frame] else []),
            paid)
      else
        Run(body.AfterDebt(verdict), body.Clear(verdict), taken, refused, delivered, paid)
    }
  }

  /** A fresh body polled with the given verdicts, which any mix of other users of the quota may bring about. */
  function Polls(inner: seq<Answer>, rate: nat, verdicts: seq<bool>): Run {
    if verdicts == [] then Run(Body(inner, rate, 0), false, [], [], [], 0)
    else Polls(inner, rate, verdicts[..|verdicts| - 1]).Observe(verdicts[|verdicts| - 1])
  }

  // What the polls answer

  /** The answers of the sections of a run that take from the wrapped body, in order. */
  function Answers(inner: seq<Answer>, rate: nat, verdicts: seq<bool>): seq<Answer> {
    if verdicts == [] then []
    else
      var last := |verdicts| - 1;
      var at := Polls(inner, rate, verdicts[..last]);
      Answers(inner, rate, verdicts[..last]) + if at.receiving then [at.body.Arrival(verdicts[last]).1] else []
  }

  /** The verdicts of those sections. */
  function ArrivalVerdicts(inner: seq<Answer>, rate: nat, verdicts: seq<bool>): seq<bool> {
    if verdicts == [] then []
    else
      var last := |verdicts| - 1;
      ArrivalVerdicts(inner, rate, verdicts[..last])
      + if Polls(inner, rate, verdicts[..last]).receiving then [verdicts[last]] else []
  }

  /** The i-th answer that the wrapped body gives: its script, and Pending from then on. */
  function Given(inner: seq<Answer>, i: nat): Answer {
    if i < |inner| then inner[i] else Pending
  }

  /** The i-th answer that is passed on, given the quota's verdict on it: a data frame that is refused becomes Pending. */
  function PassedOn(inner: seq<Answer>, rate: nat, i: nat, yes: bool): Answer {
    match Given(inner, i)
    case Ready(Data(_)) => if rate > 0 && !yes then Pending else Given(inner, i)
    case _ => Given(inner, i)
  }

  /** How much of the script the answers so far have used. */
  ghost predicate UsedUp(inner: seq<Answer>, rate: nat, b: Body, n: nat) {
    b.rate == rate && b.inner == if n <= |inner| then inner[n..] else []
  }

  lemma NextIsGiven(inner: seq<Answer>, rate: nat, b: Body, n: nat)
    requires UsedUp(inner, rate, b, n)
    ensures b.Next() == Given(inner, n) && UsedUp(inner, rate, b.AfterNext(), n + 1)
  {
    assert n < |inner| ==> b.inner[1..] == inner[n + 1..];
  }

  lemma ArrivalIsPassedOn(inner: seq<Answer>, rate: nat, b: Body, n: nat, verdict: bool)
    requires UsedUp(inner, rate, b, n)
    ensures b.Arrival(verdict).1 == PassedOn(inner, rate, n, verdict)
    ensures UsedUp(inner, rate, b.Arrival(verdict).0, n + 1)
  {
    NextIsGiven(inner, rate, b, n);
  }

  /** The answers are those of the script, one by one, as the verdicts pass them on. */
  ghost predicate AllPassedOn(inner: seq<Answer>, rate: nat, answers: seq<Answer>, asked: seq<bool>) {
    |answers| == |asked| && forall i :: 0 <= i < |answers| ==> answers[i] == PassedOn(inner, rate, i, asked[i])
  }

  lemma OneMorePassedOn(inner: seq<Answer>, rate: nat, answers: seq<Answer>, asked: seq<bool>, verdict: bool)
    requires AllPassedOn(inner, rate, answers, asked)
    ensures AllPassedOn(inner, rate, answers + [PassedOn(inner, rate, |answers|, verdict)], asked + [verdict])
  {
  }

  /**
   * Over every run, at every rate, the answers passed on are those of the wrapped body, one by one and
   * unchanged (frames, the end, a failure, Pending), except that Pending stands for each data frame
   * that the quota refused.
   */
  lemma {:induction false} AnswersFollowScript(inner: seq<Answer>, rate: nat, verdicts: seq<bool>)
    ensures AllPassedOn(inner, rate, Answers(inner, rate, verdicts), ArrivalVerdicts(inner, rate, verdicts))
    ensures UsedUp(inner, rate, Polls(inner, rate, verdicts).body, |Answers(inner, rate, verdicts)|)
    decreases |verdicts|
  {
    if verdicts != [] {
      var last := |verdicts| - 1;
      var front := verdicts[..last];
      AnswersFollowScript(inner, rate, front);
      var at, answers := Polls(inner, rate, front), Answers(inner, rate, front);
      if at.receiving {
        ArrivalIsPassedOn(inner, rate, at.body, |answers|, verdicts[last]);
        OneMorePassedOn(inner, rate, answers, ArrivalVerdicts(inner, rate, front), verdicts[last]);
      } else {
        assert Answers(inner, rate, verdicts) == answers;
        assert ArrivalVerdicts(inner, rate, verdicts) == ArrivalVerdicts(inner, rate, front);
      }
    }
  }

  /**
   * A poll is its sections one after the other: while the debt is refused it answers Pending and
   * changes nothing, and otherwise it answers what its second section does.
   */
  lemma PollIsTwoSections(run: Run, paid: bool, fits: bool)
    requires !run.receiving
    ensures var owes := run.body.rate > 0 && run.body.pending > 0;
            run.Observe(paid).receiving <==> (owes ==> paid)
    ensures run.body.Poll(paid, fits) ==
            if run.Observe(paid).receiving
            then (run.Observe(paid).Observe(fits).body, run.Observe(paid).body.Arrival(fits).1)
            else (run.body, Pending)
  {
  }

  /** Polls of a body on the shared table, one after the other: the body, the table and the answers. */
  function PolledOn(b: Body, t: Table, ip: IpAddr, readings: seq<(Reading, Reading)>): (Body, Table, seq<Answer>)
    decreases |readings|
  {
    if readings == [] then (b, t, [])
    else
      var (next, table, answer) := b.PollOn(t, ip, readings[0].0, readings[0].1);
      var (end, last, answers) := PolledOn(next, table, ip, readings[1..]);
      (end, last, [answer] + answers)
  }

  lemma RateZeroPoll(b: Body, t: Table, ip: IpAddr, r1: Reading, r2: Reading)
    requires b.rate == 0
    ensures b.PollOn(t, ip, r1, r2) == (b.AfterNext(), t, b.Next())
  {
  }

  lemma {:induction false} RateZeroPolls(inner: seq<Answer>, b: Body, n: nat, t: Table, ip: IpAddr, readings: seq<(Reading, Reading)>)
    requires UsedUp(inner, 0, b, n)
    ensures PolledOn(b, t, ip, readings).1 == t
    ensures PolledOn(b, t, ip, readings).2 == seq(|readings|, i requires 0 <= i => Given(inner, n + i))
    decreases |readings|
  {
    if readings != [] {
      NextIsGiven(inner, 0, b, n);
      RateZeroPoll(b, t, ip, readings[0].0, readings[0].1);
      RateZeroPolls(inner, b.AfterNext(), n + 1, t, ip, readings[1..]);
    }
  }

  /** Without a rate the wrapper is transparent: n polls give the first n answers, and the table stays as it is. */
  lemma RateZeroIsTransparent(inner: seq<Answer>, t: Table, ip: IpAddr, readings: seq<(Reading, Reading)>)
    ensures var (_, t', answers) := PolledOn(Body(inner, 0, 0), t, ip, readings);
            && t' == t && |answers| == |readings|
            && forall i :: 0 <= i < |answers| ==> answers[i] == if i < |inner| then inner[i] else Pending
  {
    assert inner[0..] == inner;
    RateZeroPolls(inner, Body(inner, 0, 0), 0, t, ip, readings);
    var answers := PolledOn(Body(inner, 0, 0), t, ip, readings).2;
    forall i | 0 <= i < |answers| ensures answers[i] == if i < |inner| then inner[i] else Pending {
      assert answers[i] == Given(inner, 0 + i);
    }
  }

  // What they add up to

  /** The frames whose mark equals `mark`, in order. */
  function Select(frames: seq<Frame>, marks: seq<bool>, mark: bool): seq<Frame>
    requires |frames| == |marks|
  {
    if frames == [] then []
    else
      var last := |frames| - 1;
      Select(frames[..last], marks[..last], mark) + if marks[last] == mark then [frames[last]] else []
  }

  function Bytes(frames: seq<Frame>): nat {
    if frames == [] then 0 else Bytes(frames[..|frames| - 1]) + frames[|frames| - 1].Size()
  }

  function FramesIn(answers: seq<Answer>): seq<Frame> {
    if answers == [] then []
    else
      var last := answers[|answers| - 1];
      FramesIn(answers[..|answers| - 1]) + if last.Ready? then [last.frame] else []
  }

  /** The taken frames are those of the part of the script used so far. */
  ghost predicate FollowsScript(inner: seq<Answer>, run: Run) {
    && |run.body.inner| <= |inner|
    && run.body.inner == inner[|inner| - |run.body.inner|..]
    && run.taken == FramesIn(inner[..|inner| - |run.body.inner|])
  }

  /** Only data frames are refused, the debt is the last frame taken, and every debited byte is accounted for. */
  ghost predicate Settled(run: Run) {
    && |run.refused| == |run.taken|
    && (run.receiving ==> run.body.pending == 0)
    && run.delivered == Select(run.taken, run.refused, false)
    && (forall i :: 0 <= i < |run.taken| && run.refused[i] ==> run.taken[i].Data?)
    && run.debited + run.body.pending == Bytes(run.delivered) + Bytes(Select(run.taken, run.refused, true))
    && (run.body.pending > 0 ==>
          && run.taken != []
          && run.refused[|run.taken| - 1]
          && run.taken[|run.taken| - 1].Size() == run.body.pending)
  }

  lemma BytesAppend(frames: seq<Frame>, f: Frame)
    ensures Bytes(frames + [f]) == Bytes(frames) + f.Size()
  {
    assert (frames + [f])[..|frames|] == frames;
  }

  lemma SelectAppend(frames: seq<Frame>, marks: seq<bool>, f: Frame, m: bool, mark: bool)
    requires |frames| == |marks|
    ensures Select(frames + [f], marks + [m], mark) ==
            if m == mark then Select(frames, marks, mark) + [f] else Select(frames, marks, mark)
  {
    assert (frames + [f])[..|frames|] == frames && (marks + [m])[..|marks|] == marks;
  }

  /** A section that takes no frame from the wrapped body can only settle the debt. */
  lemma ObserveWithoutFrame(run: Run, verdict: bool)
    requires run.body.rate > 0 && !run.Takes()
    ensures run.Observe(verdict) ==
            if run.receiving then run.(body := run.body.AfterNext(), receiving := false)
            else if run.body.pending == 0 then run.(receiving := true)
            else if verdict
            then run.(body := run.body.(pending := 0), receiving := true, debited := run.debited + run.body.pending)
            else run
  {
    assert run.taken + [] == run.taken && run.refused + [] == run.refused && run.delivered + [] == run.delivered;
  }

  /** A section that takes a frame delivers it, or makes it the new debt if the quota refuses it. */
  lemma ObserveWithFrame(run: Run, verdict: bool)
    requires run.body.rate > 0 && run.Takes() && run.body.pending == 0
    ensures var f := run.body.Next().frame;
            var refused := f.Data? && !verdict;
            run.Observe(verdict) ==
            Run(run.body.AfterNext().(pending := if refused then f.Size() else 0), false,
                run.taken + [f],
                run.refused + [refused],
                if refused then run.delivered else run.delivered + [f],
                run.debited + if refused then 0 else f.Size())
  {
    assert run.delivered + [] == run.delivered;
  }

  lemma ObserveFollowsScript(inner: seq<Answer>, run: Run, verdict: bool)
    requires FollowsScript(inner, run) && run.body.rate > 0
    ensures FollowsScript(inner, run.Observe(verdict))
  {
    var at := |inner| - |run.body.inner|;
    assert run.taken + [] == run.taken;
    if run.body.inner != [] {
      assert inner[..at + 1][..at] == inner[..at] && inner[at] == run.body.inner[0];
      assert run.body.inner[1..] == inner[at + 1..];
    }
  }

  lemma TakingFrameSettles(run: Run, f: Frame, refused: bool, next: Run)
    requires Settled(run) && (refused ==> f.Data?) && run.body.pending == 0 && !next.receiving
    requires next.taken == run.taken + [f] && next.refused == run.refused + [refused]
    requires next.delivered == if refused then run.delivered else run.delivered + [f]
    requires next.body.pending == if refused then f.Size() else 0
    requires next.debited == run.debited + if refused then 0 else f.Size()
    ensures Settled(next)
  {
    SelectAppend(run.taken, run.refused, f, refused, true);
    SelectAppend(run.taken, run.refused, f, refused, false);
    BytesAppend(run.delivered, f);
    BytesAppend(Select(run.taken, run.refused, true), f);
    assert next.taken[|next.taken| - 1] == f && next.refused[|next.taken| - 1] == refused;
    forall i | 0 <= i < |next.taken| && next.refused[i] ensures next.taken[i].Data? {
      if i < |run.taken| { assert run.refused[i] && next.taken[i] == run.taken[i]; }
    }
  }

  lemma ObserveSettles(run: Run, verdict: bool)
    requires Settled(run) && run.body.rate > 0
    ensures Settled(run.Observe(verdict))
  {
    if run.Takes() {
      ObserveWithFrame(run, verdict);
      var f := run.body.Next().frame;
      TakingFrameSettles(run, f, f.Data? && !verdict, run.Observe(verdict));
    } else {
      ObserveWithoutFrame(run, verdict);
    }
  }

  /** The books of a run of polls of a body at a rate above zero. */
  ghost predicate Accounted(inner: seq<Answer>, rate: nat, run: Run) {
    FollowsScript(inner, run) && Settled(run) && run.body.rate == rate > 0
  }

  lemma NewRunIsAccounted(inner: seq<Answer>, rate: nat)
    requires rate > 0
    ensures Accounted(inner, rate, Polls(inner, rate, []))
  {
    assert inner[..0] == [];
  }

  lemma ObserveStaysAccounted(inner: seq<Answer>, rate: nat, run: Run, verdict: bool)
    requires Accounted(inner, rate, run)
    ensures Accounted(inner, rate, run.Observe(verdict))
  {
    ObserveFollowsScript(inner, run, verdict);
    ObserveSettles(run, verdict);
    assert run.Observe(verdict).body.rate == rate;
  }

  /** The k-th section took the i-th frame; the frame is marked refused exactly if the quota was asked and said no. */
  ghost predicate Judged(inner: seq<Answer>, rate: nat, verdicts: seq<bool>, i: nat, k: nat) {
    var run := Polls(inner, rate, verdicts);
    && i < |run.taken| == |run.refused| && k < |verdicts|
    && var at := Polls(inner, rate, verdicts[..k]);
       && at.Takes() && |at.taken| == i
       && run.taken[i] == at.body.Next().frame
       && (run.refused[i] <==> at.AsksForFrame() && !verdicts[k])
  }

  /** Some section of the run took the i-th frame, and the quota's verdict then is the frame's mark. */
  ghost predicate MarkedByVerdict(inner: seq<Answer>, rate: nat, verdicts: seq<bool>, i: nat) {
    exists k: nat :: Judged(inner, rate, verdicts, i, k)
  }

  lemma OneMarkPerFrame(inner: seq<Answer>, rate: nat, verdicts: seq<bool>)
    requires rate > 0
    ensures |Polls(inner, rate, verdicts).taken| == |Polls(inner, rate, verdicts).refused|
  {
    BooksBalance(inner, rate, verdicts);
  }

  lemma {:induction false} EveryFrameIsJudged(inner: seq<Answer>, rate: nat, verdicts: seq<bool>, i: nat) returns (k: nat)
    requires rate > 0 && i < |Polls(inner, rate, verdicts).taken|
    ensures Judged(inner, rate, verdicts, i, k)
    decreases |verdicts|
  {
    var last := |verdicts| - 1;
    var front := verdicts[..last];
    OneMarkPerFrame(inner, rate, front);
    OneMarkPerFrame(inner, rate, verdicts);
    assert Polls(inner, rate, verdicts) == Polls(inner, rate, front).Observe(verdicts[last]);
    if i < |Polls(inner, rate, front).taken| {
      k := EveryFrameIsJudged(inner, rate, front, i);
      assert front[..k] == verdicts[..k];
    } else {
      k := last;
    }
  }

  lemma {:induction false} BooksBalance(inner: seq<Answer>, rate: nat, verdicts: seq<bool>)
    requires rate > 0
    ensures Accounted(inner, rate, Polls(inner, rate, verdicts))
    decreases |verdicts|
  {
    if verdicts == [] {
      NewRunIsAccounted(inner, rate);
    } else {
      var front := verdicts[..|verdicts| - 1];
      BooksBalance(inner, rate, front);
      ObserveStaysAccounted(inner, rate, Polls(inner, rate, front), verdicts[|verdicts| - 1]);
    }
  }

  /**
   * Accounting of every run: the frames delivered are the inner frames in order without those for
   * which the quota said no on arrival; what was debited is what was delivered plus the refused
   * bytes, except for the one refused frame that is not paid for yet.
   */
  lemma RunsBalance(inner: seq<Answer>, rate: nat, verdicts: seq<bool>)
    requires rate > 0
    ensures var run := Polls(inner, rate, verdicts);
            && Accounted(inner, rate, run)
            && forall i :: 0 <= i < |run.taken| ==> MarkedByVerdict(inner, rate, verdicts, i)
  {
    BooksBalance(inner, rate, verdicts);
    forall i | 0 <= i < |Polls(inner, rate, verdicts).taken| ensures MarkedByVerdict(inner, rate, verdicts, i) {
      var k := EveryFrameIsJudged(inner, rate, verdicts, i);
    }
  }

  lemma {:induction false} SelectLength(frames: seq<Frame>, marks: seq<bool>)
    requires |frames| == |marks|
    ensures |Select(frames, marks, false)| <= |frames|
    ensures |Select(frames, marks, false)| == |frames| <==> true !in marks
    ensures true !in marks ==> Select(frames, marks, false) == frames
    decreases |frames|
  {
    if frames != [] {
      var last := |frames| - 1;
      assert marks == marks[..last] + [marks[last]] && frames == frames[..last] + [frames[last]];
      SelectLength(frames[..last], marks[..last]);
    }
  }

  lemma DeliversAllIffNoneRefused(run: Run)
    requires Settled(run)
    ensures run.delivered == run.taken <==> true !in run.refused
  {
    SelectLength(run.taken, run.refused);
  }

  /** In its k-th section the run asks the quota for a frame that has just arrived, and the quota says no. */
  predicate RefusesAt(inner: seq<Answer>, rate: nat, verdicts: seq<bool>, k: nat)
    requires k < |verdicts|
  {
    Polls(inner, rate, verdicts[..k]).AsksForFrame() && !verdicts[k]
  }

  lemma {:induction false} RefusedIff(inner: seq<Answer>, rate: nat, verdicts: seq<bool>)
    ensures true in Polls(inner, rate, verdicts).refused <==>
            exists k :: 0 <= k < |verdicts| && RefusesAt(inner, rate, verdicts, k)
    decreases |verdicts|
  {
    if verdicts != [] {
      var last := |verdicts| - 1;
      var front := verdicts[..last];
      RefusedIff(inner, rate, front);
      forall k | 0 <= k < last ensures RefusesAt(inner, rate, verdicts, k) == RefusesAt(inner, rate, front, k) {
        assert front[..k] == verdicts[..k];
      }
      RefusedAfter(Polls(inner, rate, front), verdicts[last]);
      assert RefusesAt(inner, rate, verdicts, last) == (Polls(inner, rate, front).AsksForFrame() && !verdicts[last]);
    }
  }

  lemma RefusedAfter(run: Run, verdict: bool)
    ensures true in run.Observe(verdict).refused <==> true in run.refused || (run.AsksForFrame() && !verdict)
  {
  }

  /** A run delivers every frame it took if and only if the quota says yes each time it is asked for an arriving frame. */
  lemma NothingLostIff(inner: seq<Answer>, rate: nat, verdicts: seq<bool>)
    requires rate > 0
    ensures var run := Polls(inner, rate, verdicts);
            run.delivered == run.taken <==>
            forall k :: 0 <= k < |verdicts| ==> !RefusesAt(inner, rate, verdicts, k)
  {
    BooksBalance(inner, rate, verdicts);
    DeliversAllIffNoneRefused(Polls(inner, rate, verdicts));
    RefusedIff(inner, rate, verdicts);
  }

  /** A body can ever pay for its refused frame if and only if the frame is at most twice the rate. */
  lemma DebtCanBePaidIff(b: Body, t: Table, ip: IpAddr)
    requires b.Owes()
    ensures (exists r: Reading :: b.Paid(t, ip, r)) <==> b.pending <= 2 * b.rate
  {
    if b.pending <= 2 * b.rate {
      // Wait until even an overdrawn bucket would be full.
      var from := if ip in t then t[ip].lastFill else 0;
      var lack := if ip in t && t[ip].tokens < 0 then -t[ip].tokens else 0;
      var r := Reading.Reading(from, from + 2 * NANOS + lack);
      MulMono(1, b.rate, lack);
      assert (2 * NANOS + lack) * b.rate == Cap(b.rate) + lack * b.rate;
      assert Available(Entry(t, ip, r.created), b.rate, r.now) == Cap(b.rate);
      assert b.Paid(t, ip, r);
    }
  }
}
