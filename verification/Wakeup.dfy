/** How other threads and signal handlers wake the event loop: evpipe_write, pipecb and the
    part of ev_run around backend_poll, as interleaved atomic steps. */
module Wakeup {

  // Async watchers and signals have a pending flag each: async_pending and sig_pending.
  datatype Kind = Signal | Async

  // Where a sender is in ev_async_send or ev_feed_signal and evpipe_write.
  datatype Sender =
    | Idle
    | CheckFlag(kind: Kind)   // `sent` is set; about to read the pending flag
    | SetFlag(kind: Kind)     // about to set the pending flag
    | SetSkipped              // about to set pipe_write_skipped
    | CheckWanted             // about to read pipe_write_wanted
    | ClearSkipped            // about to clear pipe_write_skipped
    | WritePipe               // about to write to the pipe

  // Where the loop thread is.  `readable` is whether backend_poll reported the pipe.
  datatype Loop =
    | Top                               // outside of what follows
    | ReadSkipped                       // pipe_write_wanted is set
    | Poll(blocking: bool)              // in backend_poll, with a positive wait if blocking
    | ClearWanted(readable: bool)
    | RereadSkipped(readable: bool)
    | ReadPipe(readable: bool)          // in pipecb from here on
    | ResetSkipped
    | ReadFlag(kind: Kind)
    | ClearFlag(kind: Kind)
    | Scan(kind: Kind, left: nat)       // items `left` and above have been looked at
    | Feed(kind: Kind, left: nat)       // item left - 1 was found sent; about to clear and feed it

  datatype State = State(
    senders: seq<Sender>,
    loop: Loop,
    kinds: seq<Kind>,      // the items: started async watchers and signals
    sent: seq<bool>,       // ev_async.sent, or the pending field of a signal
    sig_pending: bool,
    async_pending: bool,
    skipped: bool,         // pipe_write_skipped
    wanted: bool,          // pipe_write_wanted
    pipe: nat,             // bytes in the pipe
    capacity: nat)         // a write to a full pipe does nothing

  predicate WellFormed(s: State) {
    && |s.sent| == |s.kinds|
    && s.capacity > 0
  }

  function Flag(s: State, k: Kind): bool {
    if k == Signal then s.sig_pending else s.async_pending
  }

  function WithFlag(s: State, k: Kind, flag: bool): State {
    if k == Signal then s.(sig_pending := flag) else s.(async_pending := flag)
  }

  ghost predicate Init(s: State) {
    && WellFormed(s)
    && (forall t :: 0 <= t < |s.senders| ==> s.senders[t] == Idle)
    && s.loop == Top
    && (forall i :: 0 <= i < |s.sent| ==> !s.sent[i])
    && !s.sig_pending && !s.async_pending
    && !s.skipped && !s.wanted && s.pipe == 0
  }

  // ---------- The steps ----------

  // Sender t starts to send item i: `sent` is set first.
  function StartSend(s: State, t: nat, i: nat): State
    requires WellFormed(s) && t < |s.senders| && i < |s.sent|
  {
    s.(senders := s.senders[t := CheckFlag(s.kinds[i])], sent := s.sent[i := true])
  }

  /** The next step of sender t in evpipe_write. */
  function SenderNext(s: State, t: nat): (s': State)
    requires WellFormed(s) && t < |s.senders| && s.senders[t] != Idle
    ensures WellFormed(s')
  {
    match s.senders[t]
    case CheckFlag(k) => s.(senders := s.senders[t := if Flag(s, k) then Idle else SetFlag(k)])
    case SetFlag(k) => WithFlag(s, k, true).(senders := s.senders[t := SetSkipped])
    case SetSkipped => s.(senders := s.senders[t := CheckWanted], skipped := true)
    case CheckWanted => s.(senders := s.senders[t := if s.wanted then ClearSkipped else Idle])
    case ClearSkipped => s.(senders := s.senders[t := WritePipe], skipped := false)
    case WritePipe => s.(senders := s.senders[t := Idle], pipe := if s.pipe < s.capacity then s.pipe + 1 else s.pipe)
  }

  // What the loop's environment decides: whether there is another reason not to block,
  // whether a poll with the pipe readable reports it, and how much is read from the pipe.
  datatype Choice = Choice(nowait: bool, report: bool, drained: nat)

  // Polling can end for other reasons than the pipe at any time.
  predicate ChoiceOk(s: State, c: Choice) {
    s.loop == ReadPipe(true) ==> 0 < c.drained <= s.pipe
  }

  /** The next step of the loop thread: in ev_run around backend_poll ... */
  function PollNext(s: State, c: Choice): (s': State)
    requires WellFormed(s) && LoopOk(s) && !InPipecb(s.loop)
    ensures WellFormed(s') && LoopOk(s')
  {
    match s.loop
    case Top => s.(loop := ReadSkipped, wanted := true)
    case ReadSkipped => s.(loop := Poll(!s.skipped && !c.nowait))
    case Poll(_) => s.(loop := ClearWanted(c.report && s.pipe > 0))
    case ClearWanted(readable) => s.(loop := RereadSkipped(readable), wanted := false)
    case RereadSkipped(readable) => s.(loop := if readable || s.skipped then ReadPipe(readable) else Top)
  }

  /** ... and in pipecb. */
  function PipecbNext(s: State, c: Choice): (s': State)
    requires WellFormed(s) && LoopOk(s) && InPipecb(s.loop) && ChoiceOk(s, c)
    ensures WellFormed(s') && LoopOk(s')
  {
    match s.loop
    case ReadPipe(readable) => s.(loop := ResetSkipped, pipe := if readable then s.pipe - c.drained else s.pipe)
    case ResetSkipped => s.(loop := ReadFlag(Signal), skipped := false)
    case ReadFlag(k) => s.(loop := if Flag(s, k) then ClearFlag(k) else AfterFlag(k))
    case ClearFlag(k) => WithFlag(s, k, false).(loop := Scan(k, |s.sent|))
    case Scan(k, left) => s.(loop := AfterLook(s, k, left))
    case Feed(k, left) => s.(loop := Scan(k, left - 1), sent := s.sent[left - 1 := false])
  }

  predicate InPipecb(loop: Loop) {
    loop.ReadPipe? || loop.ResetSkipped? || loop.ReadFlag? || loop.ClearFlag? || loop.Scan? || loop.Feed?
  }

  function AfterFlag(k: Kind): Loop {
    if k == Signal then ReadFlag(Async) else Top
  }

  // Where a scan goes after looking at item left - 1.
  function AfterLook(s: State, k: Kind, left: nat): Loop
    requires WellFormed(s) && left <= |s.sent|
  {
    if left == 0 then AfterFlag(k)
    else if s.kinds[left - 1] == k && s.sent[left - 1] then Feed(k, left)
    else Scan(k, left - 1)
  }

  function LoopNext(s: State, c: Choice): (s': State)
    requires WellFormed(s) && ChoiceOk(s, c)
    requires LoopOk(s)
    ensures WellFormed(s') && LoopOk(s')
  {
    if InPipecb(s.loop) then PipecbNext(s, c) else PollNext(s, c)
  }

  /** One atomic step of some sender or of the loop. */
  ghost predicate Step(s: State, s': State) {
    WellFormed(s) && (
      || (exists t: nat, i: nat :: t < |s.senders| && s.senders[t] == Idle && i < |s.sent| && s' == StartSend(s, t, i))
      || (exists t: nat :: t < |s.senders| && s.senders[t] != Idle && s' == SenderNext(s, t))
      || (exists c: Choice :: LoopOk(s) && ChoiceOk(s, c) && s' == LoopNext(s, c)))
  }

  // ---------- The invariant ----------

  // pipecb is still going to look at the flag of k.
  predicate WillCheck(loop: Loop, k: Kind) {
    match loop
    case ClearWanted(readable) => readable
    case RereadSkipped(readable) => readable
    case ReadPipe(_) => true
    case ResetSkipped => true
    case ReadFlag(kind) => k == kind || k == Async
    case ClearFlag(kind) => k == kind || k == Async
    case Scan(kind, _) => kind == Signal && k == Async
    case Feed(kind, _) => kind == Signal && k == Async
    case _ => false
  }

  // A scan for the kind of item i has yet to get to it.
  predicate WillScan(s: State, i: nat)
    requires i < |s.kinds|
  {
    (s.loop.Scan? || s.loop.Feed?) && s.loop.kind == s.kinds[i] && i < s.loop.left
  }

  predicate Flagging(p: Sender, k: Kind) {
    p == CheckFlag(k) || p == SetFlag(k)
  }

  predicate Waking(p: Sender) {
    p.SetSkipped? || p.ClearSkipped? || p.WritePipe?
  }

  predicate Revising(p: Sender) {
    p.CheckWanted? || p.ClearSkipped?
  }

  // A sent item has its flag set, unless its sender is about to set it or pipecb has just
  // cleared it and will still find the item.
  ghost predicate SentIsFlagged(s: State)
    requires WellFormed(s)
  {
    forall i :: 0 <= i < |s.sent| && s.sent[i] ==>
      || Flag(s, s.kinds[i])
      || (exists t :: 0 <= t < |s.senders| && Flagging(s.senders[t], s.kinds[i]))
      || WillScan(s, i)
  }

  // A set flag is on its way to the loop.
  ghost predicate FlagIsNoticed(s: State) {
    forall k :: Flag(s, k) ==>
      || s.skipped || s.pipe > 0
      || (exists t :: 0 <= t < |s.senders| && Waking(s.senders[t]))
      || WillCheck(s.loop, k)
  }

  // While the loop blocks, whoever skips the write finds that it is wanted.
  ghost predicate SkipIsRevised(s: State) {
    && (s.loop.ReadSkipped? || s.loop.Poll? ==> s.wanted)
    && (s.loop == Poll(true) && s.skipped ==> exists t :: 0 <= t < |s.senders| && Revising(s.senders[t]))
  }

  // The scan is within the items, and a pipe reported readable is.
  ghost predicate LoopOk(s: State)
    requires WellFormed(s)
  {
    match s.loop
    case ClearWanted(readable) => readable ==> s.pipe > 0
    case RereadSkipped(readable) => readable ==> s.pipe > 0
    case ReadPipe(readable) => readable ==> s.pipe > 0
    case Scan(_, left) => left <= |s.sent|
    case Feed(k, left) => 0 < left <= |s.sent| && s.kinds[left - 1] == k
    case _ => true
  }

  ghost predicate Inv(s: State) {
    && WellFormed(s) && LoopOk(s)
    && SentIsFlagged(s) && FlagIsNoticed(s) && SkipIsRevised(s)
  }

  lemma InitInv(s: State)
    requires Init(s)
    ensures Inv(s)
  {
  }

  lemma StartSendKeepsInv(s: State, t: nat, i: nat)
    requires Inv(s) && t < |s.senders| && s.senders[t] == Idle && i < |s.sent|
    ensures Inv(StartSend(s, t, i))
  {
    var s' := StartSend(s, t, i);
    assert Flagging(s'.senders[t], s.kinds[i]);
    assert forall u {:trigger s.senders[u]} :: 0 <= u < |s.senders| && u != t ==> s'.senders[u] == s.senders[u];
  }

  lemma SenderKeepsFlags(s: State, t: nat)
    requires Inv(s) && t < |s.senders| && s.senders[t] != Idle
    ensures FlagIsNoticed(SenderNext(s, t))
  {
    var s' := SenderNext(s, t);
    assert forall u {:trigger s.senders[u]} :: 0 <= u < |s.senders| && u != t ==> s'.senders[u] == s.senders[u];
    forall k | Flag(s', k)
      ensures s'.skipped || s'.pipe > 0 || (exists u :: 0 <= u < |s'.senders| && Waking(s'.senders[u])) || WillCheck(s'.loop, k)
    {
      assert Flag(s, k) || Waking(s'.senders[t]);
      assert Waking(s.senders[t]) ==> s'.skipped || s'.pipe > 0 || Waking(s'.senders[t]);
    }
  }

  lemma SenderKeepsSent(s: State, t: nat)
    requires Inv(s) && t < |s.senders| && s.senders[t] != Idle
    ensures SentIsFlagged(SenderNext(s, t))
  {
    var s' := SenderNext(s, t);
    assert forall u {:trigger s.senders[u]} :: 0 <= u < |s.senders| && u != t ==> s'.senders[u] == s.senders[u];
    forall i | 0 <= i < |s.sent| && s.sent[i]
      ensures Flag(s', s.kinds[i]) || (exists u :: 0 <= u < |s'.senders| && Flagging(s'.senders[u], s.kinds[i])) || WillScan(s', i)
    {
      assert Flagging(s.senders[t], s.kinds[i]) ==> Flag(s', s.kinds[i]) || Flagging(s'.senders[t], s.kinds[i]);
    }
  }

  lemma SenderKeepsInv(s: State, t: nat)
    requires Inv(s) && t < |s.senders| && s.senders[t] != Idle
    ensures Inv(SenderNext(s, t))
  {
    SenderKeepsFlags(s, t);
    SenderKeepsSent(s, t);
    var s' := SenderNext(s, t);
    assert forall u {:trigger s.senders[u]} :: 0 <= u < |s.senders| && u != t ==> s'.senders[u] == s.senders[u];
    assert s.loop == Poll(true) && s'.skipped && Revising(s.senders[t]) ==> Revising(s'.senders[t]);
    assert s.senders[t] == SetSkipped ==> Revising(s'.senders[t]);
  }

  // What a step of the loop leaves alone.
  lemma LoopFrame(s: State, c: Choice)
    requires WellFormed(s) && LoopOk(s) && ChoiceOk(s, c)
    ensures var s' := LoopNext(s, c);
            && s'.senders == s.senders && s'.kinds == s.kinds
            && s'.sig_pending == (s.sig_pending && s.loop != ClearFlag(Signal))
            && s'.async_pending == (s.async_pending && s.loop != ClearFlag(Async))
            && |s'.sent| == |s.sent|
            && (!s.loop.Feed? ==> s'.sent == s.sent)
  {
    match s.loop {
      case ClearFlag(kind) =>
      case Feed(kind, left) =>
      case _ =>
    }
  }

  lemma LoopKeepsFlags(s: State, c: Choice)
    requires Inv(s) && ChoiceOk(s, c)
    ensures FlagIsNoticed(LoopNext(s, c))
  {
    var s' := LoopNext(s, c);
    forall k | Flag(s', k)
      ensures s'.skipped || s'.pipe > 0 || (exists u :: 0 <= u < |s.senders| && Waking(s.senders[u])) || WillCheck(s'.loop, k)
    {
      assert Flag(s, k);
    }
  }

  // A scan gets past a sent item only by feeding it, and starts before all items.
  lemma ScanPasses(s: State, c: Choice, i: nat)
    requires WellFormed(s) && LoopOk(s) && ChoiceOk(s, c) && i < |s.sent| && s.sent[i]
    ensures var s' := LoopNext(s, c);
            (WillScan(s, i) || s.loop == ClearFlag(s.kinds[i])) && s'.sent[i] ==> WillScan(s', i)
  {
  }

  lemma LoopKeepsSent(s: State, c: Choice)
    requires Inv(s) && ChoiceOk(s, c)
    ensures SentIsFlagged(LoopNext(s, c))
  {
    var s' := LoopNext(s, c);
    LoopFrame(s, c);
    forall i | 0 <= i < |s.sent| && s'.sent[i]
      ensures Flag(s', s.kinds[i]) || (exists u :: 0 <= u < |s.senders| && Flagging(s.senders[u], s.kinds[i])) || WillScan(s', i)
    {
      assert s.sent[i];
      ScanPasses(s, c, i);
    }
  }

  lemma LoopKeepsInv(s: State, c: Choice)
    requires Inv(s) && ChoiceOk(s, c)
    ensures Inv(LoopNext(s, c))
  {
    LoopKeepsFlags(s, c);
    LoopKeepsSent(s, c);
    LoopFrame(s, c);
  }

  // ---------- No lost wake-up ----------

  // A run: every state follows from the one before by a step of a sender or of the loop.
  ghost predicate Run(states: seq<State>) {
    && states != [] && Init(states[0])
    && forall n :: 0 <= n < |states| - 1 ==> Step(states[n], states[n + 1])
  }

  lemma {:induction false} RunKeepsInv(states: seq<State>)
    requires Run(states)
    ensures Inv(states[|states| - 1])
    decreases |states|
  {
    if |states| > 1 {
      var n := |states| - 2;
      RunKeepsInv(states[..n + 1]);
      var s, s' := states[n], states[n + 1];
      assert Step(s, s');
      if t: nat, i: nat :| t < |s.senders| && s.senders[t] == Idle && i < |s.sent| && s' == StartSend(s, t, i) {
        StartSendKeepsInv(s, t, i);
      } else if t: nat :| t < |s.senders| && s.senders[t] != Idle && s' == SenderNext(s, t) {
        SenderKeepsInv(s, t);
      } else {
        var c: Choice :| ChoiceOk(s, c) && s' == LoopNext(s, c);
        LoopKeepsInv(s, c);
      }
    } else {
      InitInv(states[0]);
    }
  }

  ghost predicate Quiescent(s: State) {
    forall t :: 0 <= t < |s.senders| ==> s.senders[t] == Idle
  }

  // A loop that blocks while the senders are done has nothing to do or can be woken.
  lemma BlockedIsReadable(s: State)
    requires Inv(s) && Quiescent(s) && s.loop == Poll(true)
    ensures true in s.sent ==> s.pipe > 0
  {
    if true in s.sent {
      var i :| 0 <= i < |s.sent| && s.sent[i];
      assert Flag(s, s.kinds[i]);
    }
  }

  /** In every run, with any number of senders: when the loop blocks in backend_poll and no
      sender is in the middle of a call, every sent item finds the pipe readable. */
  lemma NoLostWakeup(states: seq<State>)
    requires Run(states)
    ensures var s := states[|states| - 1];
            s.loop == Poll(true) && Quiescent(s) && true in s.sent ==> s.pipe > 0
  {
    RunKeepsInv(states);
    var s := states[|states| - 1];
    if s.loop == Poll(true) && Quiescent(s) {
      BlockedIsReadable(s);
    }
  }

  // ---------- The wake-up leads to the callback ----------

  // How many steps of the loop are left until it is at Top again, at most.
  function Distance(loop: Loop, n: nat): nat
    requires loop.Feed? ==> loop.left > 0
  {
    match loop
    case Top => 4 * n + 15
    case ReadSkipped => 4 * n + 14
    case Poll(_) => 4 * n + 13
    case ClearWanted(_) => 4 * n + 12
    case RereadSkipped(_) => 4 * n + 11
    case ReadPipe(_) => 4 * n + 10
    case ResetSkipped => 4 * n + 9
    case ReadFlag(k) => if k == Signal then 4 * n + 8 else 2 * n + 5
    case ClearFlag(k) => if k == Signal then 4 * n + 7 else 2 * n + 4
    case Scan(k, left) => if k == Signal then 2 * n + 6 + 2 * left else 1 + 2 * left
    case Feed(k, left) => if k == Signal then 2 * n + 5 + 2 * left else 2 * left
  }

  // The loop will look at item i before it is at Top again.
  predicate WillServe(s: State, i: nat)
    requires WellFormed(s) && i < |s.kinds|
  {
    || WillScan(s, i)
    || (Flag(s, s.kinds[i]) &&
        match s.loop
        case Top => s.skipped || s.pipe > 0
        case ReadSkipped => s.skipped || s.pipe > 0
        case Poll(_) => s.skipped || s.pipe > 0
        case ClearWanted(readable) => s.skipped || readable
        case RereadSkipped(readable) => s.skipped || readable
        case _ => WillCheck(s.loop, s.kinds[i]))
  }

  function Rank(s: State, i: nat): nat
    requires WellFormed(s) && LoopOk(s) && i < |s.kinds|
  {
    Distance(s.loop, |s.sent|) + if WillServe(s, i) then 0 else 4 * |s.sent| + 16
  }

  lemma DistanceDecreases(s: State, c: Choice)
    requires WellFormed(s) && LoopOk(s) && ChoiceOk(s, c)
    ensures LoopNext(s, c).loop == Top || Distance(LoopNext(s, c).loop, |s.sent|) < Distance(s.loop, |s.sent|)
  {
    var n, loop, loop' := |s.sent|, s.loop, LoopNext(s, c).loop;
    if InPipecb(loop) {
      assert
        || (loop.ReadPipe? && loop'.ResetSkipped?)
        || (loop.ResetSkipped? && loop' == ReadFlag(Signal))
        || (loop.ReadFlag? && loop' in {ClearFlag(loop.kind), AfterFlag(loop.kind)})
        || (loop.ClearFlag? && loop' == Scan(loop.kind, n))
        || (loop.Scan? && loop.left == 0 && loop' == AfterFlag(loop.kind))
        || (loop.Scan? && loop.left > 0 && loop' in {Feed(loop.kind, loop.left), Scan(loop.kind, loop.left - 1)})
        || (loop.Feed? && loop' == Scan(loop.kind, loop.left - 1));
    }
  }

  // At Top, with the senders done, a sent item will be served in the coming round.
  lemma ServedFromTop(s: State, i: nat)
    requires Inv(s) && Quiescent(s) && s.loop == Top
    requires i < |s.sent| && s.sent[i]
    ensures WillServe(s, i)
  {
    assert Flag(s, s.kinds[i]);
  }

  lemma RankDecreases(s: State, c: Choice, i: nat)
    requires Inv(s) && Quiescent(s) && ChoiceOk(s, c) && c.report
    requires i < |s.sent| && s.sent[i]
    ensures !LoopNext(s, c).sent[i] || Rank(LoopNext(s, c), i) < Rank(s, i)
  {
    LoopKeepsInv(s, c);
    LoopFrame(s, c);
    DistanceDecreases(s, c);
    var s' := LoopNext(s, c);
    if s'.sent[i] {
      if WillServe(s, i) {
        ServingGoesOn(s, c, i);
      } else if s'.loop == Top {
        ServedFromTop(s', i);
      }
    }
  }

  lemma ServingGoesOn(s: State, c: Choice, i: nat)
    requires WellFormed(s) && LoopOk(s) && ChoiceOk(s, c) && c.report
    requires i < |s.sent| && s.sent[i] && WillServe(s, i) && LoopNext(s, c).sent[i]
    ensures WillServe(LoopNext(s, c), i) && LoopNext(s, c).loop != Top
  {
    if InPipecb(s.loop) {
      ServingGoesOnInPipecb(s, c, i);
    }
  }

  lemma ServingGoesOnInPipecb(s: State, c: Choice, i: nat)
    requires WellFormed(s) && LoopOk(s) && ChoiceOk(s, c) && InPipecb(s.loop)
    requires i < |s.sent| && s.sent[i] && WillServe(s, i) && PipecbNext(s, c).sent[i]
    ensures WillServe(PipecbNext(s, c), i) && PipecbNext(s, c).loop != Top
  {
  }

  // The loop alone takes every step, and polls report a readable pipe.
  ghost predicate LoopRun(states: seq<State>) {
    && states != [] && Inv(states[0]) && Quiescent(states[0])
    && forall n :: 0 <= n < |states| - 1 ==> LoopStep(states[n], states[n + 1])
  }

  ghost predicate LoopStep(s: State, s': State) {
    WellFormed(s) && LoopOk(s) && exists c: Choice :: ChoiceOk(s, c) && c.report && s' == LoopNext(s, c)
  }

  /** Once the senders are done, the loop feeds every sent item within two rounds.  It cannot
      get stuck on the way: where it may block, NoLostWakeup makes the pipe readable. */
  lemma {:induction false} SentIsFed(states: seq<State>, i: nat)
    requires LoopRun(states) && i < |states[0].sent|
    requires |states| > 8 * |states[0].sent| + 32
    ensures exists m :: 0 <= m < |states| && i < |states[m].sent| && !states[m].sent[i]
  {
    FedWithinRank(states, i);
  }

  lemma {:induction false} FedWithinRank(states: seq<State>, i: nat)
    requires LoopRun(states) && i < |states[0].sent|
    requires |states| > Rank(states[0], i)
    ensures exists m :: 0 <= m < |states| && i < |states[m].sent| && !states[m].sent[i]
    decreases |states|
  {
    var s := states[0];
    if s.sent[i] {
      assert LoopStep(s, states[1]);
      var c: Choice :| ChoiceOk(s, c) && c.report && states[1] == LoopNext(s, c);
      RankDecreases(s, c, i);
      LoopKeepsInv(s, c);
      LoopFrame(s, c);
      if states[1].sent[i] {
        FedWithinRank(states[1..], i);
        var m :| 0 <= m < |states[1..]| && i < |states[1..][m].sent| && !states[1..][m].sent[i];
        assert !states[m + 1].sent[i];
      }
    }
  }
}
