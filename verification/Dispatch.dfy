/** How a message gets from the threads that send it through RtcServer to one RtcWorker: two
    hops, each a queue and a pipe with one notification for each message, as interleaved
    atomic steps. */
module Dispatch {
  import opened Basics

  datatype Msg = Msg(id: nat, stream: string)

  // A thread in RtcServer::send_rtc_msg has pushed its message and not yet notified the server.
  datatype Sender = Idle | MustNotify

  datatype Server =
    | Waiting
    | MustPop                     // has read a notification
    | MustRoute(msg: Msg)         // has taken msg
    | MustNotifyWorker(w: nat)    // has pushed to worker w

  datatype Worker = Worker(queue: seq<Msg>, pipe: nat, busy: bool, handled: seq<Msg>)

  // What became of a message: which worker it was given to, if any.
  datatype Routed = Routed(msg: Msg, to: Option<nat>)

  datatype State = State(
    senders: seq<Sender>,
    queue: seq<Msg>,
    pipe: nat,
    server: Server,
    workers: seq<Worker>,
    missed: nat,          // how often a pop found its queue empty
    entered: seq<Msg>,    // history: what was pushed, in order
    routed: seq<Routed>)  // history: what the server is done with, in order

  datatype Config = Config(workerNum: nat, crc32: string -> nat)

  /** RtcServer::_get_worker. */
  function GetWorker(config: Config, workers: nat, stream: string): (w: Option<nat>)
    ensures w.Some? ==> w.value < workers
  {
    if workers == 0 || workers != config.workerNum then None else Some(config.crc32(stream) % config.workerNum)
  }

  ghost predicate Init(s: State) {
    && (forall t :: 0 <= t < |s.senders| ==> s.senders[t] == Idle)
    && s.queue == [] && s.pipe == 0 && s.server == Waiting && s.missed == 0
    && (forall w :: 0 <= w < |s.workers| ==> s.workers[w] == Worker([], 0, false, []))
    && s.entered == [] && s.routed == []
  }

  // ---------- The steps ----------

  datatype Step =
    | Push(t: nat, msg: Msg)   // thread t calls send_rtc_msg
    | Notify(t: nat)
    | ServerRead
    | ServerPop
    | ServerRoute(certificate: bool)
    | ServerNotify
    | WorkerRead(w: nat)
    | WorkerPop(w: nat)

  predicate Enabled(s: State, step: Step) {
    match step
    case Push(t, _) => t < |s.senders| && s.senders[t] == Idle
    case Notify(t) => t < |s.senders| && s.senders[t] == MustNotify
    case ServerRead => s.server == Waiting && s.pipe > 0
    case ServerPop => s.server == MustPop
    case ServerRoute(_) => s.server.MustRoute?
    case ServerNotify => s.server.MustNotifyWorker? && s.server.w < |s.workers|
    case WorkerRead(w) => w < |s.workers| && !s.workers[w].busy && s.workers[w].pipe > 0
    case WorkerPop(w) => w < |s.workers| && s.workers[w].busy
  }

  function Next(config: Config, s: State, step: Step): State
    requires Enabled(s, step)
  {
    match step
    case Push(t, msg) =>
      s.(senders := s.senders[t := MustNotify], queue := s.queue + [msg], entered := s.entered + [msg])
    case Notify(t) => s.(senders := s.senders[t := Idle], pipe := s.pipe + 1)
    case ServerRead => s.(pipe := s.pipe - 1, server := MustPop)
    case ServerPop =>
      if s.queue == [] then s.(server := Waiting, missed := s.missed + 1)
      else s.(server := MustRoute(s.queue[0]), queue := s.queue[1..])
    case ServerRoute(certificate) => Route(config, s, certificate)
    case ServerNotify =>
      var w := s.server.w;
      s.(workers := s.workers[w := s.workers[w].(pipe := s.workers[w].pipe + 1)], server := Waiting)
    case WorkerRead(w) =>
      s.(workers := s.workers[w := s.workers[w].(pipe := s.workers[w].pipe - 1, busy := true)])
    case WorkerPop(w) =>
      var worker := s.workers[w];
      if worker.queue == [] then s.(workers := s.workers[w := worker.(busy := false)], missed := s.missed + 1)
      else s.(workers := s.workers[w := Worker(worker.queue[1..], worker.pipe, false, worker.handled + [worker.queue[0]])])
  }

  /** RtcServer::_process_rtc_msg after the pop.  Without a certificate, and without workers,
      the message is dropped. */
  function Route(config: Config, s: State, certificate: bool): State
    requires s.server.MustRoute?
  {
    var msg := s.server.msg;
    var to := if certificate then GetWorker(config, |s.workers|, msg.stream) else None;
    if to.None? then s.(server := Waiting, routed := s.routed + [Routed(msg, None)])
    else
      var worker := s.workers[to.value];
      s.(workers := s.workers[to.value := worker.(queue := worker.queue + [msg])],
         server := MustNotifyWorker(to.value), routed := s.routed + [Routed(msg, to)])
  }

  // ---------- The invariant ----------

  function Notifying(senders: seq<Sender>): nat {
    if senders == [] then 0 else (if senders[0] == MustNotify then 1 else 0) + Notifying(senders[1..])
  }

  lemma {:induction false} NotifyingUpdate(senders: seq<Sender>, t: nat, now: Sender)
    requires t < |senders|
    ensures Notifying(senders[t := now]) ==
            Notifying(senders) - (if senders[t] == MustNotify then 1 else 0) + (if now == MustNotify then 1 else 0)
  {
    if t > 0 {
      assert senders[t := now][1..] == senders[1..][t - 1 := now];
      NotifyingUpdate(senders[1..], t - 1, now);
    } else {
      assert senders[0 := now][1..] == senders[1..];
    }
  }

  // Every queued message has its notification, in the pipe, about to be written, or just read.
  predicate ServerCounts(s: State) {
    |s.queue| == s.pipe + Notifying(s.senders) + (if s.server == MustPop then 1 else 0)
  }

  predicate WorkerCounts(server: Server, worker: Worker, w: nat) {
    |worker.queue| == worker.pipe + (if server == MustNotifyWorker(w) then 1 else 0) + (if worker.busy then 1 else 0)
  }

  function Messages(routed: seq<Routed>): (msgs: seq<Msg>)
    ensures |msgs| == |routed|
  {
    seq(|routed|, i requires 0 <= i < |routed| => routed[i].msg)
  }

  function Held(server: Server): seq<Msg> {
    if server.MustRoute? then [server.msg] else []
  }

  // The messages given to worker w, in order.
  function GivenTo(routed: seq<Routed>, w: nat): seq<Msg> {
    if routed == [] then []
    else
      var last := routed[|routed| - 1];
      GivenTo(routed[..|routed| - 1], w) + if last.to == Some(w) then [last.msg] else []
  }

  predicate RightWorker(config: Config, workers: nat, r: Routed) {
    r.to.None? || r.to == GetWorker(config, workers, r.msg.stream)
  }

  ghost predicate Inv(config: Config, s: State) {
    && ServerCounts(s)
    && (forall w {:trigger s.workers[w]} :: 0 <= w < |s.workers| ==>
          WorkerCounts(s.server, s.workers[w], w) && s.workers[w].handled + s.workers[w].queue == GivenTo(s.routed, w))
    && (s.server.MustNotifyWorker? ==> s.server.w < |s.workers|)
    && s.entered == Messages(s.routed) + Held(s.server) + s.queue
    && (forall i {:trigger s.routed[i]} :: 0 <= i < |s.routed| ==> RightWorker(config, |s.workers|, s.routed[i]))
    && s.missed == 0
  }

  lemma {:induction false} NobodyNotifies(senders: seq<Sender>)
    requires forall t :: 0 <= t < |senders| ==> senders[t] == Idle
    ensures Notifying(senders) == 0
  {
    if senders != [] {
      NobodyNotifies(senders[1..]);
    }
  }

  lemma InitInv(config: Config, s: State)
    requires Init(s)
    ensures Inv(config, s)
  {
    NobodyNotifies(s.senders);
  }

  lemma PushInv(config: Config, s: State, t: nat, msg: Msg)
    requires Inv(config, s) && Enabled(s, Push(t, msg))
    ensures Inv(config, Next(config, s, Push(t, msg)))
  {
    NotifyingUpdate(s.senders, t, MustNotify);
    var done := Messages(s.routed) + Held(s.server);
    assert done + s.queue + [msg] == done + (s.queue + [msg]);
  }

  lemma NotifyInv(config: Config, s: State, t: nat)
    requires Inv(config, s) && Enabled(s, Notify(t))
    ensures Inv(config, Next(config, s, Notify(t)))
  {
    NotifyingUpdate(s.senders, t, Idle);
  }

  lemma ServerPopInv(config: Config, s: State)
    requires Inv(config, s) && s.server == MustPop
    ensures Inv(config, Next(config, s, ServerPop))
  {
    var done, first, rest := Messages(s.routed), [s.queue[0]], s.queue[1..];
    assert s.queue == first + rest;
    assert done + [] + (first + rest) == done + first + rest;
  }

  lemma RouteInv(config: Config, s: State, certificate: bool)
    requires Inv(config, s) && s.server.MustRoute?
    ensures Inv(config, Route(config, s, certificate))
  {
    var s' := Route(config, s, certificate);
    var last := s'.routed[|s.routed|];
    assert s'.routed[..|s.routed|] == s.routed;
    assert Messages(s'.routed) == Messages(s.routed) + [s.server.msg];
    assert Messages(s.routed) + Held(s.server) + s.queue == Messages(s'.routed) + [] + s.queue;
    forall w | 0 <= w < |s.workers|
      ensures s'.workers[w].handled + s'.workers[w].queue == GivenTo(s'.routed, w)
    {
      var worker := s.workers[w];
      assert worker.handled + worker.queue == GivenTo(s.routed, w);
      if last.to == Some(w) {
        assert worker.handled + (worker.queue + [last.msg]) == worker.handled + worker.queue + [last.msg];
      } else {
        assert GivenTo(s.routed, w) + [] == GivenTo(s.routed, w);
      }
    }
  }

  lemma WorkerPopInv(config: Config, s: State, w: nat)
    requires Inv(config, s) && Enabled(s, WorkerPop(w))
    ensures Inv(config, Next(config, s, WorkerPop(w)))
  {
    var worker := s.workers[w];
    assert WorkerCounts(s.server, worker, w);
    assert worker.queue == [worker.queue[0]] + worker.queue[1..];
    assert worker.handled + ([worker.queue[0]] + worker.queue[1..]) == worker.handled + [worker.queue[0]] + worker.queue[1..];
  }

  lemma NextInv(config: Config, s: State, step: Step)
    requires Inv(config, s) && Enabled(s, step)
    ensures Inv(config, Next(config, s, step))
  {
    match step {
      case Push(t, msg) => PushInv(config, s, t, msg);
      case Notify(t) => NotifyInv(config, s, t);
      case ServerPop => ServerPopInv(config, s);
      case ServerRoute(certificate) => RouteInv(config, s, certificate);
      case WorkerPop(w) => WorkerPopInv(config, s, w);
      case _ =>
    }
  }

  // ---------- Whole runs ----------

  /** The state after the steps; None if one of them was not possible. */
  function Run(config: Config, s: State, steps: seq<Step>): Option<State> {
    if steps == [] then Some(s)
    else
      var before, step := Run(config, s, steps[..|steps| - 1]), steps[|steps| - 1];
      if before.None? || !Enabled(before.value, step) then None else Some(Next(config, before.value, step))
  }

  lemma {:induction false} RunInv(config: Config, s: State, steps: seq<Step>)
    requires Init(s) && Run(config, s, steps).Some?
    ensures Inv(config, Run(config, s, steps).value)
  {
    if steps == [] {
      InitInv(config, s);
    } else {
      RunInv(config, s, steps[..|steps| - 1]);
      NextInv(config, Run(config, s, steps[..|steps| - 1]).value, steps[|steps| - 1]);
    }
  }

  // ---------- Order ----------

  function OfStream(msgs: seq<Msg>, stream: string): seq<Msg> {
    if msgs == [] then []
    else
      var last := msgs[|msgs| - 1];
      OfStream(msgs[..|msgs| - 1], stream) + if last.stream == stream then [last] else []
  }

  // What was not dropped, in order.
  function Kept(routed: seq<Routed>): seq<Msg> {
    if routed == [] then []
    else
      var last := routed[|routed| - 1];
      Kept(routed[..|routed| - 1]) + if last.to.Some? then [last.msg] else []
  }

  lemma {:induction false} OfStreamPrefix(a: seq<Msg>, b: seq<Msg>, stream: string)
    ensures OfStream(a, stream) <= OfStream(a + b, stream)
  {
    if b == [] {
      assert a + b == a;
    } else {
      assert (a + b)[..|a + b| - 1] == a + b[..|b| - 1];
      OfStreamPrefix(a, b[..|b| - 1], stream);
    }
  }

  lemma OfStreamLast(msgs: seq<Msg>, last: Msg, stream: string)
    ensures OfStream(msgs + [last], stream) == OfStream(msgs, stream) + if last.stream == stream then [last] else []
  {
    assert (msgs + [last])[..|msgs|] == msgs;
  }

  /** The kept messages of a stream are, in order, those given to its worker; no other worker
      is given any. */
  lemma {:induction false} OneWorkerEach(config: Config, workers: nat, routed: seq<Routed>, w: nat, stream: string)
    requires forall i {:trigger routed[i]} :: 0 <= i < |routed| ==> RightWorker(config, workers, routed[i])
    ensures OfStream(GivenTo(routed, w), stream) ==
            if GetWorker(config, workers, stream) == Some(w) then OfStream(Kept(routed), stream) else []
  {
    if routed != [] {
      var before, last := routed[..|routed| - 1], routed[|routed| - 1];
      OneWorkerEach(config, workers, before, w, stream);
      assert RightWorker(config, workers, last);
      OfStreamLast(GivenTo(before, w), last.msg, stream);
      OfStreamLast(Kept(before), last.msg, stream);
      assert GivenTo(before, w) + [] == GivenTo(before, w) && Kept(before) + [] == Kept(before);
      assert OfStream(GivenTo(before, w), stream) + [] == OfStream(GivenTo(before, w), stream);
    }
  }

  /** In every run: no pop finds its queue empty; the server deals with the messages in the
      order they entered its queue; and what a worker has handled of a stream is a prefix of
      the stream's messages that were not dropped, in that order, if it is the stream's
      worker, and nothing if it is not. */
  lemma HandledInOrder(config: Config, s: State, steps: seq<Step>, w: nat, stream: string)
    requires Init(s) && Run(config, s, steps).Some? && w < |Run(config, s, steps).value.workers|
    ensures var e := Run(config, s, steps).value;
            && e.missed == 0
            && Messages(e.routed) <= e.entered
            && OfStream(e.workers[w].handled, stream) <=
               if GetWorker(config, |e.workers|, stream) == Some(w) then OfStream(Kept(e.routed), stream) else []
  {
    RunInv(config, s, steps);
    var e := Run(config, s, steps).value;
    OneWorkerEach(config, |e.workers|, e.routed, w, stream);
    assert e.workers[w].handled + e.workers[w].queue == GivenTo(e.routed, w);
    OfStreamPrefix(e.workers[w].handled, e.workers[w].queue, stream);
    assert Messages(e.routed) <= Messages(e.routed) + Held(e.server);
  }

  // ---------- Nothing is stranded ----------

  /** No thread is in the middle of a hand-over and no notification is unread. */
  ghost predicate Quiet(s: State) {
    && (forall t :: 0 <= t < |s.senders| ==> s.senders[t] == Idle)
    && s.pipe == 0 && s.server == Waiting
    && (forall w {:trigger s.workers[w]} :: 0 <= w < |s.workers| ==> s.workers[w].pipe == 0 && !s.workers[w].busy)
  }

  /** When all is quiet everything that entered was dropped or handled, in order. */
  lemma QuietMeansDone(config: Config, s: State, steps: seq<Step>, w: nat, stream: string)
    requires Init(s) && Run(config, s, steps).Some? && w < |Run(config, s, steps).value.workers|
    requires Quiet(Run(config, s, steps).value)
    ensures var e := Run(config, s, steps).value;
            && e.entered == Messages(e.routed)
            && e.workers[w].handled == GivenTo(e.routed, w)
            && OfStream(e.workers[w].handled, stream) ==
               if GetWorker(config, |e.workers|, stream) == Some(w) then OfStream(Kept(e.routed), stream) else []
  {
    RunInv(config, s, steps);
    var e := Run(config, s, steps).value;
    NobodyNotifies(e.senders);
    assert e.queue == [];
    assert WorkerCounts(e.server, e.workers[w], w);
    assert e.workers[w].queue == [];
    OneWorkerEach(config, |e.workers|, e.routed, w, stream);
  }

  // How many steps a worker has left.
  function WorkerWork(workers: seq<Worker>): nat {
    if workers == [] then 0
    else 2 * workers[0].pipe + (if workers[0].busy then 1 else 0) + WorkerWork(workers[1..])
  }

  lemma {:induction false} WorkerWorkUpdate(workers: seq<Worker>, w: nat, now: Worker)
    requires w < |workers|
    ensures WorkerWork(workers[w := now]) ==
            WorkerWork(workers) + 2 * (now.pipe - workers[w].pipe) +
            (if now.busy then 1 else 0) - (if workers[w].busy then 1 else 0)
  {
    if w > 0 {
      assert workers[w := now][1..] == workers[1..][w - 1 := now];
      WorkerWorkUpdate(workers[1..], w - 1, now);
    } else {
      assert workers[0 := now][1..] == workers[1..];
    }
  }

  function ServerWork(server: Server): nat {
    match server
    case Waiting => 0
    case MustPop => 1
    case MustRoute(_) => 4
    case MustNotifyWorker(_) => 3
  }

  /** A bound on the number of steps until all is quiet, unless more is sent. */
  function Work(s: State): nat {
    3 * Notifying(s.senders) + 2 * s.pipe + 4 * |s.queue| + ServerWork(s.server) + WorkerWork(s.workers)
  }

  /** Every step but a new message brings all closer to quiet. */
  lemma StepsWork(config: Config, s: State, step: Step)
    requires Inv(config, s) && Enabled(s, step) && !step.Push?
    ensures Work(Next(config, s, step)) < Work(s)
  {
    var s' := Next(config, s, step);
    match step {
      case Notify(t) => NotifyingUpdate(s.senders, t, Idle);
      case ServerRoute(_) =>
        if s'.server.MustNotifyWorker? {
          WorkerWorkUpdate(s.workers, s'.server.w, s'.workers[s'.server.w]);
        }
      case ServerNotify => WorkerWorkUpdate(s.workers, s.server.w, s'.workers[s.server.w]);
      case WorkerRead(w) => WorkerWorkUpdate(s.workers, w, s'.workers[w]);
      case WorkerPop(w) => WorkerWorkUpdate(s.workers, w, s'.workers[w]);
      case _ =>
    }
  }

  /** Until all is quiet some step other than a new message is possible. */
  lemma SomethingToDo(config: Config, s: State) returns (step: Step)
    requires Inv(config, s) && !Quiet(s)
    ensures Enabled(s, step) && !step.Push?
  {
    if t :| 0 <= t < |s.senders| && s.senders[t] != Idle {
      step := Notify(t);
    } else if w :| 0 <= w < |s.workers| && (s.workers[w].pipe > 0 || s.workers[w].busy) {
      step := if s.workers[w].busy then WorkerPop(w) else WorkerRead(w);
    } else {
      step := match s.server
        case Waiting => ServerRead
        case MustPop => ServerPop
        case MustRoute(_) => ServerRoute(true)
        case MustNotifyWorker(_) => ServerNotify;
    }
  }

  lemma RunOneMore(config: Config, s: State, steps: seq<Step>, step: Step)
    requires Run(config, s, steps).Some? && Enabled(Run(config, s, steps).value, step)
    ensures Run(config, s, steps + [step]) == Some(Next(config, Run(config, s, steps).value, step))
  {
    assert (steps + [step])[..|steps|] == steps;
  }

  /** Every run can be completed, with no new message, to one where all is quiet ... */
  lemma {:induction false} Completes(config: Config, s: State, steps: seq<Step>) returns (more: seq<Step>)
    requires Init(s) && Run(config, s, steps).Some?
    ensures Run(config, s, steps + more).Some? && Quiet(Run(config, s, steps + more).value)
    ensures forall step :: step in more ==> !step.Push?
    decreases Work(Run(config, s, steps).value)
  {
    var e := Run(config, s, steps).value;
    if Quiet(e) {
      more := [];
      assert steps + more == steps;
    } else {
      RunInv(config, s, steps);
      var step := SomethingToDo(config, e);
      StepsWork(config, e, step);
      RunOneMore(config, s, steps, step);
      var rest := Completes(config, s, steps + [step]);
      more := [step] + rest;
      assert steps + more == steps + [step] + rest;
    }
  }

  /** ... and no way of continuing it without new messages is longer than Work says. */
  lemma {:induction false} NoEndlessRun(config: Config, s: State, steps: seq<Step>, more: seq<Step>)
    requires Init(s) && Run(config, s, steps + more).Some?
    requires forall step :: step in more ==> !step.Push?
    ensures Run(config, s, steps).Some?
    ensures |more| + Work(Run(config, s, steps + more).value) <= Work(Run(config, s, steps).value)
  {
    if more == [] {
      assert steps + more == steps;
    } else {
      var before, step := more[..|more| - 1], more[|more| - 1];
      assert (steps + more)[..|steps + more| - 1] == steps + before;
      assert step in more;
      NoEndlessRun(config, s, steps, before);
      RunInv(config, s, steps + before);
      StepsWork(config, Run(config, s, steps + before).value, step);
    }
  }
}
