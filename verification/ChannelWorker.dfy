/** The Socket.IO channel service: publishers, Start, Stop and the worker goroutines interleaved in any
    way. The mutex makes Start and the first half of Stop atomic; the second half of Stop waits. */
module ChannelWorker {

  /** Where a worker goroutine is: in the outer select, holding a message taken there, in the draining
      select, holding a message taken there, or returned. */
  datatype Phase<M> = Selecting | Sending(msg: M) | Draining | DrainSending(msg: M) | Done

  datatype State<M> = State(
    capacity: nat,
    buffer: seq<M>,
    started: bool,
    stopClosed: bool,
    panicked: bool,
    workers: seq<Phase<M>>,
    accepted: seq<M>,        // every message a send put into the channel, in order
    dispatched: seq<M>)      // every message given to dispatch, in order of completion

  function NewService<M>(bufferSize: int): State<M> {
    State(if bufferSize <= 0 then 1024 else bufferSize, [], false, false, false, [], [], [])
  }

  datatype Action<M> =
    | Start
    | StopSignal                       // a Stop that finds the service started, up to the unlock: it closes the
                                       // stop channel and will wait; closing a closed channel panics
    | StopIdle                         // a Stop that finds the service not started: it returns at once
    | StopReturns                      // the Stop that closed the channel has waited and returns
    | Publish(msg: M, ok: bool)        // non-blocking send and its result
    | Send(msg: M)                     // a blocking send on Channel(), once there is room
    | SeeStop(worker: nat)
    | Take(worker: nat)
    | Dispatch(worker: nat)
    | Exit(worker: nat)

  function Accept<M>(s: State<M>, m: M): State<M> {
    s.(buffer := s.buffer + [m], accepted := s.accepted + [m])
  }

  /** A selecting or draining worker with a message in hand. */
  function Taken<M>(p: Phase<M>, msg: M): Phase<M> {
    if p.Selecting? then Sending(msg) else DrainSending(msg)
  }

  function AfterStart<M>(s: State<M>): State<M> {
    if s.started then s else s.(started := true, workers := s.workers + [Selecting])
  }

  function AfterStopSignal<M>(s: State<M>): State<M> {
    if s.stopClosed then s.(started := false, panicked := true)
    else s.(started := false, stopClosed := true)
  }

  ghost predicate Step<M>(s: State<M>, a: Action<M>, s': State<M>) {
    !s.panicked &&
    match a
    case Start => s' == AfterStart(s)
    case StopSignal => s.started && s' == AfterStopSignal(s)
    case StopIdle => !s.started && s' == s
    case StopReturns => s.stopClosed && (forall i :: 0 <= i < |s.workers| ==> s.workers[i].Done?) && s' == s
    case Publish(m, ok) => ok == (|s.buffer| < s.capacity) && s' == if ok then Accept(s, m) else s
    case Send(m) => |s.buffer| < s.capacity && s' == Accept(s, m)
    case SeeStop(w) => w < |s.workers| && s.workers[w].Selecting? && s.stopClosed
                       && s' == s.(workers := s.workers[w := Draining])
    case Take(w) => w < |s.workers| && (s.workers[w].Selecting? || s.workers[w].Draining?) && s.buffer != []
                    && s' == s.(buffer := s.buffer[1..],
                                workers := s.workers[w := Taken(s.workers[w], s.buffer[0])])
    case Dispatch(w) => w < |s.workers| && (s.workers[w].Sending? || s.workers[w].DrainSending?)
                        && s' == s.(dispatched := s.dispatched + [s.workers[w].msg],
                                    workers := s.workers[w := if s.workers[w].Sending? then Selecting else Draining])
    case Exit(w) => w < |s.workers| && s.workers[w].Draining? && s.buffer == []
                    && s' == s.(workers := s.workers[w := Done])
  }

  datatype Run<M> = Run(states: seq<State<M>>, actions: seq<Action<M>>)

  ghost predicate Valid<M>(run: Run<M>) {
    && |run.states| == |run.actions| + 1
    && (exists bufferSize :: run.states[0] == NewService<M>(bufferSize))
    && forall i :: 0 <= i < |run.actions| ==> Step(run.states[i], run.actions[i], run.states[i + 1])
  }

  /******* Every run: nothing is lost or duplicated *******/

  function Held<M>(p: Phase<M>): seq<M> {
    if p.Sending? || p.DrainSending? then [p.msg] else []
  }

  predicate Holds<M(==)>(p: Phase<M>, m: M) {
    (p.Sending? || p.DrainSending?) && p.msg == m
  }

  /** How many workers hold a message equal to m. */
  function HeldCount<M(==)>(workers: seq<Phase<M>>, m: M): nat {
    if workers == [] then 0
    else HeldCount(workers[..|workers| - 1], m) + (if Holds(workers[|workers| - 1], m) then 1 else 0)
  }

  ghost predicate Conserved<M>(s: State<M>, m: M) {
    && |s.buffer| <= s.capacity && s.capacity > 0
    && multiset(s.accepted)[m] == multiset(s.dispatched)[m] + HeldCount(s.workers, m) + multiset(s.buffer)[m]
  }

  lemma {:induction false} HeldCountUpdate<M>(workers: seq<Phase<M>>, w: nat, p: Phase<M>, m: M)
    requires w < |workers|
    ensures HeldCount(workers[w := p], m) + (if Holds(workers[w], m) then 1 else 0)
         == HeldCount(workers, m) + (if Holds(p, m) then 1 else 0)
  {
    var n, updated := |workers| - 1, workers[w := p];
    if w == n {
      assert updated[..n] == workers[..n];
    } else {
      assert updated[..n] == workers[..n][w := p];
      HeldCountUpdate(workers[..n], w, p, m);
    }
  }

  lemma HeadCount<M>(buffer: seq<M>, m: M)
    requires buffer != []
    ensures multiset(buffer)[m] == multiset(buffer[1..])[m] + if buffer[0] == m then 1 else 0
  {
    assert buffer == [buffer[0]] + buffer[1..];
  }

  lemma ConservedWorkerStep<M>(s: State<M>, a: Action<M>, s': State<M>, m: M)
    requires Step(s, a, s') && IsWorkerAction(a) && Conserved(s, m)
    ensures Conserved(s', m) && s'.capacity == s.capacity
  {
    HeldCountUpdate(s.workers, a.worker, s'.workers[a.worker], m);
    if a.Take? {
      HeadCount(s.buffer, m);
    }
  }

  lemma ConservedAccept<M>(s: State<M>, msg: M, m: M)
    requires Conserved(s, m) && |s.buffer| < s.capacity
    ensures Conserved(Accept(s, msg), m)
  {
  }

  lemma ConservedStart<M>(s: State<M>, m: M)
    requires Conserved(s, m)
    ensures Conserved(AfterStart(s), m)
  {
    assert (s.workers + [Selecting])[..|s.workers|] == s.workers;
  }

  lemma ConservedStep<M>(s: State<M>, a: Action<M>, s': State<M>, m: M)
    requires Step(s, a, s') && Conserved(s, m)
    ensures Conserved(s', m) && s'.capacity == s.capacity
  {
    if IsWorkerAction(a) {
      ConservedWorkerStep(s, a, s', m);
    } else if a.Start? {
      ConservedStart(s, m);
    } else if s' == s {
    } else if a.StopSignal? {
      assert s'.workers == s.workers && s'.buffer == s.buffer;
    } else {
      ConservedAccept(s, a.msg, m);
    }
  }

  /** In every run, with any number of Start and Stop calls: every message was accepted as often as it was
      dispatched, is held by a worker and is buffered, and the buffer never exceeds its capacity. */
  lemma {:induction false} ConservedOverRuns<M>(run: Run<M>, n: nat, m: M)
    requires Valid(run) && n <= |run.actions|
    ensures Conserved(run.states[n], m) && run.states[n].capacity == run.states[0].capacity
  {
    if n > 0 {
      ConservedOverRuns(run, n - 1, m);
      assert Step(run.states[n - 1], run.actions[n - 1], run.states[n - 1 + 1]);
      ConservedStep(run.states[n - 1], run.actions[n - 1], run.states[n], m);
    }
  }

  /** The buffer has the size asked for, or 1024 messages when that is not positive. */
  lemma CapacityAskedFor<M>(run: Run<M>, n: nat, bufferSize: int, m: M)
    requires Valid(run) && n <= |run.actions| && run.states[0] == NewService<M>(bufferSize)
    ensures run.states[n].capacity == if bufferSize > 0 then bufferSize else 1024
  {
    ConservedOverRuns(run, n, m);
  }

  /******* Restarting *******/

  /** Start takes effect although the stop channel is already closed. */
  ghost predicate Restarts<M>(s: State<M>, a: Action<M>) {
    a.Start? && !s.started && s.stopClosed
  }

  ghost predicate SingleCycle<M>(run: Run<M>)
    requires Valid(run)
  {
    forall i :: 0 <= i < |run.actions| ==> !Restarts(run.states[i], run.actions[i])
  }

  /** Started again after a close, the next Stop closes twice. */
  lemma {:induction false} StartedAndClosed<M>(run: Run<M>, n: nat)
    requires Valid(run) && n <= |run.actions|
    ensures run.states[n].started && run.states[n].stopClosed
       ==> exists m :: 0 <= m < n && Restarts(run.states[m], run.actions[m])
    ensures run.states[n].panicked
       ==> exists m, k :: 0 <= m < k < n && Restarts(run.states[m], run.actions[m]) && run.actions[k].StopSignal?
  {
    if n > 0 {
      StartedAndClosed(run, n - 1);
      assert Step(run.states[n - 1], run.actions[n - 1], run.states[n - 1 + 1]);
    }
  }

  lemma {:induction false} RestartedUntilStop<M>(run: Run<M>, m: nat, n: nat)
    requires Valid(run) && m < n <= |run.actions| && Restarts(run.states[m], run.actions[m])
    requires forall k :: m < k < n ==> !run.actions[k].StopSignal?
    ensures run.states[n].started && run.states[n].stopClosed
  {
    assert Step(run.states[n - 1], run.actions[n - 1], run.states[n - 1 + 1]);
    if n - 1 > m {
      RestartedUntilStop(run, m, n - 1);
    }
  }

  /** The stop channel is closed twice exactly in the runs where a Start took effect after a close and a
      Stop followed it. */
  lemma DoubleCloseIff<M>(run: Run<M>)
    requires Valid(run)
    ensures run.states[|run.actions|].panicked <==>
      exists m, k :: 0 <= m < k < |run.actions| && Restarts(run.states[m], run.actions[m]) && run.actions[k].StopSignal?
  {
    StartedAndClosed(run, |run.actions|);
    if m, k :| 0 <= m < k < |run.actions| && Restarts(run.states[m], run.actions[m]) && run.actions[k].StopSignal? {
      FirstStopPanics(run, m, k);
    }
  }

  lemma {:induction false} FirstStopPanics<M>(run: Run<M>, m: nat, k: nat)
    requires Valid(run) && m < k < |run.actions| && Restarts(run.states[m], run.actions[m])
      && run.actions[k].StopSignal?
    ensures run.states[|run.actions|].panicked
    decreases k
  {
    if j :| m < j < k && run.actions[j].StopSignal? {
      FirstStopPanics(run, m, j);
    } else {
      RestartedUntilStop(run, m, k);
      assert Step(run.states[k], run.actions[k], run.states[k + 1]);
      assert k + 1 < |run.actions| ==> Step(run.states[k + 1], run.actions[k + 1], run.states[k + 1 + 1]);
    }
  }

  /******* One Start/Stop cycle: order *******/

  ghost predicate InOrder<M>(s: State<M>) {
    && !s.panicked && |s.workers| <= 1
    && (s.started ==> !s.stopClosed) && (s.workers == [] <==> !s.started && !s.stopClosed)
    && (|s.workers| == 1 && s.workers[0] !in {Selecting} && !s.workers[0].Sending? ==> s.stopClosed)
  }

  /** The accepted messages are the dispatched ones, then at most one in flight, then the buffer. While a
      worker has not returned, that is all; afterwards nothing is in flight. */
  ghost predicate Fifo<M>(s: State<M>) {
    && InOrder(s)
    && s.accepted == s.dispatched + (if |s.workers| == 1 then Held(s.workers[0]) else []) + s.buffer
  }

  lemma FifoStep<M>(s: State<M>, a: Action<M>, s': State<M>)
    requires Step(s, a, s') && Fifo(s) && !Restarts(s, a)
    ensures Fifo(s')
  {
    if a.Take? {
      assert s.buffer == [s.buffer[0]] + s.buffer[1..];
    }
  }

  /** In every interleaving of publishers, Stop and the worker within one Start/Stop cycle: first in, first
      out, no loss, no duplicate; at most one worker; the stop channel closed at most once. */
  lemma {:induction false} FifoOverRuns<M>(run: Run<M>, n: nat)
    requires Valid(run) && SingleCycle(run) && n <= |run.actions|
    ensures Fifo(run.states[n])
  {
    if n > 0 {
      FifoOverRuns(run, n - 1);
      assert Step(run.states[n - 1], run.actions[n - 1], run.states[n - 1 + 1]);
      FifoStep(run.states[n - 1], run.actions[n - 1], run.states[n]);
    }
  }

  /******* Every run: refusals *******/

  /** How many workers hold a message. */
  function HeldTotal<M>(workers: seq<Phase<M>>): nat {
    if workers == [] then 0 else HeldTotal(workers[..|workers| - 1]) + |Held(workers[|workers| - 1])|
  }

  lemma {:induction false} HeldTotalUpdate<M>(workers: seq<Phase<M>>, w: nat, p: Phase<M>)
    requires w < |workers|
    ensures HeldTotal(workers[w := p]) + |Held(workers[w])| == HeldTotal(workers) + |Held(p)|
  {
    var n, updated := |workers| - 1, workers[w := p];
    if w == n {
      assert updated[..n] == workers[..n];
    } else {
      assert updated[..n] == workers[..n][w := p];
      HeldTotalUpdate(workers[..n], w, p);
    }
  }

  /** Accepted, and not dispatched: in a worker's hand or in the buffer. */
  ghost predicate Counted<M>(s: State<M>) {
    |s.accepted| == |s.dispatched| + HeldTotal(s.workers) + |s.buffer|
  }

  lemma CountedWorkerStep<M>(s: State<M>, a: Action<M>, s': State<M>)
    requires Step(s, a, s') && Counted(s) && IsWorkerAction(a)
    ensures Counted(s')
  {
    HeldTotalUpdate(s.workers, a.worker, s'.workers[a.worker]);
  }

  lemma CountedStart<M>(s: State<M>)
    requires Counted(s)
    ensures Counted(AfterStart(s))
  {
    assert (s.workers + [Selecting])[..|s.workers|] == s.workers;
  }

  lemma CountedAccept<M>(s: State<M>, m: M)
    requires Counted(s)
    ensures Counted(Accept(s, m))
  {
  }

  lemma CountedStep<M>(s: State<M>, a: Action<M>, s': State<M>)
    requires Step(s, a, s') && Counted(s)
    ensures Counted(s')
  {
    if IsWorkerAction(a) {
      CountedWorkerStep(s, a, s');
    } else if a.Start? {
      CountedStart(s);
    } else if a.Publish? || a.Send? {
      CountedAccept(s, a.msg);
    } else {
      assert s'.workers == s.workers;
    }
  }

  lemma {:induction false} CountedOverRuns<M>(run: Run<M>, n: nat)
    requires Valid(run) && n <= |run.actions|
    ensures Counted(run.states[n])
  {
    if n > 0 {
      CountedOverRuns(run, n - 1);
      assert Step(run.states[n - 1], run.actions[n - 1], run.states[n - 1 + 1]);
      CountedStep(run.states[n - 1], run.actions[n - 1], run.states[n]);
    }
  }

  /** In every run, Publish refuses a message exactly when as many messages as the buffer holds have been
      accepted and not yet taken by a worker. */
  lemma RefusedIffBacklogFull<M>(run: Run<M>, n: nat)
    requires Valid(run) && n < |run.actions| && run.actions[n].Publish?
    ensures var s := run.states[n];
      !run.actions[n].ok <==> |s.accepted| - |s.dispatched| - HeldTotal(s.workers) == run.states[0].capacity
  {
    ConservedOverRuns(run, n, run.actions[n].msg);
    CountedOverRuns(run, n);
    assert Step(run.states[n], run.actions[n], run.states[n + 1]);
  }

  /******* Stop drains *******/

  /** This step puts a message into the channel. */
  predicate AcceptsMessage<M>(a: Action<M>) {
    a.Send? || (a.Publish? && a.ok)
  }

  ghost predicate QuietBetween<M>(run: Run<M>, i: nat, j: nat)
    requires Valid(run) && j <= |run.actions|
  {
    forall k :: i <= k < j ==> !AcceptsMessage(run.actions[k])
  }

  /** Accepted messages are never forgotten, and there are no new ones exactly when no step in between
      accepted one. */
  lemma {:induction false} AcceptedGrows<M>(run: Run<M>, i: nat, j: nat)
    requires Valid(run) && i <= j <= |run.actions|
    ensures run.states[i].accepted <= run.states[j].accepted
    ensures |run.states[j].accepted| == |run.states[i].accepted| <==> QuietBetween(run, i, j)
  {
    if i < j {
      AcceptedGrows(run, i, j - 1);
      assert Step(run.states[j - 1], run.actions[j - 1], run.states[j - 1 + 1]);
      if AcceptsMessage(run.actions[j - 1]) {
        assert |run.states[j].accepted| == |run.states[j - 1].accepted| + 1;
      } else {
        assert run.states[j].accepted == run.states[j - 1].accepted;
      }
    }
  }

  /** The worker left its drain loop at action e. */
  ghost predicate ExitsAt<M>(run: Run<M>, e: nat)
    requires Valid(run)
  {
    e < |run.actions| && run.actions[e].Exit?
  }

  ghost predicate WorkerDone<M>(s: State<M>) {
    |s.workers| == 1 && s.workers[0].Done?
  }

  /** What the worker has dispatched when it leaves its drain loop is all it will ever dispatch: exactly the
      messages accepted until then. Whatever is accepted later stays in the buffer. */
  lemma {:induction false} ExitIsFinal<M>(run: Run<M>, e: nat, n: nat)
    requires Valid(run) && SingleCycle(run) && ExitsAt(run, e) && e < n <= |run.actions|
    ensures WorkerDone(run.states[n])
    ensures run.states[n].dispatched == run.states[e].accepted
    ensures run.states[n].accepted == run.states[e].accepted + run.states[n].buffer
  {
    var s, a, s' := run.states[n - 1], run.actions[n - 1], run.states[n - 1 + 1];
    assert Step(s, a, s');
    FifoOverRuns(run, n - 1);
    FifoOverRuns(run, n);
    if n - 1 == e {
      assert s.accepted == s.dispatched;
    } else {
      ExitIsFinal(run, e, n - 1);
      assert s'.dispatched == s.dispatched;
    }
  }

  lemma {:induction false} DoneMeansExited<M>(run: Run<M>, n: nat) returns (e: nat)
    requires Valid(run) && SingleCycle(run) && n <= |run.actions| && WorkerDone(run.states[n])
    ensures e < n && ExitsAt(run, e)
  {
    assert n > 0;
    var s, a := run.states[n - 1], run.actions[n - 1];
    assert Step(s, a, run.states[n - 1 + 1]);
    FifoOverRuns(run, n - 1);
    if a.Exit? {
      e := n - 1;
    } else {
      assert WorkerDone(s);
      e := DoneMeansExited(run, n - 1);
    }
  }

  lemma {:induction false} ClosedStaysClosed<M>(run: Run<M>, i: nat, j: nat)
    requires Valid(run) && i <= j <= |run.actions| && run.states[i].stopClosed
    ensures run.states[j].stopClosed
  {
    if i < j {
      ClosedStaysClosed(run, i, j - 1);
      assert Step(run.states[j - 1], run.actions[j - 1], run.states[j - 1 + 1]);
    }
  }

  lemma ReturnMeansDone<M>(run: Run<M>, n: nat)
    requires Valid(run) && SingleCycle(run) && n < |run.actions| && run.actions[n].StopReturns?
    ensures WorkerDone(run.states[n])
  {
    FifoOverRuns(run, n);
    assert Step(run.states[n], run.actions[n], run.states[n + 1]);
  }

  /** When the Stop that closed the channel returns, the worker has left at some action e. Everything accepted
      before e is dispatched, in order, and everything accepted is dispatched exactly when no message was
      accepted between e and the return. */
  lemma StopReturnsDrained<M>(run: Run<M>, n: nat)
    requires Valid(run) && SingleCycle(run) && n < |run.actions| && run.actions[n].StopReturns?
    ensures exists e :: 0 <= e < n && DrainedAt(run, e, n)
  {
    ReturnMeansDone(run, n);
    var e := DoneMeansExited(run, n);
    ExitIsFinal(run, e, n);
    AcceptedGrows(run, e, n);
    assert DrainedAt(run, e, n);
  }

  ghost predicate DrainedAt<M>(run: Run<M>, e: nat, n: nat)
    requires Valid(run) && n <= |run.actions|
  {
    && ExitsAt(run, e)
    && run.states[n].dispatched == run.states[e].accepted
    && (run.states[n].dispatched == run.states[n].accepted <==> QuietBetween(run, e, n))
  }

  /** The guarantee in terms of what callers do: if nobody sends once the channel is closed, the Stop that
      closed it returns with every accepted message dispatched, in every interleaving. */
  lemma QuietStopDeliversAll<M>(run: Run<M>, p: nat, n: nat)
    requires Valid(run) && SingleCycle(run) && p < n < |run.actions|
    requires run.actions[p].StopSignal? && run.actions[n].StopReturns? && QuietBetween(run, p, n)
    ensures run.states[n].dispatched == run.states[n].accepted
  {
    ReturnMeansDone(run, n);
    var e := DoneMeansExited(run, n);
    FifoOverRuns(run, p);
    FifoOverRuns(run, e);
    assert Step(run.states[p], run.actions[p], run.states[p + 1]);
    assert Step(run.states[e], run.actions[e], run.states[e + 1]);
    assert p < e by {
      if e <= p {
        ClosedStaysClosed(run, e, p);
      }
    }
    ExitIsFinal(run, e, n);
    AcceptedGrows(run, e, n);
  }

  /** A Publish after the worker has left, before Stop returns: accepted, and never dispatched. */
  ghost function LatePublishRun<M>(m: M): Run<M> {
    var s0 := NewService(1);
    var s1 := s0.(started := true, workers := [Selecting]);
    var s2 := s1.(started := false, stopClosed := true);
    var s3 := s2.(workers := [Draining]);
    var s4 := s3.(workers := [Done]);
    var s5 := s4.(buffer := [m], accepted := [m]);
    Run([s0, s1, s2, s3, s4, s5, s5], [Start, StopSignal, SeeStop(0), Exit(0), Publish(m, true), StopReturns])
  }

  lemma LatePublishIsLost<M>(m: M)
    ensures var run := LatePublishRun(m);
      && Valid(run) && SingleCycle(run) && run.actions[4] == Publish(m, true) && run.actions[5].StopReturns?
      && run.states[6].accepted == [m] && run.states[6].dispatched == []
  {
    var run := LatePublishRun(m);
    assert run.states[0] == NewService<M>(1);
    assert Step(run.states[0], run.actions[0], run.states[1]);
    assert Step(run.states[1], run.actions[1], run.states[2]);
    assert Step(run.states[2], run.actions[2], run.states[3]);
    assert Step(run.states[3], run.actions[3], run.states[4]);
    assert Step(run.states[4], run.actions[4], run.states[5]);
    assert Step(run.states[5], run.actions[5], run.states[6]);
  }

  /** A second Stop, while the first still waits, returns at once with messages undelivered: the guarantee
      belongs to the Stop that closed the channel. */
  ghost function SecondStopRun<M>(m: M): Run<M> {
    var s0 := NewService(1);
    var s1 := s0.(started := true, workers := [Selecting]);
    var s2 := s1.(buffer := [m], accepted := [m]);
    var s3 := s2.(started := false, stopClosed := true);
    Run([s0, s1, s2, s3, s3], [Start, Publish(m, true), StopSignal, StopIdle])
  }

  lemma SecondStopReturnsEarly<M>(m: M)
    ensures var run := SecondStopRun(m);
      && Valid(run) && SingleCycle(run) && run.actions[2].StopSignal? && run.actions[3].StopIdle?
      && run.states[4].accepted == [m] && run.states[4].dispatched == []
  {
    var run := SecondStopRun(m);
    assert run.states[0] == NewService<M>(1);
    assert Step(run.states[0], run.actions[0], run.states[1]);
    assert Step(run.states[1], run.actions[1], run.states[2]);
    assert Step(run.states[2], run.actions[2], run.states[3]);
    assert Step(run.states[3], run.actions[3], run.states[4]);
  }

  /******* Termination after the stop signal *******/

  /** How many more steps the worker can take when nobody publishes. */
  function Remaining<M>(p: Phase<M>, buffered: nat): nat {
    match p
    case Selecting => 2 * buffered + 2
    case Sending(_) => 2 * buffered + 3
    case Draining => 2 * buffered + 1
    case DrainSending(_) => 2 * buffered + 2
    case Done => 0
  }

  predicate IsWorkerAction<M>(a: Action<M>) {
    a.SeeStop? || a.Take? || a.Dispatch? || a.Exit?
  }

  /** Steps in a row, from any state. */
  ghost predicate Steps<M>(states: seq<State<M>>, actions: seq<Action<M>>) {
    && |states| == |actions| + 1
    && forall i :: 0 <= i < |actions| ==> Step(states[i], actions[i], states[i + 1])
  }

  ghost predicate NoStart<M>(actions: seq<Action<M>>) {
    forall i :: 0 <= i < |actions| ==> !actions[i].Start?
  }

  ghost predicate WorkerSteps<M>(states: seq<State<M>>, actions: seq<Action<M>>) {
    Steps(states, actions) && forall i :: 0 <= i < |actions| ==> IsWorkerAction(actions[i])
  }

  /** After the stop signal, with no further publishing, the worker returns whatever its selects choose:
      each of its steps uses up one of at most 2 * |buffer| + 3. */
  lemma {:induction false} WorkerTerminates<M>(states: seq<State<M>>, actions: seq<Action<M>>)
    requires WorkerSteps(states, actions) && |states[0].workers| == 1
    ensures |states[|actions|].workers| == 1
    ensures |actions| + Remaining(states[|actions|].workers[0], |states[|actions|].buffer|) <=
            Remaining(states[0].workers[0], |states[0].buffer|) <= 2 * |states[0].buffer| + 3
    decreases |actions|
  {
    var n := |actions|;
    if n > 0 {
      assert WorkerSteps(states[..n], actions[..n - 1]);
      WorkerTerminates(states[..n], actions[..n - 1]);
      assert Step(states[n - 1], actions[n - 1], states[n - 1 + 1]);
      assert states[..n][n - 1] == states[n - 1];
    }
  }

  function NextWorkerAction<M>(s: State<M>): Action<M>
    requires |s.workers| == 1
  {
    match s.workers[0]
    case Selecting => SeeStop(0)
    case Sending(_) => Dispatch(0)
    case Draining => if s.buffer == [] then Exit(0) else Take(0)
    case DrainSending(_) => Dispatch(0)
    case Done => StopReturns
  }

  /** After the stop signal the worker is never blocked until it has returned. */
  lemma WorkerNeverBlocks<M>(s: State<M>)
    requires Fifo(s) && s.stopClosed
    ensures |s.workers| == 1 && exists s' :: Step(s, NextWorkerAction(s), s')
  {
    var a := NextWorkerAction(s);
    match s.workers[0]
    case Selecting => assert Step(s, a, s.(workers := s.workers[0 := Draining]));
    case Sending(m) => assert Step(s, a, s.(dispatched := s.dispatched + [m], workers := s.workers[0 := Selecting]));
    case Draining =>
      if s.buffer == [] {
        assert Step(s, a, s.(workers := s.workers[0 := Done]));
      } else {
        assert Step(s, a, s.(buffer := s.buffer[1..], workers := s.workers[0 := DrainSending(s.buffer[0])]));
      }
    case DrainSending(m) =>
      assert Step(s, a, s.(dispatched := s.dispatched + [m], workers := s.workers[0 := Draining]));
    case Done => assert Step(s, a, s);
  }

  /******* Order over every run, restarts included *******/

  /** Start takes effect while a worker has not returned yet. */
  ghost predicate Overlaps<M>(s: State<M>, a: Action<M>) {
    a.Start? && !s.started && exists i :: 0 <= i < |s.workers| && !s.workers[i].Done?
  }

  ghost predicate NoOverlap<M>(run: Run<M>)
    requires Valid(run)
  {
    forall i :: 0 <= i < |run.actions| ==> !Overlaps(run.states[i], run.actions[i])
  }

  /** All workers but the last have returned, and the accepted messages are the dispatched ones, then what the
      last worker holds, then the buffer. */
  ghost predicate InTurn<M>(s: State<M>) {
    && (forall i :: 0 <= i < |s.workers| - 1 ==> s.workers[i].Done?)
    && s.accepted == s.dispatched + (if s.workers == [] then [] else Held(s.workers[|s.workers| - 1])) + s.buffer
  }

  /** A worker step moves messages on from the buffer to the hand to the trace, in order. */
  lemma WorkerMovesOn<M>(s: State<M>, a: Action<M>, s': State<M>)
    requires Step(s, a, s') && IsWorkerAction(a)
    ensures var w := a.worker;
      s'.dispatched + Held(s'.workers[w]) + s'.buffer == s.dispatched + Held(s.workers[w]) + s.buffer
  {
    if a.Take? {
      assert s.buffer == [s.buffer[0]] + s.buffer[1..];
    }
  }

  lemma InTurnWorkerStep<M>(s: State<M>, a: Action<M>, s': State<M>)
    requires Step(s, a, s') && InTurn(s) && IsWorkerAction(a)
    ensures InTurn(s')
  {
    assert a.worker == |s.workers| - 1 == |s'.workers| - 1;
    assert forall i :: 0 <= i < a.worker ==> s'.workers[i] == s.workers[i];
    WorkerMovesOn(s, a, s');
    assert s'.accepted == s.accepted;
  }

  lemma InTurnStart<M>(s: State<M>)
    requires InTurn(s) && !Overlaps(s, Start)
    ensures InTurn(AfterStart(s))
  {
    if !s.started {
      assert forall i :: 0 <= i < |s.workers| ==> s.workers[i].Done?;
    }
  }

  lemma InTurnAccept<M>(s: State<M>, m: M)
    requires InTurn(s)
    ensures InTurn(Accept(s, m))
  {
  }

  lemma InTurnStep<M>(s: State<M>, a: Action<M>, s': State<M>)
    requires Step(s, a, s') && InTurn(s) && !Overlaps(s, a)
    ensures InTurn(s')
  {
    if IsWorkerAction(a) {
      InTurnWorkerStep(s, a, s');
    } else if a.Start? {
      InTurnStart(s);
    } else if a.Publish? || a.Send? {
      InTurnAccept(s, a.msg);
    } else {
      assert s'.workers == s.workers && s'.buffer == s.buffer;
    }
  }

  lemma {:induction false} InTurnOverRuns<M>(run: Run<M>, n: nat)
    requires Valid(run) && NoOverlap(run) && n <= |run.actions|
    ensures InTurn(run.states[n])
  {
    if n > 0 {
      InTurnOverRuns(run, n - 1);
      assert Step(run.states[n - 1], run.actions[n - 1], run.states[n - 1 + 1]);
      InTurnStep(run.states[n - 1], run.actions[n - 1], run.states[n]);
    }
  }

  /** These steps lead from s, without another Start, to a state in which a message was dispatched that was
      not the next one accepted. */
  ghost predicate Reorders<M>(s: State<M>, states: seq<State<M>>, actions: seq<Action<M>>) {
    && Steps(states, actions) && states[0] == s
    && NoStart(actions)
    && !(states[|actions|].dispatched <= states[|actions|].accepted)
  }

  ghost predicate CanReorder<M(!new)>(s: State<M>) {
    exists states, actions :: Reorders(s, states, actions)
  }

  lemma {:induction false} InTurnContinues<M>(states: seq<State<M>>, actions: seq<Action<M>>, n: nat)
    requires Steps(states, actions) && InTurn(states[0]) && n <= |actions|
    requires NoStart(actions)
    ensures InTurn(states[n])
  {
    if n > 0 {
      InTurnContinues(states, actions, n - 1);
      assert Step(states[n - 1], actions[n - 1], states[n - 1 + 1]);
      InTurnStep(states[n - 1], actions[n - 1], states[n]);
    }
  }

  lemma InTurnCannotReorder<M(!new)>(s: State<M>)
    requires InTurn(s)
    ensures !CanReorder(s)
  {
    forall states, actions ensures !Reorders(s, states, actions) {
      if Reorders(s, states, actions) {
        InTurnContinues(states, actions, |actions|);
      }
    }
  }

  lemma ReorderNow<M(!new)>(s: State<M>)
    requires !(s.dispatched <= s.accepted)
    ensures CanReorder(s)
  {
    assert Reorders(s, [s], []);
  }

  lemma ReorderAfter<M(!new)>(s: State<M>, a: Action<M>, t: State<M>)
    requires Step(s, a, t) && !a.Start? && CanReorder(t)
    ensures CanReorder(s)
  {
    var states, actions :| Reorders(t, states, actions);
    var states', actions' := [s] + states, [a] + actions;
    forall i | 0 <= i < |actions'| ensures Step(states'[i], actions'[i], states'[i + 1]) {
      assert i > 0 ==> Step(states[i - 1], actions[i - 1], states[i - 1 + 1]);
    }
    assert states'[|actions'|] == states[|actions|];
    assert Reorders(s, states', actions');
  }

  /** Two different workers that have not returned. */
  ghost predicate TwoLive<M>(s: State<M>, i: nat, j: nat) {
    && !s.panicked && s.capacity > 0 && Counted(s)
    && i < |s.workers| && j < |s.workers| && i != j && !s.workers[i].Done? && !s.workers[j].Done?
  }

  lemma {:induction false} SomebodyHolds<M>(workers: seq<Phase<M>>) returns (w: nat)
    requires HeldTotal(workers) > 0
    ensures w < |workers| && Held(workers[w]) != []
  {
    var n := |workers| - 1;
    if Held(workers[n]) != [] {
      w := n;
    } else {
      w := SomebodyHolds(workers[..n]);
    }
  }

  lemma {:induction false} NobodyHolds<M>(workers: seq<Phase<M>>, w: nat)
    requires HeldTotal(workers) == 0 && w < |workers|
    ensures Held(workers[w]) == []
  {
    var n := |workers| - 1;
    if w < n {
      NobodyHolds(workers[..n], w);
    }
  }

  /** Once every held message is dispatched and the buffer is empty, each of the two takes one of two new
      messages, and the one that took the second dispatches first. */
  lemma {:induction false} TwoLiveCanReorder<M(!new)>(s: State<M>, i: nat, j: nat, a: M, b: M)
    requires TwoLive(s, i, j) && a != b
    ensures CanReorder(s)
    decreases HeldTotal(s.workers) + 2 * |s.buffer|
  {
    if HeldTotal(s.workers) > 0 {
      var w := SomebodyHolds(s.workers);
      var t := Dispatched(s, w);
      HeldTotalUpdate(s.workers, w, t.workers[w]);
      TwoLiveCanReorder(t, i, j, a, b);
      ReorderAfter(s, Dispatch(w), t);
    } else if s.buffer != [] {
      NobodyHolds(s.workers, j);
      var t := TakenBy(s, j);
      HeldTotalUpdate(s.workers, j, t.workers[j]);
      TwoLiveCanReorder(t, i, j, a, b);
      ReorderAfter(s, Take(j), t);
    } else {
      NobodyHolds(s.workers, i);
      NobodyHolds(s.workers, j);
      OvertakeFromRest(s, i, j, a, b);
    }
  }

  function Dispatched<M>(s: State<M>, w: nat): State<M>
    requires w < |s.workers| && Held(s.workers[w]) != []
  {
    s.(dispatched := s.dispatched + [s.workers[w].msg],
       workers := s.workers[w := if s.workers[w].Sending? then Selecting else Draining])
  }

  function TakenBy<M>(s: State<M>, w: nat): State<M>
    requires w < |s.workers| && s.buffer != []
  {
    s.(buffer := s.buffer[1..], workers := s.workers[w := Taken(s.workers[w], s.buffer[0])])
  }

  lemma OvertakeFromRest<M(!new)>(s: State<M>, i: nat, j: nat, a: M, b: M)
    requires TwoLive(s, i, j) && a != b && s.buffer == [] && HeldTotal(s.workers) == 0
    requires Held(s.workers[i]) == [] && Held(s.workers[j]) == []
    ensures CanReorder(s)
  {
    var s1 := Accept(s, a);
    var s2 := TakenBy(s1, i);
    var s3 := Accept(s2, b);
    var s4 := TakenBy(s3, j);
    var s5 := Dispatched(s4, j);
    assert s5.accepted[|s.dispatched|] == a && s5.dispatched[|s.dispatched|] == b;
    ReorderNow(s5);
    ReorderAfter(s4, Dispatch(j), s5);
    ReorderAfter(s3, Take(j), s4);
    ReorderAfter(s2, Publish(b, true), s3);
    ReorderAfter(s1, Take(i), s2);
    ReorderAfter(s, Publish(a, true), s1);
  }

  /** A Start that overlaps a live worker is exactly what endangers the order: in a run, restarts included,
      no Start takes effect while a worker is live if and only if no state of the run has a continuation
      without another Start that dispatches out of order. */
  lemma OverlapIffCanReorder<M(!new)>(run: Run<M>, a: M, b: M)
    requires Valid(run) && a != b
    ensures NoOverlap(run) <==> forall k :: 0 <= k <= |run.actions| ==> !CanReorder(run.states[k])
  {
    if NoOverlap(run) {
      forall k | 0 <= k <= |run.actions| ensures !CanReorder(run.states[k]) {
        InTurnOverRuns(run, k);
        InTurnCannotReorder(run.states[k]);
      }
    } else {
      var k :| 0 <= k < |run.actions| && Overlaps(run.states[k], run.actions[k]);
      var s, s' := run.states[k], run.states[k + 1];
      assert Step(s, run.actions[k], s');
      var i :| 0 <= i < |s.workers| && !s.workers[i].Done?;
      ConservedOverRuns(run, k, a);
      CountedOverRuns(run, k + 1);
      TwoLiveCanReorder(s', i, |s.workers|, a, b);
    }
  }

  /** A single cycle has no overlap, but a restart after the worker has returned has none either. */
  lemma SingleCycleDoesNotOverlap<M>(run: Run<M>)
    requires Valid(run) && SingleCycle(run)
    ensures NoOverlap(run)
  {
    forall n | 0 <= n < |run.actions| ensures !Overlaps(run.states[n], run.actions[n]) {
      FifoOverRuns(run, n);
    }
  }

  /** An instance: a Start that slips in between Stop's unlock and its return creates a second worker, and the
      two dispatch out of order. */
  ghost function TwoWorkersRun<M>(a: M, b: M): Run<M> {
    var s0 := NewService(2);
    var s1 := s0.(started := true, workers := [Selecting]);
    var s2 := s1.(buffer := [a], accepted := [a]);
    var s3 := s2.(buffer := [a, b], accepted := [a, b]);
    var s4 := s3.(buffer := [b], workers := [Sending(a)]);
    var s5 := s4.(started := false, stopClosed := true);
    var s6 := s5.(started := true, workers := [Sending(a), Selecting]);
    var s7 := s6.(buffer := [], workers := [Sending(a), Sending(b)]);
    var s8 := s7.(dispatched := [b], workers := [Sending(a), Selecting]);
    var s9 := s8.(dispatched := [b, a], workers := [Selecting, Selecting]);
    Run([s0, s1, s2, s3, s4, s5, s6, s7, s8, s9],
        [Start, Publish(a, true), Publish(b, true), Take(0), StopSignal, Start, Take(1), Dispatch(1), Dispatch(0)])
  }

  lemma TwoWorkersFirstHalf<M>(a: M, b: M)
    ensures var run := TwoWorkersRun(a, b);
      forall i :: 0 <= i < 5 ==> Step(run.states[i], run.actions[i], run.states[i + 1])
  {
    var run := TwoWorkersRun(a, b);
    assert Step(run.states[0], run.actions[0], run.states[1]);
    assert Step(run.states[1], run.actions[1], run.states[2]);
    assert Step(run.states[2], run.actions[2], run.states[3]);
    assert Step(run.states[3], run.actions[3], run.states[4]) by { assert [a, b][1..] == [b]; }
    assert Step(run.states[4], run.actions[4], run.states[5]);
  }

  lemma TwoWorkersSecondHalf<M>(a: M, b: M)
    ensures var run := TwoWorkersRun(a, b);
      && Restarts(run.states[5], run.actions[5])
      && forall i :: 5 <= i < 9 ==> Step(run.states[i], run.actions[i], run.states[i + 1])
  {
    var run := TwoWorkersRun(a, b);
    assert Step(run.states[5], run.actions[5], run.states[6]);
    assert Step(run.states[6], run.actions[6], run.states[7]);
    assert Step(run.states[7], run.actions[7], run.states[8]);
    assert Step(run.states[8], run.actions[8], run.states[9]);
  }

  lemma RestartCanReorder<M>(a: M, b: M)
    ensures Valid(TwoWorkersRun(a, b)) && !SingleCycle(TwoWorkersRun(a, b))
    ensures TwoWorkersRun(a, b).states[9].accepted == [a, b] && TwoWorkersRun(a, b).states[9].dispatched == [b, a]
  {
    TwoWorkersFirstHalf(a, b);
    TwoWorkersSecondHalf(a, b);
    assert TwoWorkersRun(a, b).states[0] == NewService<M>(2);
  }
}
