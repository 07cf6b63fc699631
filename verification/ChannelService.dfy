/** The channel service as an object: each method performs steps of ChannelWorker on its fields. The methods
    that run for a while also show the steps they took, with those of other callers in between. */
module ChannelService {
  import opened ChannelWorker

  /** What other goroutines do meanwhile: publish, send on the channel itself, or call Stop. */
  datatype Call<M> = PublishCall(msg: M) | SendCall(msg: M) | StopCall

  /** A row of steps, none of them a Start, from one state to another. */
  ghost predicate Trail<M>(from: State<M>, run: Run<M>, to: State<M>) {
    Steps(run.states, run.actions) && NoStart(run.actions) && run.states[0] == from && run.states[|run.actions|] == to
  }

  /** The worker leaves at step e, and what is dispatched is what was accepted until then. */
  ghost predicate DispatchedUntil<M>(run: Run<M>, e: nat, dispatched: seq<M>) {
    e < |run.actions| < |run.states| && run.actions[e].Exit? && run.states[e].accepted == dispatched
  }

  ghost function Extend<M>(run: Run<M>, a: Action<M>, s: State<M>): Run<M> {
    Run(run.states + [s], run.actions + [a])
  }

  lemma Extended<M>(from: State<M>, run: Run<M>, s: State<M>, a: Action<M>, s': State<M>)
    requires Trail(from, run, s) && Fifo(s) && Step(s, a, s') && !a.Start?
    ensures Trail(from, Extend(run, a, s'), s') && Fifo(s')
  {
    FifoStep(s, a, s');
  }

  class Service<M> {
    const capacity: nat
    var msgChan: seq<M>
    var started: bool
    var stopClosed: bool
    var panicked: bool
    var workers: seq<Phase<M>>
    ghost var accepted: seq<M>
    var dispatched: seq<M>

    ghost function View(): State<M>
      reads this
    {
      State(capacity, msgChan, started, stopClosed, panicked, workers, accepted, dispatched)
    }

    constructor (bufferSize: int)
      ensures View() == NewService(bufferSize)
    {
      capacity := if bufferSize <= 0 then 1024 else bufferSize;
      msgChan, started, stopClosed, panicked, workers, accepted, dispatched := [], false, false, false, [], [], [];
    }

    method Start()
      requires !panicked
      modifies this
      ensures Step(old(View()), Action.Start, View())
    {
      if started {
        return;
      }
      started := true;
      workers := workers + [Selecting];
    }

    /** The locked half of Stop; the result tells whether there is something to wait for. Closing a closed
        channel panics; nothing runs after a panic. */
    method SignalStop() returns (wait: bool)
      requires !panicked
      modifies this
      ensures wait == old(started)
      ensures Step(old(View()), if wait then StopSignal else StopIdle, View())
    {
      if !started {
        return false;
      }
      started := false;
      if stopClosed {
        panicked := true;
        return true;
      }
      stopClosed := true;
      return true;
    }

    method Publish(msg: M) returns (ok: bool)
      requires !panicked
      modifies this
      ensures Step(old(View()), Action.Publish(msg, ok), View())
    {
      if |msgChan| < capacity {
        msgChan := msgChan + [msg];
        accepted := accepted + [msg];
        return true;
      }
      return false;
    }

    /** A send on the channel that Channel() hands out, once there is room. */
    method Send(msg: M)
      requires !panicked && |msgChan| < capacity
      modifies this
      ensures Step(old(View()), Action.Send(msg), View())
    {
      msgChan := msgChan + [msg];
      accepted := accepted + [msg];
    }

    /** The steps so far lead here, there is one worker, and the messages are in order. */
    ghost predicate Running(from: State<M>, trail: Run<M>)
      reads this
    {
      Fifo(View()) && |workers| == 1 && Trail(from, trail, View())
    }

    /** Other callers get a turn: some of their calls take place, in any order, and the rest is left for later.
        A send on a full channel waits. */
    method Meanwhile(calls: seq<Call<M>>, ghost from: State<M>, ghost trail: Run<M>)
      returns (rest: seq<Call<M>>, ghost trail': Run<M>)
      requires Running(from, trail)
      modifies this
      ensures Running(from, trail') && workers == old(workers) && dispatched == old(dispatched)
      ensures trail.states <= trail'.states && trail.actions <= trail'.actions
      ensures |rest| <= |calls| && (|rest| == |calls| ==> View() == old(View()))
      ensures old(stopClosed) ==> stopClosed
    {
      rest, trail' := calls, trail;
      while rest != []
        invariant Running(from, trail') && workers == old(workers) && dispatched == old(dispatched)
        invariant trail.states <= trail'.states && trail.actions <= trail'.actions
        invariant |rest| <= |calls| && (|rest| == |calls| ==> View() == old(View()))
        invariant old(stopClosed) ==> stopClosed
      {
        var goOn: bool := *;
        var k: nat :| k < |rest|;
        if !goOn || (rest[k].SendCall? && |msgChan| >= capacity) {
          return;
        }
        ghost var before := View();
        match rest[k] {
          case PublishCall(msg) =>
            var ok := Publish(msg);
            Extended(from, trail', before, Action.Publish(msg, ok), View());
            trail' := Extend(trail', Action.Publish(msg, ok), View());
          case SendCall(msg) =>
            Send(msg);
            Extended(from, trail', before, Action.Send(msg), View());
            trail' := Extend(trail', Action.Send(msg), View());
          case StopCall =>
            var wait := SignalStop();
            Extended(from, trail', before, if wait then StopSignal else StopIdle, View());
            trail' := Extend(trail', if wait then StopSignal else StopIdle, View());
        }
        rest := rest[..k] + rest[k + 1..];
      }
    }

    /** Dispatching the message in hand. */
    method Deliver(ghost from: State<M>, ghost trail: Run<M>) returns (ghost trail': Run<M>)
      requires Running(from, trail) && (workers[0].Sending? || workers[0].DrainSending?)
      modifies this
      ensures Running(from, trail') && msgChan == old(msgChan) && accepted == old(accepted)
      ensures stopClosed == old(stopClosed)
      ensures workers == [if old(workers[0]).Sending? then Selecting else Draining]
    {
      ghost var before := View();
      dispatched := dispatched + [workers[0].msg];
      workers := [if workers[0].Sending? then Selecting else Draining];
      Extended(from, trail, before, Dispatch(0), View());
      trail' := Extend(trail, Dispatch(0), View());
    }

    /** One iteration of a select that takes a message and dispatches it. */
    method TakeAndDispatch(calls: seq<Call<M>>, ghost from: State<M>, ghost trail: Run<M>)
      returns (rest: seq<Call<M>>, ghost trail': Run<M>)
      requires Running(from, trail) && (workers[0].Selecting? || workers[0].Draining?) && msgChan != []
      modifies this
      ensures Running(from, trail') && workers == old(workers)
      ensures |rest| <= |calls| && (old(stopClosed) ==> stopClosed)
      ensures |rest| == |calls| ==> |msgChan| < |old(msgChan)| && accepted == old(accepted)
    {
      ghost var before := View();
      workers := [Taken(workers[0], msgChan[0])];
      msgChan := msgChan[1..];
      Extended(from, trail, before, Take(0), View());
      trail' := Extend(trail, Take(0), View());
      rest, trail' := Meanwhile(calls, from, trail');
      trail' := Deliver(from, trail');
    }

    /** The drain loop: everything in the channel is dispatched until a look at it finds it empty. */
    method Drain(calls: seq<Call<M>>, ghost from: State<M>, ghost trail: Run<M>)
      returns (rest: seq<Call<M>>, ghost trail': Run<M>)
      requires Running(from, trail) && workers[0].Draining?
      modifies this
      ensures Running(from, trail') && workers == [Done] && msgChan == [] && dispatched == accepted
      ensures |rest| <= |calls| && (|rest| == |calls| ==> accepted == old(accepted))
      ensures trail'.actions != [] && trail'.actions[|trail'.actions| - 1].Exit?
    {
      rest, trail' := calls, trail;
      while true
        invariant Running(from, trail') && workers == [Draining]
        invariant |rest| <= |calls| && (|rest| == |calls| ==> accepted == old(accepted))
        decreases |rest|, |msgChan|
      {
        rest, trail' := Meanwhile(rest, from, trail');
        if msgChan == [] {
          ghost var before := View();
          workers := [Done];
          Extended(from, trail', before, Exit(0), View());
          trail' := Extend(trail', Exit(0), View());
          return;
        }
        rest, trail' := TakeAndDispatch(rest, from, trail');
      }
    }

    /** The worker loop, from any iteration on: the message in hand, if any, then selects that choose freely
        between a message and the stop signal when both are there, then the drain. It ends or waits: a select
        with neither a message nor the stop signal blocks until somebody calls. */
    method Worker(calls: seq<Call<M>>, ghost from: State<M>, ghost trail: Run<M>)
      returns (rest: seq<Call<M>>, finished: bool, ghost trail': Run<M>)
      requires Running(from, trail) && (workers[0].Selecting? || workers[0].Sending?)
      modifies this
      ensures Running(from, trail') && msgChan == [] && dispatched == accepted
      ensures old(stopClosed) ==> finished
      ensures if finished then workers == [Done] else workers == [Selecting] && !stopClosed
      ensures |rest| <= |calls| && (|rest| == |calls| ==> accepted == old(accepted))
      ensures finished ==> trail'.actions != [] && trail'.actions[|trail'.actions| - 1].Exit?
    {
      rest, trail' := Meanwhile(calls, from, trail);
      if workers[0].Sending? {
        trail' := Deliver(from, trail');
      }
      while true
        invariant Running(from, trail') && workers == [Selecting] && (old(stopClosed) ==> stopClosed)
        invariant |rest| <= |calls| && (|rest| == |calls| ==> accepted == old(accepted))
        decreases |rest|, |msgChan|
      {
        rest, trail' := Meanwhile(rest, from, trail');
        var preferMessage: bool := *;
        if msgChan != [] && (preferMessage || !stopClosed) {
          rest, trail' := TakeAndDispatch(rest, from, trail');
        } else if stopClosed {
          ghost var before := View();
          workers := [Draining];
          Extended(from, trail', before, SeeStop(0), View());
          trail' := Extend(trail', SeeStop(0), View());
          rest, trail' := Drain(rest, from, trail');
          finished := true;
          return;
        } else {
          finished := false;
          return;
        }
      }
    }

    /** Stop with its wait: the signal, the worker to its end, the return, and other callers at any moment in
        between. Everything is dispatched except what others published after the worker had left. */
    method Stop(calls: seq<Call<M>>) returns (rest: seq<Call<M>>, ghost trail: Run<M>)
      requires Fifo(View())
      modifies this
      ensures Fifo(View()) && Trail(old(View()), trail, View())
      ensures trail.actions != []
      ensures trail.actions[|trail.actions| - 1] == if old(started) then StopReturns else StopIdle
      ensures !old(started) ==> View() == old(View())
      ensures old(started) ==> workers == [Done] && accepted == dispatched + msgChan
      ensures old(started) && calls == [] ==> dispatched == accepted == old(accepted)
      ensures old(started) ==> exists e :: 0 <= e < |trail.actions| && DispatchedUntil(trail, e, dispatched)
    {
      ghost var from := View();
      rest, trail := calls, Run([from], []);
      var wait := SignalStop();
      if wait {
        Extended(from, trail, from, StopSignal, View());
        trail := Extend(trail, StopSignal, View());
        var finished: bool;
        rest, finished, trail := Worker(rest, from, trail);
        ghost var e := |trail.actions| - 1;
        assert Step(trail.states[e], trail.actions[e], trail.states[e + 1]);
        assert DispatchedUntil(trail, e, dispatched);
        ghost var left := trail;
        rest, trail := Meanwhile(rest, from, trail);
        assert trail.states[e] == left.states[e] && trail.actions[e] == left.actions[e];
        Extended(from, trail, View(), StopReturns, View());
        trail := Extend(trail, StopReturns, View());
        assert DispatchedUntil(trail, e, dispatched);
      } else {
        Extended(from, trail, from, StopIdle, View());
        trail := Extend(trail, StopIdle, View());
      }
    }
  }
}
