/**
  Session lifetime in the broker: connections notify a per-session task through a
  FIFO channel, and the task shuts the session down when it has been idle long enough.
 */
module Lifecycle {
  import opened Text

  datatype Message = Connected | Disconnected | Shutdown

  datatype Exit = Running | Drained(at: nat) | ShutDown(at: nat)

  /** The local variables of the task's loop. */
  datatype Task = Task(count: nat, deadline: Option<nat>, exit: Exit)

  datatype Handled = Handled(message: Message, at: nat)

  /** One session. `live` are the connections bound to it; `handled` is the task's history. `leaked` counts
      registrations that will never be matched by a disconnect: a second `session.register` on one
      connection, and a connection that ends by a read error instead of end of file. */
  datatype World = World(
    now: nat, live: set<nat>, seen: set<nat>, leaked: nat, queue: seq<Message>, task: Task, handled: seq<Handled>)

  datatype Step =
    | Tick(elapsed: nat)
    | Register(conn: nat)
    | RegisterAgain(conn: nat)
    | Leave(conn: nat)
    | BreakOff(conn: nat)
    | AskShutdown
    | Deliver
    | Expire

  const NEW_SESSION := World(0, {}, {}, 0, [], Task(0, None, Running), [])

  /** The loop body of `run` for one message. */
  function HandleMessage(t: Task, m: Message, now: nat, drainAfter: nat): Task {
    match m
    case Connected => t.(count := t.count + 1, deadline := None)
    case Disconnected =>
      var count := if t.count == 0 then 0 else t.count - 1;
      t.(count := count, deadline := if count == 0 then Some(now + drainAfter) else t.deadline)
    case Shutdown => t.(exit := ShutDown(now))
  }

  class SessionTask {
    var connectedCount: nat
    var drainDeadline: Option<nat>
    var exit: Exit

    ghost function State(): Task
      reads this
    {
      Task(connectedCount, drainDeadline, exit)
    }

    constructor ()
      ensures State() == NEW_SESSION.task
    {
      connectedCount, drainDeadline, exit := 0, None, Running;
    }

    method Handle(m: Message, now: nat, drainAfter: nat)
      modifies this
      ensures State() == HandleMessage(old(State()), m, now, drainAfter)
    {
      match m {
        case Connected =>
          connectedCount := connectedCount + 1;
          drainDeadline := None;
        case Disconnected =>
          if connectedCount > 0 {
            connectedCount := connectedCount - 1;
          }
          if connectedCount == 0 {
            drainDeadline := Some(now + drainAfter);
          }
        case Shutdown =>
          exit := ShutDown(now);
      }
    }
  }

  /** The world after a step, if the step can happen. `capacity` bounds the channel: a send waits for room.
      Nothing orders a due deadline against a waiting message: the task may take either. */
  function Next(w: World, step: Step, drainAfter: nat, capacity: nat): Option<World> {
    var room := |w.queue| < capacity;
    match step
    case Tick(elapsed) => Some(w.(now := w.now + elapsed))
    case Register(c) =>
      if c in w.seen || !room then None
      else Some(w.(live := w.live + {c}, seen := w.seen + {c}, queue := w.queue + [Connected]))
    case RegisterAgain(c) =>
      if c !in w.live || !room then None
      else Some(w.(leaked := w.leaked + 1, queue := w.queue + [Connected]))
    case Leave(c) =>
      if c !in w.live || !room then None
      else Some(w.(live := w.live - {c}, queue := w.queue + [Disconnected]))
    case BreakOff(c) =>
      if c !in w.live then None
      else Some(w.(live := w.live - {c}, leaked := w.leaked + 1))
    case AskShutdown =>
      if !room then None else Some(w.(queue := w.queue + [Shutdown]))
    case Deliver =>
      if w.queue == [] || !w.task.exit.Running? then None
      else
        var m := w.queue[0];
        Some(w.(queue := w.queue[1..], task := HandleMessage(w.task, m, w.now, drainAfter),
                handled := w.handled + [Handled(m, w.now)]))
    case Expire =>
      if !w.task.exit.Running? || w.task.deadline.None? || w.now < w.task.deadline.value then None
      else Some(w.(task := w.task.(exit := Drained(w.now))))
  }

  // ----- Invariant -------------------------------------------------------------------

  function Weight(m: Message): int {
    match m
    case Connected => 1
    case Disconnected => -1
    case Shutdown => 0
  }

  /** Connects minus disconnects still in the channel. */
  function Net(queue: seq<Message>): int {
    if queue == [] then 0 else Weight(queue[0]) + Net(queue[1..])
  }

  /** No disconnect overtakes the connect it belongs to. */
  ghost predicate NeverBelowZero(count: nat, queue: seq<Message>) {
    forall k :: 0 <= k <= |queue| ==> count + Net(queue[..k]) >= 0
  }

  /** The armed deadline comes from the last message, a disconnect that left nobody connected. */
  ghost predicate DeadlineFromLast(t: Task, handled: seq<Handled>, now: nat, drainAfter: nat) {
    t.deadline.Some? ==>
      && t.count == 0 && handled != []
      && handled[|handled| - 1].message == Disconnected
      && handled[|handled| - 1].at + drainAfter == t.deadline.value
  }

  ghost predicate Inv(w: World, drainAfter: nat) {
    && w.live <= w.seen
    && (!w.task.exit.ShutDown? ==>
          && w.task.count + Net(w.queue) == |w.live| + w.leaked
          && NeverBelowZero(w.task.count, w.queue)
          && (forall i :: 0 <= i < |w.handled| ==> w.handled[i].message != Shutdown)
          && (w.task.count == 0 && w.handled != [] ==> w.task.deadline.Some?)
          && DeadlineFromLast(w.task, w.handled, w.now, drainAfter))
    && (forall i :: 0 <= i < |w.handled| ==> w.handled[i].at <= w.now)
    && (w.task.exit.Drained? ==>
          w.task.deadline.Some? && w.task.deadline.value <= w.task.exit.at <= w.now)
  }

  lemma {:induction false} NetAppend(queue: seq<Message>, m: Message)
    ensures Net(queue + [m]) == Net(queue) + Weight(m)
  {
    if queue == [] {
      assert Net([m]) == Weight(m) + Net([]);
      assert queue + [m] == [m];
    } else {
      assert (queue + [m])[1..] == queue[1..] + [m];
      NetAppend(queue[1..], m);
    }
  }

  lemma AppendStaysAbove(count: nat, queue: seq<Message>, m: Message)
    requires NeverBelowZero(count, queue) && count + Net(queue) + Weight(m) >= 0
    ensures NeverBelowZero(count, queue + [m])
    ensures Net(queue + [m]) == Net(queue) + Weight(m)
  {
    NetAppend(queue, m);
    var q := queue + [m];
    forall k | 0 <= k <= |q| ensures count + Net(q[..k]) >= 0 {
      if k <= |queue| {
        assert q[..k] == queue[..k];
      } else {
        assert q[..k] == q;
      }
    }
  }

  lemma PopStaysAbove(count: nat, queue: seq<Message>)
    requires queue != [] && NeverBelowZero(count, queue)
    ensures count + Weight(queue[0]) >= 0
    ensures NeverBelowZero(count + Weight(queue[0]), queue[1..])
  {
    assert queue[..1][1..] == [] && Net(queue[..1]) == Weight(queue[0]);
    forall k | 0 <= k <= |queue[1..]| ensures count + Weight(queue[0]) + Net(queue[1..][..k]) >= 0 {
      assert queue[..k + 1][1..] == queue[1..][..k];
      assert count + Net(queue[..k + 1]) >= 0;
    }
  }

  /** Queuing a message together with the registration it announces keeps the account balanced. */
  lemma QueuingKeepsInv(w: World, w': World, m: Message, drainAfter: nat)
    requires Inv(w, drainAfter) && w'.live <= w'.seen
    requires w' == w.(live := w'.live, seen := w'.seen, leaked := w'.leaked, queue := w.queue + [m])
    requires |w'.live| + w'.leaked == |w.live| + w.leaked + Weight(m)
    ensures Inv(w', drainAfter)
  {
    hide NeverBelowZero, Net, DeadlineFromLast, Weight;
    if !w.task.exit.ShutDown? {
      AppendStaysAbove(w.task.count, w.queue, m);
    }
  }

  lemma SendKeepsInv(w: World, step: Step, drainAfter: nat, capacity: nat)
    requires Inv(w, drainAfter) && Next(w, step, drainAfter, capacity).Some?
    requires step.Register? || step.RegisterAgain? || step.Leave? || step.AskShutdown?
    ensures Inv(Next(w, step, drainAfter, capacity).value, drainAfter)
  {
    assert w.live <= w.seen;
    hide Inv;
    var m := if step.Leave? then Disconnected else if step.AskShutdown? then Shutdown else Connected;
    QueuingKeepsInv(w, Next(w, step, drainAfter, capacity).value, m, drainAfter);
  }

  lemma DeliverKeepsInv(w: World, drainAfter: nat, capacity: nat)
    requires Inv(w, drainAfter) && Next(w, Deliver, drainAfter, capacity).Some?
    ensures Inv(Next(w, Deliver, drainAfter, capacity).value, drainAfter)
  {
    assert Net(w.queue) == Weight(w.queue[0]) + Net(w.queue[1..]);
    hide NeverBelowZero, Net;
    PopStaysAbove(w.task.count, w.queue);
  }

  lemma QuietKeepsInv(w: World, step: Step, drainAfter: nat, capacity: nat)
    requires Inv(w, drainAfter) && Next(w, step, drainAfter, capacity).Some?
    requires step.Tick? || step.BreakOff? || step.Expire?
    ensures Inv(Next(w, step, drainAfter, capacity).value, drainAfter)
  {
    hide NeverBelowZero, Net;
  }

  lemma StepKeepsInv(w: World, step: Step, drainAfter: nat, capacity: nat)
    requires Inv(w, drainAfter) && Next(w, step, drainAfter, capacity).Some?
    ensures Inv(Next(w, step, drainAfter, capacity).value, drainAfter)
  {
    hide Inv, Next;
    if step.Deliver? {
      DeliverKeepsInv(w, drainAfter, capacity);
    } else if step.Tick? || step.BreakOff? || step.Expire? {
      QuietKeepsInv(w, step, drainAfter, capacity);
    } else {
      SendKeepsInv(w, step, drainAfter, capacity);
    }
  }

  // ----- Runs --------------------------------------------------------------------------

  /** Any interleaving of connections, clock and task. */
  ghost predicate IsRun(ws: seq<World>, steps: seq<Step>, drainAfter: nat, capacity: nat) {
    && |ws| == |steps| + 1 && ws[0] == NEW_SESSION
    && forall i :: 0 <= i < |steps| ==> Next(ws[i], steps[i], drainAfter, capacity) == Some(ws[i + 1])
  }

  lemma {:induction false} RunKeepsInv(ws: seq<World>, steps: seq<Step>, drainAfter: nat, capacity: nat, i: nat)
    requires IsRun(ws, steps, drainAfter, capacity) && i < |ws|
    ensures Inv(ws[i], drainAfter)
  {
    if i > 0 {
      RunKeepsInv(ws, steps, drainAfter, capacity, i - 1);
      StepKeepsInv(ws[i - 1], steps[i - 1], drainAfter, capacity);
    }
  }

  /** Conservation: while the task has not been told to shut down, the handled count and the messages
      still queued account for every live registration; an armed deadline means nobody is counted. */
  lemma RegistrationsAreConserved(ws: seq<World>, steps: seq<Step>, drainAfter: nat, capacity: nat, i: nat)
    requires IsRun(ws, steps, drainAfter, capacity) && i < |ws| && !ws[i].task.exit.ShutDown?
    ensures ws[i].task.count + Net(ws[i].queue) == |ws[i].live| + ws[i].leaked
    ensures ws[i].task.deadline.Some? ==> ws[i].task.count == 0
  {
    RunKeepsInv(ws, steps, drainAfter, capacity, i);
  }

  /** A session drained at time `t` had been idle for the whole window: the last message its task handled
      was a disconnect, at `t - drainAfter` or before, that left no connection counted. No live client is
      cut off exactly when the connects still queued, less the disconnects, are all leaked ones. */
  lemma DrainMeansIdle(ws: seq<World>, steps: seq<Step>, drainAfter: nat, capacity: nat, i: nat)
    requires IsRun(ws, steps, drainAfter, capacity) && i < |ws| && ws[i].task.exit.Drained?
    ensures
      var w := ws[i];
      && w.task.count == 0 && w.handled != []
      && w.handled[|w.handled| - 1].message == Disconnected
      && w.handled[|w.handled| - 1].at + drainAfter <= w.task.exit.at <= w.now
      && (w.live == {} <==> Net(w.queue) == w.leaked)
      && |w.live| == Net(w.queue) - w.leaked
  {
    RunKeepsInv(ws, steps, drainAfter, capacity, i);
  }

  /** A running task that has caught up with its channel is on its way out exactly when it has served
      somebody, nobody is connected and no registration has leaked: only then is a deadline armed, and
      waiting out the drain window lets it fire. So of the sessions nobody uses any more, exactly those
      with a leaked registration stay. */
  lemma IdleSessionDrains(ws: seq<World>, steps: seq<Step>, drainAfter: nat, capacity: nat, i: nat)
    requires IsRun(ws, steps, drainAfter, capacity) && i < |ws|
    requires ws[i].task.exit.Running? && ws[i].queue == []
    ensures
      var w := ws[i];
      var idle := w.handled != [] && w.live == {} && w.leaked == 0;
      && (w.task.deadline.Some? <==> idle)
      && (Next(w.(now := w.now + drainAfter), Expire, drainAfter, capacity).Some? <==> idle)
  {
    RunKeepsInv(ws, steps, drainAfter, capacity, i);
    assert Net(ws[i].queue) == 0;
  }

  /** A leak is for good: no step takes one back. */
  lemma {:induction false} LeaksStay(
    ws: seq<World>, steps: seq<Step>, drainAfter: nat, capacity: nat, i: nat, j: nat)
    requires IsRun(ws, steps, drainAfter, capacity) && i <= j < |ws|
    ensures ws[i].leaked <= ws[j].leaked
    decreases j
  {
    if i < j {
      LeaksStay(ws, steps, drainAfter, capacity, i, j - 1);
      assert Next(ws[j - 1], steps[j - 1], drainAfter, capacity) == Some(ws[j]);
    }
  }

  /** From a leak on, the deadline can only ever fire with connects still queued: at least as many, less the
      disconnects, as registrations have leaked, and one more for every live client it cuts off. */
  lemma LeakPreventsDrain(
    ws: seq<World>, steps: seq<Step>, drainAfter: nat, capacity: nat, i: nat, j: nat)
    requires IsRun(ws, steps, drainAfter, capacity) && i <= j < |steps|
    requires ws[i].leaked > 0 && steps[j].Expire?
    ensures Net(ws[j].queue) == |ws[j].live| + ws[j].leaked >= ws[i].leaked > 0
  {
    RunKeepsInv(ws, steps, drainAfter, capacity, j);
    LeaksStay(ws, steps, drainAfter, capacity, i, j);
    assert Next(ws[j], steps[j], drainAfter, capacity) == Some(ws[j + 1]);
  }

  /** A drain after a leak need not cut anybody off: the connect still queued may be the leaked one. */
  lemma LeakedConnectIsDrained(drainAfter: nat, capacity: nat) returns (ws: seq<World>, steps: seq<Step>)
    requires capacity > 0
    ensures IsRun(ws, steps, drainAfter, capacity) && |steps| == 8
    ensures ws[8].task.exit.Drained? && ws[8].live == {} && ws[8].leaked == 1 && ws[8].queue == [Connected]
  {
    var w5, before, first := ServedAndIdle(drainAfter, capacity);
    var w6 := Next(w5, Register(2), drainAfter, capacity).value;
    assert w6.queue == [Connected] && w6.live == {2};
    var w7 := Next(w6, BreakOff(2), drainAfter, capacity).value;
    assert w7.live == {};
    var w8 := Next(w7, Expire, drainAfter, capacity).value;
    ws := before + [w5, w6, w7, w8];
    steps := first + [Register(2), BreakOff(2), Expire];
  }

  /** One client has come and gone, and the drain window has passed. */
  lemma ServedAndIdle(drainAfter: nat, capacity: nat) returns (w5: World, before: seq<World>, first: seq<Step>)
    requires capacity > 0
    ensures |before| == |first| == 5 && before[0] == NEW_SESSION
    ensures forall i :: 0 <= i < 4 ==> Next(before[i], first[i], drainAfter, capacity) == Some(before[i + 1])
    ensures Next(before[4], first[4], drainAfter, capacity) == Some(w5)
    ensures w5.task == Task(0, Some(drainAfter), Running) && w5.now == drainAfter && w5.leaked == 0
    ensures w5.queue == [] && w5.live == {} && w5.seen == {1}
  {
    var w1 := Next(NEW_SESSION, Register(1), drainAfter, capacity).value;
    assert w1.queue == [Connected] && w1.live == {1} && w1.seen == {1};
    var w2 := Next(w1, Deliver, drainAfter, capacity).value;
    assert w2.queue == [] && w2.task == Task(1, None, Running);
    var w3 := Next(w2, Leave(1), drainAfter, capacity).value;
    assert w3.queue == [Disconnected] && w3.live == {};
    var w4 := Next(w3, Deliver, drainAfter, capacity).value;
    assert w4.queue == [] && w4.task == Task(0, Some(drainAfter), Running);
    w5 := Next(w4, Tick(drainAfter), drainAfter, capacity).value;
    before := [NEW_SESSION, w1, w2, w3, w4];
    first := [Register(1), Deliver, Leave(1), Deliver, Tick(drainAfter)];
  }

  /** A connection that ends by a read error leaves a session nobody uses and nothing will drain. */
  lemma LeakedSessionStays(drainAfter: nat, capacity: nat) returns (ws: seq<World>, steps: seq<Step>)
    requires capacity > 0
    ensures IsRun(ws, steps, drainAfter, capacity) && steps == [Register(1), Deliver, BreakOff(1)]
    ensures ws[3].task.exit.Running? && ws[3].queue == [] && ws[3].live == {} && ws[3].handled != []
    ensures ws[3].leaked == 1 && ws[3].task.deadline.None?
  {
    var w1 := Next(NEW_SESSION, Register(1), drainAfter, capacity).value;
    assert w1.queue == [Connected] && w1.live == {1};
    var w2 := Next(w1, Deliver, drainAfter, capacity).value;
    var w3 := Next(w2, BreakOff(1), drainAfter, capacity).value;
    ws := [NEW_SESSION, w1, w2, w3];
    steps := [Register(1), Deliver, BreakOff(1)];
  }

  /** A client whose connect is still queued when the deadline fires is cut off. */
  lemma QueuedClientIsCutOff(drainAfter: nat, capacity: nat) returns (ws: seq<World>, steps: seq<Step>)
    requires capacity > 0
    ensures IsRun(ws, steps, drainAfter, capacity) && |steps| == 7
    ensures ws[7].task.exit.Drained? && ws[7].live == {2} && ws[7].queue == [Connected]
  {
    var w5, before, first := ServedAndIdle(drainAfter, capacity);
    var w6 := Next(w5, Register(2), drainAfter, capacity).value;
    assert w6.queue == [Connected] && w6.live == {2};
    var w7 := Next(w6, Expire, drainAfter, capacity).value;
    ws := before + [w5, w6, w7];
    steps := first + [Register(2), Expire];
  }
}
