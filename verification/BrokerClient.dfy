/**
  The broker client's request/response matching: concurrent calls share one id
  counter, one in-flight map, one replaceable writer and any number of readers.
 */
module BrokerClient {
  import opened Text

  /** A JSON-RPC response body: a result, or an error object. */
  datatype Reply = Value(json: seq<Byte>) | RpcError(code: int, message: string)

  /** What a oneshot channel carries to the caller. */
  datatype Signal = Answer(reply: Reply) | SocketClosed

  datatype Outcome = Answered(id: nat, reply: Reply) | TimedOut | Unavailable | TooLarge | Cancelled

  /** Where a call is. `attempt` is 0 or 1; `id` is the request id of the current send. */
  datatype Phase =
    | Ready(attempt: nat)
    | Queued(id: nat, attempt: nat)
    | Waiting(id: nat, attempt: nat)
    | Expired(id: nat)
    | Redialing
    | Settled(outcome: Outcome)

  datatype Issue = Issue(id: nat, call: nat, attempt: nat)

  /** The client, with three histories: ids issued, requests put on the wire, responses read. `broken`
      holds the calls that have seen a transport failure. */
  datatype Client = Client(
    nextId: nat, writer: bool, inflight: set<nat>, slots: map<nat, Option<Signal>>, calls: map<nat, Phase>,
    issued: seq<Issue>, wire: seq<Issue>, responses: seq<(nat, Reply)>, broken: set<nat>)

  const CONNECTED := Client(1, true, {}, map[], map[], [], [], [], {})

  datatype Step =
    | Start(call: nat)
    | Send(call: nat, fits: bool)
    | Write(call: nat, ok: bool)
    | Respond(id: nat, reply: Reply)
    | ReaderExit
    | Wake(call: nat)
    | Fire(call: nat)
    | CleanUp(call: nat)
    | Redial(call: nat, ok: bool, late: bool)
    | Cancel(call: nat, written: bool)

  /** A transport failure: the first attempt goes on to redial, the second gives up. */
  function Fail(c: Client, call: nat, attempt: nat): Client {
    c.(calls := c.calls[call := if attempt == 0 then Redialing else Settled(Unavailable)],
       broken := c.broken + {call})
  }

  function PhaseOf(c: Client, call: nat): Option<Phase> {
    if call in c.calls then Some(c.calls[call]) else None
  }

  function Next(c: Client, step: Step): Option<Client> {
    match step
    case Start(call) =>
      if call in c.calls then None else Some(c.(calls := c.calls[call := Ready(0)]))
    case Send(call, fits) =>
      // The id is spent before the size check, and the slot is entered before the writer is locked.
      (match PhaseOf(c, call)
       case Some(Ready(attempt)) =>
         var id := c.nextId;
         var c' := c.(nextId := id + 1, issued := c.issued + [Issue(id, call, attempt)]);
         if !fits then Some(c'.(calls := c.calls[call := Settled(TooLarge)]))
         else Some(c'.(inflight := c.inflight + {id}, slots := c.slots[id := None],
                       calls := c.calls[call := Queued(id, attempt)]))
       case _ => None)
    case Write(call, ok) =>
      // With no writer the call fails but its slot stays entered; a failed write removes it.
      (match PhaseOf(c, call)
       case Some(Queued(id, attempt)) =>
         if !c.writer then Some(Fail(c, call, attempt))
         else
           var c' := c.(wire := c.wire + [Issue(id, call, attempt)]);
           if ok then Some(c'.(calls := c.calls[call := Waiting(id, attempt)]))
           else Some(Fail(c'.(inflight := c.inflight - {id}, writer := false), call, attempt))
       case _ => None)
    case Respond(id, reply) =>
      var c' := c.(responses := c.responses + [(id, reply)]);
      if id in c.inflight
      then Some(c'.(inflight := c.inflight - {id}, slots := c.slots[id := Some(Answer(reply))]))
      else Some(c')
    case ReaderExit =>
      Some(c.(inflight := {},
              slots := map id | id in c.slots :: if id in c.inflight then Some(SocketClosed) else c.slots[id]))
    case Wake(call) =>
      (match PhaseOf(c, call)
       case Some(Waiting(id, attempt)) =>
         if id !in c.slots || c.slots[id].None? then None
         else (match c.slots[id].value
               case Answer(reply) => Some(c.(calls := c.calls[call := Settled(Answered(id, reply))]))
               case SocketClosed => Some(Fail(c, call, attempt)))
       case _ => None)
    case Fire(call) =>
      (match PhaseOf(c, call)
       case Some(Waiting(id, attempt)) =>
         if id !in c.slots || c.slots[id].Some? then None
         else Some(c.(calls := c.calls[call := Expired(id)]))
       case _ => None)
    case CleanUp(call) =>
      (match PhaseOf(c, call)
       case Some(Expired(id)) =>
         Some(c.(inflight := c.inflight - {id}, calls := c.calls[call := Settled(TimedOut)]))
       case _ => None)
    case Redial(call, ok, late) =>
      (match PhaseOf(c, call)
       case Some(Redialing) =>
         Some(c.(writer := c.writer || ok,
                 calls := c.calls[call := if late then Settled(TimedOut) else Ready(1)]))
       case _ => None)
    case Cancel(call, written) =>
      // The caller drops the call where it awaits, and nothing is cleaned up. Dropped in the middle of a
      // write, the request may be on the wire all the same. A timed-out call cleans up without awaiting.
      (match PhaseOf(c, call)
       case None => None
       case Some(Expired(_)) => None
       case Some(Settled(_)) => None
       case Some(Queued(id, attempt)) =>
         var wire := if written && c.writer then c.wire + [Issue(id, call, attempt)] else c.wire;
         Some(c.(wire := wire, calls := c.calls[call := Settled(Cancelled)]))
       case Some(_) => Some(c.(calls := c.calls[call := Settled(Cancelled)])))
  }

  // ----- Invariant ----------------------------------------------------------------------

  /** How many ids a call has been issued. */
  function Count(issues: seq<Issue>, call: nat): nat {
    if issues == [] then 0
    else Count(issues[..|issues| - 1], call) + (if issues[|issues| - 1].call == call then 1 else 0)
  }

  /** Ids are issued 1, 2, 3, ... */
  ghost predicate IdsInOrder(c: Client) {
    && c.nextId == |c.issued| + 1
    && forall i :: 0 <= i < |c.issued| ==> c.issued[i].id == i + 1
  }

  ghost predicate SlotsGood(c: Client) {
    && (forall id :: id in c.slots ==> 1 <= id < c.nextId)
    && (forall id :: id in c.inflight ==> id in c.slots && c.slots[id].None?)
    && (forall id :: id in c.slots && c.slots[id].Some? && c.slots[id].value.Answer? ==>
          (id, c.slots[id].value.reply) in c.responses)
  }

  /** What a call's phase says about the ids issued to it. */
  ghost predicate PhaseGood(c: Client, call: nat, p: Phase) {
    var n := Count(c.issued, call);
    match p
    case Ready(attempt) => n == attempt <= 1 && (attempt == 1 ==> call in c.broken)
    case Queued(id, attempt) => n == attempt + 1 && attempt <= 1 && Owns(c, call, id) && Count(c.wire, call) < n
                                && (attempt == 1 ==> call in c.broken)
    case Waiting(id, attempt) => n == attempt + 1 && attempt <= 1 && Owns(c, call, id)
                                 && (attempt == 1 ==> call in c.broken)
    case Expired(id) => n <= 2 && Owns(c, call, id) && (n == 2 ==> call in c.broken)
    case Redialing => n == 1 && call in c.broken
    case Settled(outcome) =>
      && n <= 2 && (n == 2 ==> call in c.broken)
      && (outcome.Answered? ==> Owns(c, call, outcome.id) && (outcome.id, outcome.reply) in c.responses)
  }

  ghost predicate Owns(c: Client, call: nat, id: nat) {
    1 <= id <= |c.issued| && c.issued[id - 1].call == call && id in c.slots
  }

  ghost predicate Inv(c: Client) {
    && IdsInOrder(c) && SlotsGood(c)
    && (forall call :: call in c.calls ==> PhaseGood(c, call, c.calls[call]))
    && (forall call :: call !in c.calls ==> Count(c.issued, call) == 0)
    && (forall call :: Count(c.wire, call) <= Count(c.issued, call))
  }

  lemma CountAppend(issues: seq<Issue>, i: Issue, call: nat)
    ensures Count(issues + [i], call) == Count(issues, call) + (if i.call == call then 1 else 0)
  {
    assert (issues + [i])[..|issues|] == issues;
  }

  /** The histories only grow, and not by anything of this call. */
  ghost predicate GrowsBeside(c: Client, c': Client, call: nat) {
    && c.issued <= c'.issued && Count(c'.issued, call) == Count(c.issued, call)
    && Count(c'.wire, call) == Count(c.wire, call)
    && c.slots.Keys <= c'.slots.Keys
    && (forall r :: r in c.responses ==> r in c'.responses)
    && c.broken <= c'.broken
  }

  lemma PhaseStaysGood(c: Client, c': Client, call: nat, p: Phase)
    requires PhaseGood(c, call, p) && GrowsBeside(c, c', call)
    ensures PhaseGood(c', call, p)
  {
    hide Count;
    assert forall i :: 0 <= i < |c.issued| ==> c'.issued[i] == c.issued[i];
  }

  /** Enough for a step that moves one call and leaves every other where it was. */
  lemma OneCallMoves(c: Client, c': Client, moved: nat)
    requires Inv(c) && IdsInOrder(c') && SlotsGood(c')
    requires moved in c'.calls && c'.calls.Keys == c.calls.Keys + {moved}
    requires forall call :: call in c.calls && call != moved ==> c'.calls[call] == c.calls[call]
    requires forall call :: call != moved ==> GrowsBeside(c, c', call)
    requires PhaseGood(c', moved, c'.calls[moved]) && Count(c'.wire, moved) <= Count(c'.issued, moved)
    ensures Inv(c')
  {
    hide Count, IdsInOrder, SlotsGood, PhaseGood;
    forall call | call in c'.calls ensures PhaseGood(c', call, c'.calls[call]) {
      if call != moved {
        PhaseStaysGood(c, c', call, c.calls[call]);
      }
    }
    forall call ensures Count(c'.wire, call) <= Count(c'.issued, call) {
      if call != moved {
        assert GrowsBeside(c, c', call);
      }
    }
    forall call | call !in c'.calls ensures Count(c'.issued, call) == 0 {
      assert GrowsBeside(c, c', call);
    }
  }

  lemma SendKeepsInv(c: Client, call: nat, fits: bool)
    requires Inv(c) && Next(c, Send(call, fits)).Some?
    ensures Inv(Next(c, Send(call, fits)).value)
  {
    hide Count;
    var c' := Next(c, Send(call, fits)).value;
    var i := Issue(c.nextId, call, c.calls[call].attempt);
    forall other ensures Count(c'.issued, other) == Count(c.issued, other) + (if other == call then 1 else 0) {
      CountAppend(c.issued, i, other);
    }
    OneCallMoves(c, c', call);
  }

  lemma WriteKeepsInv(c: Client, call: nat, ok: bool)
    requires Inv(c) && Next(c, Write(call, ok)).Some?
    ensures Inv(Next(c, Write(call, ok)).value)
  {
    hide Count;
    var c' := Next(c, Write(call, ok)).value;
    var i := Issue(c.calls[call].id, call, c.calls[call].attempt);
    forall other ensures c.writer ==> Count(c'.wire, other) == Count(c.wire, other) + (if other == call then 1 else 0) {
      CountAppend(c.wire, i, other);
    }
    OneCallMoves(c, c', call);
  }

  /** A step that touches no history: the moved call's new phase must fit the histories as they are. */
  lemma PhaseMoveKeepsInv(c: Client, c': Client, call: nat)
    requires Inv(c) && SlotsGood(c') && call in c'.calls
    requires c' == c.(calls := c.calls[call := c'.calls[call]], inflight := c'.inflight, writer := c'.writer,
                      broken := c'.broken)
    requires c.broken <= c'.broken && PhaseGood(c', call, c'.calls[call])
    ensures Inv(c')
  {
    hide Count, PhaseGood, SlotsGood;
    OneCallMoves(c, c', call);
  }

  lemma CallMoveKeepsInv(c: Client, step: Step)
    requires Inv(c) && Next(c, step).Some?
    requires step.Start? || step.Wake? || step.Fire? || step.CleanUp? || step.Redial?
    ensures Inv(Next(c, step).value)
  {
    hide Count;
    PhaseMoveKeepsInv(c, Next(c, step).value, step.call);
  }

  lemma CancelKeepsInv(c: Client, call: nat, written: bool)
    requires Inv(c) && Next(c, Cancel(call, written)).Some?
    ensures Inv(Next(c, Cancel(call, written)).value)
  {
    hide Count;
    var c' := Next(c, Cancel(call, written)).value;
    if c.calls[call].Queued? {
      var i := Issue(c.calls[call].id, call, c.calls[call].attempt);
      forall other
        ensures Count(c.wire + [i], other) == Count(c.wire, other) + (if other == call then 1 else 0)
      {
        CountAppend(c.wire, i, other);
      }
    }
    OneCallMoves(c, c', call);
  }

  lemma ReaderKeepsInv(c: Client, step: Step)
    requires Inv(c) && (step.Respond? || step.ReaderExit?)
    ensures Inv(Next(c, step).value)
  {
    hide Count;
    var c' := Next(c, step).value;
    forall call | call in c'.calls ensures PhaseGood(c', call, c'.calls[call]) {
      PhaseStaysGood(c, c', call, c.calls[call]);
    }
  }

  lemma StepKeepsInv(c: Client, step: Step)
    requires Inv(c) && Next(c, step).Some?
    ensures Inv(Next(c, step).value)
  {
    hide Inv, Next;
    match step {
      case Send(call, fits) => SendKeepsInv(c, call, fits);
      case Write(call, ok) => WriteKeepsInv(c, call, ok);
      case Respond(_, _) => ReaderKeepsInv(c, step);
      case ReaderExit => ReaderKeepsInv(c, step);
      case Start(_) => CallMoveKeepsInv(c, step);
      case Wake(_) => CallMoveKeepsInv(c, step);
      case Fire(_) => CallMoveKeepsInv(c, step);
      case CleanUp(_) => CallMoveKeepsInv(c, step);
      case Redial(_, _, _) => CallMoveKeepsInv(c, step);
      case Cancel(call, written) => CancelKeepsInv(c, call, written);
    }
  }

  // ----- Runs -----------------------------------------------------------------------------

  /** Any interleaving of callers, timers, readers and redials. */
  ghost predicate IsRun(cs: seq<Client>, steps: seq<Step>) {
    && |cs| == |steps| + 1 && cs[0] == CONNECTED
    && forall i :: 0 <= i < |steps| ==> Next(cs[i], steps[i]) == Some(cs[i + 1])
  }

  lemma {:induction false} RunKeepsInv(cs: seq<Client>, steps: seq<Step>, i: nat)
    requires IsRun(cs, steps) && i < |cs|
    ensures Inv(cs[i])
  {
    hide Next;
    if i > 0 {
      RunKeepsInv(cs, steps, i - 1);
      StepKeepsInv(cs[i - 1], steps[i - 1]);
    }
  }

  /** No request id is ever issued twice. */
  lemma IdsNeverReused(cs: seq<Client>, steps: seq<Step>, i: nat, a: nat, b: nat)
    requires IsRun(cs, steps) && i < |cs| && a < b < |cs[i].issued|
    ensures cs[i].issued[a].id != cs[i].issued[b].id
  {
    RunKeepsInv(cs, steps, i);
  }

  /** A settled call stays settled with the same outcome. */
  lemma {:induction false} SettlesOnce(cs: seq<Client>, steps: seq<Step>, i: nat, j: nat, call: nat)
    requires IsRun(cs, steps) && i <= j < |cs|
    requires call in cs[i].calls && cs[i].calls[call].Settled?
    ensures call in cs[j].calls && cs[j].calls[call] == cs[i].calls[call]
    decreases j
  {
    if i < j {
      SettlesOnce(cs, steps, i, j - 1, call);
      assert Next(cs[j - 1], steps[j - 1]) == Some(cs[j]);
    }
  }

  /** One call goes on the wire at most twice; the step that sends it again finds that it has already seen a
      transport failure. */
  lemma SentAtMostTwice(cs: seq<Client>, steps: seq<Step>, i: nat, call: nat)
    requires IsRun(cs, steps) && i < |cs|
    ensures Count(cs[i].wire, call) <= 2
    ensures i < |steps| && Count(cs[i].wire, call) == 1 && Count(cs[i + 1].wire, call) == 2 ==> call in cs[i].broken
  {
    hide Count;
    if i < |steps| {
      assert Next(cs[i], steps[i]) == Some(cs[i + 1]);
      WireStep(cs[i], steps[i], call);
    }
    RunKeepsInv(cs, steps, i);
    assert Count(cs[i].wire, call) <= Count(cs[i].issued, call);
    if call in cs[i].calls {
      assert PhaseGood(cs[i], call, cs[i].calls[call]);
    }
  }

  /** Only a call that is queued to be written can go on the wire. */
  lemma WireStep(c: Client, step: Step, call: nat)
    requires Next(c, step).Some?
    ensures
      Count(Next(c, step).value.wire, call) == Count(c.wire, call)
      || (call in c.calls && c.calls[call].Queued?)
  {
    hide Count;
    var c' := Next(c, step).value;
    if c'.wire != c.wire {
      CountAppend(c.wire, c'.wire[|c.wire|], call);
    }
  }

  /** The answer in a slot was put there by a response read while the id was in flight. */
  lemma {:induction false} SlotOrigin(cs: seq<Client>, steps: seq<Step>, i: nat, id: nat) returns (m: nat)
    requires IsRun(cs, steps) && i < |cs|
    requires id in cs[i].slots && cs[i].slots[id].Some? && cs[i].slots[id].value.Answer?
    ensures m < i && steps[m] == Respond(id, cs[i].slots[id].value.reply) && id in cs[m].inflight
    ensures id < cs[m].nextId
  {
    hide Next;
    RunKeepsInv(cs, steps, i - 1);
    assert Next(cs[i - 1], steps[i - 1]) == Some(cs[i]);
    SlotStep(cs[i - 1], steps[i - 1], id);
    if steps[i - 1].Respond? && steps[i - 1].id == id && id in cs[i - 1].inflight {
      m := i - 1;
    } else {
      m := SlotOrigin(cs, steps, i - 1, id);
    }
  }

  lemma SlotStep(c: Client, step: Step, id: nat)
    requires Inv(c) && Next(c, step).Some?
    ensures
      var c' := Next(c, step).value;
      id in c'.slots && c'.slots[id].Some? && c'.slots[id].value.Answer? ==>
        if step.Respond? && step.id == id && id in c.inflight
        then step.reply == c'.slots[id].value.reply && id < c.nextId
        else id in c.slots && c.slots[id] == c'.slots[id]
  {
    hide PhaseGood, Count;
  }

  ghost predicate AwaitsId(c: Client, call: nat, id: nat) {
    call in c.calls && (c.calls[call].Queued? || c.calls[call].Waiting?) && c.calls[call].id == id
  }

  /** A call that awaits an id has awaited it ever since the id was issued. */
  lemma {:induction false} AwaitsSinceIssue(cs: seq<Client>, steps: seq<Step>, m: nat, i: nat, call: nat, id: nat)
    requires IsRun(cs, steps) && m <= i < |cs| && AwaitsId(cs[i], call, id) && id < cs[m].nextId
    ensures AwaitsId(cs[m], call, id)
    decreases i
  {
    hide Next, AwaitsId;
    if m < i {
      IdsGrow(cs, steps, m, i - 1);
      assert Next(cs[i - 1], steps[i - 1]) == Some(cs[i]);
      AwaitsStep(cs[i - 1], steps[i - 1], call, id);
      AwaitsSinceIssue(cs, steps, m, i - 1, call, id);
    }
  }

  lemma AwaitsStep(c: Client, step: Step, call: nat, id: nat)
    requires Next(c, step).Some? && AwaitsId(Next(c, step).value, call, id) && id < c.nextId
    ensures AwaitsId(c, call, id)
  {
  }

  lemma {:induction false} IdsGrow(cs: seq<Client>, steps: seq<Step>, m: nat, i: nat)
    requires IsRun(cs, steps) && m <= i < |cs|
    ensures cs[m].nextId <= cs[i].nextId
    decreases i
  {
    if m < i {
      IdsGrow(cs, steps, m, i - 1);
      assert Next(cs[i - 1], steps[i - 1]) == Some(cs[i]);
    }
  }

  lemma {:induction false} SettlingStep(cs: seq<Client>, steps: seq<Step>, i: nat, call: nat) returns (t: nat)
    requires IsRun(cs, steps) && i < |cs|
    requires call in cs[i].calls && cs[i].calls[call].Settled? && cs[i].calls[call].outcome.Answered?
    ensures t < i
    ensures
      var o := cs[i].calls[call].outcome;
      && AwaitsId(cs[t], call, o.id)
      && o.id in cs[t].slots && cs[t].slots[o.id] == Some(Answer(o.reply))
  {
    assert Next(cs[i - 1], steps[i - 1]) == Some(cs[i]);
    if call in cs[i - 1].calls && cs[i - 1].calls[call] == cs[i].calls[call] {
      t := SettlingStep(cs, steps, i - 1, call);
    } else {
      t := i - 1;
    }
  }

  /** Demultiplexing: a call that ends with an answer got it from a response that carried the id of one of
      its own sends and was read while the call was waiting for that id; no other call ever owns the id. */
  lemma AnswersAreOwn(cs: seq<Client>, steps: seq<Step>, i: nat, call: nat) returns (m: nat)
    requires IsRun(cs, steps) && i < |cs|
    requires call in cs[i].calls && cs[i].calls[call].Settled? && cs[i].calls[call].outcome.Answered?
    ensures
      var o := cs[i].calls[call].outcome;
      && m < i && steps[m] == Respond(o.id, o.reply)
      && AwaitsId(cs[m], call, o.id)
      && Owns(cs[i], call, o.id)
      && forall other :: other != call ==> !Owns(cs[i], other, o.id)
  {
    hide Next;
    RunKeepsInv(cs, steps, i);
    var o := cs[i].calls[call].outcome;
    var t := SettlingStep(cs, steps, i, call);
    m := SlotOrigin(cs, steps, t, o.id);
    AwaitsSinceIssue(cs, steps, m, t, call, o.id);
  }

  /** An answer, once given, is the last word. */
  lemma {:induction false} AnswerSince(cs: seq<Client>, steps: seq<Step>, m: nat, j: nat, call: nat)
    requires IsRun(cs, steps) && m <= j < |cs|
    requires call in cs[j].calls && cs[j].calls[call].Settled? && cs[j].calls[call].outcome.Answered?
    requires cs[j].calls[call].outcome.id < cs[m].nextId && !AwaitsId(cs[m], call, cs[j].calls[call].outcome.id)
    ensures call in cs[m].calls && cs[m].calls[call] == cs[j].calls[call]
    decreases j
  {
    hide AwaitsId, Next;
    if m < j {
      assert Next(cs[j - 1], steps[j - 1]) == Some(cs[j]);
      if call in cs[j - 1].calls && cs[j - 1].calls[call] == cs[j].calls[call] {
        AnswerSince(cs, steps, m, j - 1, call);
      } else {
        AnsweredFromAwaiting(cs[j - 1], steps[j - 1], call);
        AwaitsSinceIssue(cs, steps, m, j - 1, call, cs[j].calls[call].outcome.id);
      }
    }
  }

  lemma AnsweredFromAwaiting(c: Client, step: Step, call: nat)
    requires Next(c, step).Some?
    requires
      var c' := Next(c, step).value;
      && call in c'.calls && c'.calls[call].Settled? && c'.calls[call].outcome.Answered?
      && !(call in c.calls && c.calls[call] == c'.calls[call])
    ensures AwaitsId(c, call, Next(c, step).value.calls[call].outcome.id)
  {
  }

  /** A late reply reaches nobody. Let a response arrive for an id no call awaits, whether or not its slot
      is still entered. Then every call that ever ends with an answer under that id had that answer already
      or, if the id had not been issued yet, has it from another response read later, while it waited. */
  lemma LateReplyReachesNobody(cs: seq<Client>, steps: seq<Step>, m: nat, j: nat, call: nat) returns (t: nat)
    requires IsRun(cs, steps) && m < |steps| && m <= j < |cs| && steps[m].Respond?
    requires forall other :: !AwaitsId(cs[m], other, steps[m].id)
    requires call in cs[j].calls && cs[j].calls[call].Settled? && cs[j].calls[call].outcome.Answered?
    requires cs[j].calls[call].outcome.id == steps[m].id
    ensures t < j && t != m && steps[t] == Respond(steps[m].id, cs[j].calls[call].outcome.reply)
    ensures AwaitsId(cs[t], call, steps[m].id)
    ensures if steps[m].id < cs[m].nextId
            then t < m && call in cs[m].calls && cs[m].calls[call] == cs[j].calls[call]
            else t > m
  {
    hide Next, AwaitsId;
    var id := steps[m].id;
    if id < cs[m].nextId {
      AnswerSince(cs, steps, m, j, call);
      t := AnswersAreOwn(cs, steps, m, call);
    } else {
      t := AnswersAreOwn(cs, steps, j, call);
      if t < m {
        AwaitedIsIssued(cs, steps, t, call, id);
        IdsGrow(cs, steps, t, m);
      }
    }
  }

  lemma AwaitedIsIssued(cs: seq<Client>, steps: seq<Step>, t: nat, call: nat, id: nat)
    requires IsRun(cs, steps) && t < |cs| && AwaitsId(cs[t], call, id)
    ensures id < cs[t].nextId
  {
    hide Next;
    RunKeepsInv(cs, steps, t);
    assert PhaseGood(cs[t], call, cs[t].calls[call]);
  }

  // ----- Every call gets what happened to it -------------------------------------------------

  lemma AnswerStaysStep(c: Client, step: Step, call: nat, id: nat, attempt: nat, reply: Reply)
    requires Inv(c) && Next(c, step).Some?
    requires PhaseOf(c, call) == Some(Waiting(id, attempt)) && id in c.slots && c.slots[id] == Some(Answer(reply))
    ensures
      var c' := Next(c, step).value;
      && id in c'.slots && c'.slots[id] == Some(Answer(reply))
      && PhaseOf(c', call) == Some(if step == Wake(call) then Settled(Answered(id, reply))
                                   else if step.Cancel? && step.call == call then Settled(Cancelled)
                                   else Waiting(id, attempt))
    ensures Next(c, Wake(call)).Some? && Next(c, Fire(call)).None?
  {
    hide PhaseGood, Count;
  }

  /** A reply read while its call waits is that call's outcome: from then on the call still waits, can be woken
      at any time and is then settled with exactly this answer; or it has been; or it was cancelled. No
      timeout, reader exit, redial or other reply comes between. */
  lemma {:induction false} AnswerIsDelivered(cs: seq<Client>, steps: seq<Step>, m: nat, j: nat, call: nat)
    requires IsRun(cs, steps) && m < j < |cs| && steps[m].Respond? && steps[m].id in cs[m].inflight
    requires call in cs[m].calls && cs[m].calls[call].Waiting? && cs[m].calls[call].id == steps[m].id
    ensures
      var answered := Settled(Answered(steps[m].id, steps[m].reply));
      && call in cs[j].calls
      && (cs[j].calls[call] in {cs[m].calls[call], answered, Settled(Cancelled)})
      && (cs[j].calls[call] == cs[m].calls[call] ==>
            && steps[m].id in cs[j].slots && cs[j].slots[steps[m].id] == Some(Answer(steps[m].reply))
            && Next(cs[j], Wake(call)).Some? && Next(cs[j], Wake(call)).value.calls[call] == answered)
    decreases j
  {
    hide Next, Inv;
    var id, reply, attempt := steps[m].id, steps[m].reply, cs[m].calls[call].attempt;
    assert Next(cs[j - 1], steps[j - 1]) == Some(cs[j]);
    RunKeepsInv(cs, steps, j - 1);
    RunKeepsInv(cs, steps, j);
    if j == m + 1 {
      RespondFills(cs[m], id, reply);
    } else {
      AnswerIsDelivered(cs, steps, m, j - 1, call);
      if cs[j - 1].calls[call].Settled? {
        SettledStep(cs[j - 1], steps[j - 1], call);
      } else {
        AnswerStaysStep(cs[j - 1], steps[j - 1], call, id, attempt, reply);
      }
    }
    if cs[j].calls[call] == cs[m].calls[call] {
      WakeIsEnabled(cs[j], call, id, attempt, reply);
    }
  }

  lemma RespondFills(c: Client, id: nat, reply: Reply)
    requires id in c.inflight
    ensures Next(c, Respond(id, reply)).Some?
    ensures
      var c' := Next(c, Respond(id, reply)).value;
      c'.calls == c.calls && id in c'.slots && c'.slots[id] == Some(Answer(reply))
  {
  }

  lemma SettledStep(c: Client, step: Step, call: nat)
    requires Next(c, step).Some? && call in c.calls && c.calls[call].Settled?
    ensures call in Next(c, step).value.calls && Next(c, step).value.calls[call] == c.calls[call]
  {
  }

  lemma WakeIsEnabled(c: Client, call: nat, id: nat, attempt: nat, reply: Reply)
    requires PhaseOf(c, call) == Some(Waiting(id, attempt)) && id in c.slots && c.slots[id] == Some(Answer(reply))
    ensures Next(c, Wake(call)).Some? && Next(c, Wake(call)).value.calls[call] == Settled(Answered(id, reply))
  {
  }

  /** A call whose socket closes under it goes on: the first attempt leads to a redial, the second gives up. */
  lemma ClosedSocketMovesOn(c: Client, call: nat)
    requires Inv(c) && call in c.calls && c.calls[call].Waiting? && c.calls[call].id in c.inflight
    ensures
      var d := Next(c, ReaderExit).value;
      && PhaseOf(d, call) == Some(c.calls[call]) && Next(d, Fire(call)).None? && Next(d, Wake(call)).Some?
      && Next(d, Wake(call)).value.calls[call]
         == (if c.calls[call].attempt == 0 then Redialing else Settled(Unavailable))
  {
    hide PhaseGood, Count;
  }

  /** After a redial in time the call is sent again, under a fresh id, on the second attempt. */
  lemma RedialSendsAgain(c: Client, call: nat, ok: bool)
    requires PhaseOf(c, call) == Some(Redialing)
    ensures
      var d := Next(c, Redial(call, ok, false)).value;
      && (ok ==> d.writer) && Next(d, Send(call, true)).Some?
      && Next(d, Send(call, true)).value.calls[call] == Queued(c.nextId, 1)
      && Next(c, Redial(call, ok, true)).value.calls[call] == Settled(TimedOut)
  {
  }

  /** A successful redial leaves a writer for whoever writes next, until some write fails. */
  lemma {:induction false} RedialGivesWriter(cs: seq<Client>, steps: seq<Step>, i: nat, j: nat)
    requires IsRun(cs, steps) && i < j < |cs| && steps[i].Redial? && steps[i].ok
    requires forall t :: i < t < j && steps[t].Write? ==> steps[t].ok
    ensures cs[j].writer
    decreases j
  {
    assert Next(cs[j - 1], steps[j - 1]) == Some(cs[j]);
    if i < j - 1 {
      RedialGivesWriter(cs, steps, i, j - 1);
    }
  }

  lemma WrittenStep(c: Client, step: Step, call: nat)
    requires Next(c, step).Some?
    ensures c.wire <= Next(c, step).value.wire
    ensures PhaseOf(Next(c, step).value, call).Some? && Next(c, step).value.calls[call].Waiting? ==>
              || PhaseOf(c, call) == Some(Next(c, step).value.calls[call])
              || Issue(Next(c, step).value.calls[call].id, call, Next(c, step).value.calls[call].attempt)
                 in Next(c, step).value.wire
  {
  }

  /** A call that waits for an answer has put its request, under that id, on the wire. */
  lemma {:induction false} WaitingWasWritten(cs: seq<Client>, steps: seq<Step>, i: nat, call: nat)
    requires IsRun(cs, steps) && i < |cs| && call in cs[i].calls && cs[i].calls[call].Waiting?
    ensures Issue(cs[i].calls[call].id, call, cs[i].calls[call].attempt) in cs[i].wire
  {
    hide Next;
    assert Next(cs[i - 1], steps[i - 1]) == Some(cs[i]);
    WrittenStep(cs[i - 1], steps[i - 1], call);
    if PhaseOf(cs[i - 1], call) == Some(cs[i].calls[call]) {
      WaitingWasWritten(cs, steps, i - 1, call);
    }
  }

  /** What a step must be for a call to end in it with a given outcome. */
  predicate Explains(step: Step, call: nat, o: Outcome) {
    match o
    case Answered(_, _) => step == Wake(call)
    case TimedOut => step == CleanUp(call) || (step.Redial? && step.call == call && step.late)
    case Unavailable => step == Wake(call) || (step.Write? && step.call == call)
    case TooLarge => step == Send(call, false)
    case Cancelled => step.Cancel? && step.call == call
  }

  lemma SettlingStepExplains(c: Client, step: Step, call: nat)
    requires Inv(c) && Next(c, step).Some?
    requires call in Next(c, step).value.calls && Next(c, step).value.calls[call].Settled?
    requires !(call in c.calls && c.calls[call].Settled?)
    ensures
      var o := Next(c, step).value.calls[call].outcome;
      && Explains(step, call, o) && call in c.calls
      && (o.TimedOut? && step.CleanUp? ==> c.calls[call].Expired?)
      && (o.Unavailable? ==> call in Next(c, step).value.broken && Attempts(c, call) == 1)
  {
    hide Count;
  }

  /** Every outcome has its cause: an answer a wake-up; a timeout the call's own clean-up after its timer, or a
      redial that came back too late; giving up a transport failure on the second attempt; and so on. */
  lemma {:induction false} OutcomeHasCause(cs: seq<Client>, steps: seq<Step>, i: nat, call: nat) returns (m: nat)
    requires IsRun(cs, steps) && i < |cs| && call in cs[i].calls && cs[i].calls[call].Settled?
    ensures m < i && Explains(steps[m], call, cs[i].calls[call].outcome) && call in cs[m].calls
    ensures cs[i].calls[call].outcome.TimedOut? && steps[m].CleanUp? ==> cs[m].calls[call].Expired?
    ensures cs[i].calls[call].outcome.Unavailable? ==> call in cs[m + 1].broken && Attempts(cs[m], call) == 1
  {
    hide Next, Inv;
    assert Next(cs[i - 1], steps[i - 1]) == Some(cs[i]);
    RunKeepsInv(cs, steps, i - 1);
    if call in cs[i - 1].calls && cs[i - 1].calls[call].Settled? {
      SettledStep(cs[i - 1], steps[i - 1], call);
      m := OutcomeHasCause(cs, steps, i - 1, call);
    } else {
      SettlingStepExplains(cs[i - 1], steps[i - 1], call);
      m := i - 1;
    }
  }

  /** The attempt a call that is queued or waiting is on. */
  function Attempts(c: Client, call: nat): nat
    requires call in c.calls
  {
    match c.calls[call]
    case Queued(_, attempt) => attempt
    case Waiting(_, attempt) => attempt
    case _ => 0
  }

  /** A timer that fires ends the call as timed out, and nothing else does afterwards. */
  lemma {:induction false} TimerEndsCall(cs: seq<Client>, steps: seq<Step>, m: nat, j: nat, call: nat)
    requires IsRun(cs, steps) && m < j < |cs| && steps[m] == Fire(call)
    ensures call in cs[j].calls
    ensures cs[j].calls[call] == Settled(TimedOut)
         || (cs[j].calls[call].Expired? && Next(cs[j], CleanUp(call)).Some?
             && Next(cs[j], CleanUp(call)).value.calls[call] == Settled(TimedOut))
    decreases j
  {
    assert Next(cs[j - 1], steps[j - 1]) == Some(cs[j]);
    if m < j - 1 {
      TimerEndsCall(cs, steps, m, j - 1, call);
    }
  }

  // ----- Ids left behind ----------------------------------------------------------------------

  /** In flight, and no call awaits it. */
  ghost predicate LeftBehind(c: Client, id: nat) {
    id in c.inflight && forall call :: !AwaitsId(c, call, id)
  }

  /** The call that awaits the id stops awaiting it and leaves it in flight: it finds no writer, its timer
      fires (and it will yet clean up), or it is cancelled. */
  ghost predicate Abandons(c: Client, step: Step, id: nat) {
    && id in c.inflight
    && ((step.Write? && !c.writer) || step.Fire? || step.Cancel?)
    && AwaitsId(c, step.call, id)
  }

  /** The id is taken out of the map though nobody awaits it: a reply to it is read, a reader exits, or the
      call that timed out cleans up. */
  predicate Clears(c: Client, step: Step, id: nat) {
    || (step.Respond? && step.id == id)
    || step.ReaderExit?
    || (step.CleanUp? && PhaseOf(c, step.call) == Some(Expired(id)))
  }

  lemma OneAwaits(c: Client, id: nat, a: nat, b: nat)
    requires Inv(c) && AwaitsId(c, a, id) && AwaitsId(c, b, id)
    ensures a == b
  {
    hide Count;
    assert PhaseGood(c, a, c.calls[a]) && PhaseGood(c, b, c.calls[b]);
  }

  lemma AbandonsExactly(c: Client, step: Step, id: nat)
    requires Inv(c) && Next(c, step).Some?
    ensures LeftBehind(Next(c, step).value, id)
       <==> Abandons(c, step, id) || (LeftBehind(c, id) && !Clears(c, step, id))
  {
    var c' := Next(c, step).value;
    if id in c.inflight && id in c'.inflight {
      if call :| AwaitsId(c, call, id) {
        AwaitedStep(c, step, id, call);
      } else {
        UnawaitedStep(c, step, id);
      }
    } else {
      MapStep(c, step, id);
    }
  }

  /** An awaited id that stays in flight is abandoned or still awaited. */
  lemma AwaitedStep(c: Client, step: Step, id: nat, call: nat)
    requires Inv(c) && Next(c, step).Some? && AwaitsId(c, call, id) && id in Next(c, step).value.inflight
    requires id in c.inflight
    ensures LeftBehind(Next(c, step).value, id) <==> Abandons(c, step, id)
  {
    var c' := Next(c, step).value;
    forall other | AwaitsId(c, other, id) ensures other == call {
      OneAwaits(c, id, other, call);
    }
    assert id < c.nextId && c.slots[id].None?;
    hide Inv;
    assert AwaitsId(c', call, id) <==> !Abandons(c, step, id);
    hide Next, AwaitsId, Abandons;
    forall other ensures AwaitsId(c', other, id) ==> other == call {
      if AwaitsId(c', other, id) {
        AwaitsStep(c, step, other, id);
      }
    }
  }

  lemma UnawaitedStep(c: Client, step: Step, id: nat)
    requires Inv(c) && Next(c, step).Some? && LeftBehind(c, id) && id in Next(c, step).value.inflight
    ensures LeftBehind(Next(c, step).value, id) && !Clears(c, step, id)
  {
    assert id < c.nextId;
    hide Inv;
    var c' := Next(c, step).value;
    forall call ensures !AwaitsId(c', call, id) {
      if AwaitsId(c', call, id) {
        AwaitsStep(c, step, call, id);
      }
    }
  }

  /** An id enters the map awaited; one that leaves it unawaited is cleared. */
  lemma MapStep(c: Client, step: Step, id: nat)
    requires Inv(c) && Next(c, step).Some?
    ensures
      var c' := Next(c, step).value;
      && (id !in c.inflight && id in c'.inflight ==> !LeftBehind(c', id))
      && (id in c.inflight && id !in c'.inflight ==>
            !Abandons(c, step, id) && (LeftBehind(c, id) ==> Clears(c, step, id)))
  {
    hide Inv;
    var c' := Next(c, step).value;
    if id !in c.inflight && id in c'.inflight {
      assert AwaitsId(c', step.call, id);
    } else if step.Write? && id in c.inflight && id !in c'.inflight {
      assert AwaitsId(c, step.call, id);
    }
  }

  /** Over every run, an id is in flight with nobody awaiting it if and only if an earlier step abandoned it
      and no step since has cleared it. */
  lemma {:induction false} LeftBehindExactly(cs: seq<Client>, steps: seq<Step>, i: nat, id: nat)
    requires IsRun(cs, steps) && i < |cs|
    ensures LeftBehind(cs[i], id)
       <==> exists m :: 0 <= m < i && Abandons(cs[m], steps[m], id)
                        && forall t :: m < t < i ==> !Clears(cs[t], steps[t], id)
  {
    hide Next, Inv, LeftBehind, Abandons, Clears;
    if i == 0 {
      NothingLeftYet(id);
    } else {
      LeftBehindExactly(cs, steps, i - 1, id);
      RunKeepsInv(cs, steps, i - 1);
      assert Next(cs[i - 1], steps[i - 1]) == Some(cs[i]);
      AbandonsExactly(cs[i - 1], steps[i - 1], id);
      if LeftBehind(cs[i], id) {
        if !Abandons(cs[i - 1], steps[i - 1], id) {
          var m :| 0 <= m < i - 1 && Abandons(cs[m], steps[m], id)
                   && forall t :: m < t < i - 1 ==> !Clears(cs[t], steps[t], id);
          assert forall t :: m < t < i ==> !Clears(cs[t], steps[t], id);
        }
      }
    }
  }

  lemma NothingLeftYet(id: nat)
    ensures !LeftBehind(CONNECTED, id)
  {
  }

  /** A cancelled call leaves its id behind as well, and its reply is accepted. */
  lemma CancelledCallTakesReply() returns (cs: seq<Client>, steps: seq<Step>)
    ensures IsRun(cs, steps)
    ensures steps == [Start(1), Send(1, true), Write(1, true), Cancel(1, false), Respond(1, Value([]))]
    ensures LeftBehind(cs[4], 1) && cs[4].calls == map[1 := Settled(Cancelled)]
    ensures 1 in cs[5].slots && cs[5].slots[1] == Some(Answer(Value([]))) && cs[5].calls == cs[4].calls
  {
    steps := [Start(1), Send(1, true), Write(1, true), Cancel(1, false), Respond(1, Value([]))];
    var c1 := Next(CONNECTED, steps[0]).value;
    var c2 := Next(c1, steps[1]).value;
    assert c2.calls == map[1 := Queued(1, 0)] && c2.inflight == {1};
    var c3 := Next(c2, steps[2]).value;
    assert c3.calls == map[1 := Waiting(1, 0)];
    var c4 := Next(c3, steps[3]).value;
    assert c4.calls == map[1 := Settled(Cancelled)] && c4.inflight == {1};
    cs := [CONNECTED, c1, c2, c3, c4, Next(c4, steps[4]).value];
  }

  /** Such replies are not only those the in-flight map turns away: a call that finds no writer fails and
      leaves its slot entered, so a reply to the abandoned id is accepted although nobody awaits it. */
  lemma AbandonedSlotTakesReply() returns (cs: seq<Client>, steps: seq<Step>)
    ensures IsRun(cs, steps) && |steps| == 7 && steps[6] == Respond(2, Value([]))
    ensures LeftBehind(cs[6], 2)
    ensures 2 in cs[7].slots && cs[7].slots[2] == Some(Answer(Value([])))
  {
    steps := [Start(1), Start(2), Send(1, true), Send(2, true), Write(1, false), Write(2, true),
              Respond(2, Value([]))];
    var c1 := Next(CONNECTED, steps[0]).value;
    var c2 := Next(c1, steps[1]).value;
    assert c2.calls == map[1 := Ready(0), 2 := Ready(0)];
    var c3 := Next(c2, steps[2]).value;
    var c4 := Next(c3, steps[3]).value;
    assert c4.calls == map[1 := Queued(1, 0), 2 := Queued(2, 0)] && c4.inflight == {1, 2};
    var c5 := Next(c4, steps[4]).value;
    assert c5.calls == map[1 := Redialing, 2 := Queued(2, 0)] && c5.inflight == {2};
    var c6 := Next(c5, steps[5]).value;
    assert c6.calls == map[1 := Redialing, 2 := Redialing] && c6.inflight == {2};
    var c7 := Next(c6, steps[6]).value;
    cs := [CONNECTED, c1, c2, c3, c4, c5, c6, c7];
  }
}
