/**
  Reply rendezvous on the DevTools connection: every session numbers its commands
  from 1, but all sessions share one pending map keyed by that number alone.
 */
module CdpRendezvous {
  import opened Text

  /** A reply names the command Chromium is answering; the dispatcher sees only the id. */
  datatype Frame = Frame(answers: nat, body: seq<Byte>)

  datatype Signal = Reply(frame: Frame) | ConnectionClosed | SenderDropped

  datatype Result = Got(frame: Frame) | Closed | TimedOut

  /** Where a sender is: it has its id; its entry is in the map and it waits for room in the writer's
      queue; its frame is queued and it waits for a signal; it has failed and has yet to clear its id from
      the map; it has returned. */
  datatype Phase = Numbered | Sending | Waiting | Ending(result: Result) | Done(result: Result)

  datatype Command = Command(session: nat, id: nat, phase: Phase, signal: Option<Signal>)

  /** The reader task: in its loop; failing what is pending after the pipe has closed; ended. */
  datatype Reader = Reading | Draining | Ended

  /** `unanswered` are the commands handed to the writer and not yet replied to. */
  datatype Conn = Conn(
    reader: Reader, nextIds: map<nat, nat>, pending: map<nat, nat>, commands: map<nat, Command>, unanswered: set<nat>)

  const OPEN := Conn(Reading, map[], map[], map[], {})

  datatype Step =
    | Number(cmd: nat, session: nat)
    | Insert(cmd: nat)
    | Enqueue(cmd: nat, accepted: bool)
    | Receive(cmd: nat, body: seq<Byte>)
    | Wake(cmd: nat)
    | Timeout(cmd: nat)
    | CleanUp(cmd: nat)
    | Close
    | Drain(id: nat)
    | End

  function NextId(c: Conn, session: nat): nat {
    if session in c.nextIds then c.nextIds[session] else 1
  }

  function Signalled(commands: map<nat, Command>, cmd: nat, s: Signal): map<nat, Command> {
    if cmd in commands then commands[cmd := commands[cmd].(signal := Some(s))] else commands
  }

  /** `pending.remove(&id)`: whoever is parked there gets the signal. A sender thrown away unused, by a
      removal or by an insertion over it, is itself a signal to the receiver. */
  function Release(c: Conn, id: nat, s: Signal): Conn {
    if id in c.pending
    then c.(pending := c.pending - {id}, commands := Signalled(c.commands, c.pending[id], s))
    else c
  }

  function PhaseOf(c: Conn, cmd: nat): Option<Phase> {
    if cmd in c.commands then Some(c.commands[cmd].phase) else None
  }

  function Moved(c: Conn, cmd: nat, p: Phase): Conn
    requires cmd in c.commands
  {
    c.(commands := c.commands[cmd := c.commands[cmd].(phase := p)])
  }

  function Next(c: Conn, step: Step): Option<Conn> {
    match step
    case Number(cmd, session) =>
      if cmd in c.commands then None
      else
        var id := NextId(c, session);
        Some(c.(nextIds := c.nextIds[session := id + 1],
                commands := c.commands[cmd := Command(session, id, Numbered, None)]))
    case Insert(cmd) =>
      if PhaseOf(c, cmd) != Some(Numbered) then None
      else
        var id := c.commands[cmd].id;
        var d := Release(c, id, SenderDropped);
        Some(Moved(d, cmd, Sending).(pending := d.pending[id := cmd]))
    case Enqueue(cmd, accepted) =>
      if PhaseOf(c, cmd) != Some(Sending) then None
      else if accepted then Some(Moved(c, cmd, Waiting).(unanswered := c.unanswered + {cmd}))
      else Some(Moved(c, cmd, Ending(Closed)))
    case Receive(cmd, body) =>
      if !c.reader.Reading? || cmd !in c.unanswered || cmd !in c.commands then None
      else
        Some(Release(c, c.commands[cmd].id, Reply(Frame(cmd, body))).(unanswered := c.unanswered - {cmd}))
    case Wake(cmd) =>
      if PhaseOf(c, cmd) != Some(Waiting) then None
      else (match c.commands[cmd].signal
            case None => None
            case Some(Reply(frame)) => Some(Moved(c, cmd, Done(Got(frame))))
            case Some(ConnectionClosed) => Some(Moved(c, cmd, Done(Closed)))
            case Some(SenderDropped) => Some(Moved(c, cmd, Ending(Closed))))
    case Timeout(cmd) =>
      if PhaseOf(c, cmd) != Some(Waiting) || c.commands[cmd].signal.Some? then None
      else Some(Moved(c, cmd, Ending(TimedOut)))
    case CleanUp(cmd) =>
      (match PhaseOf(c, cmd)
       case Some(Ending(result)) => Some(Moved(Release(c, c.commands[cmd].id, SenderDropped), cmd, Done(result)))
       case _ => None)
    case Close =>
      if c.reader.Reading? then Some(c.(reader := Draining)) else None
    case Drain(id) =>
      if !c.reader.Draining? || id !in c.pending then None else Some(Release(c, id, ConnectionClosed))
    case End =>
      if c.reader.Draining? && c.pending == map[] then Some(c.(reader := Ended)) else None
  }

  function AllClosed(commands: map<nat, Command>, pending: map<nat, nat>): map<nat, Command> {
    map cmd | cmd in commands ::
      if cmd in pending.Values then commands[cmd].(signal := Some(ConnectionClosed)) else commands[cmd]
  }

  /** The reader's exit, undisturbed: take one entry at a time, in whatever order the map gives them, until
      the map is empty, failing each as closed. */
  method DrainOnClose(c: Conn) returns (c': Conn)
    requires c.reader.Draining?
    ensures c' == c.(pending := map[], commands := AllClosed(c.commands, c.pending))
  {
    hide PartlyClosed, AllClosed, Signalled;
    c' := c;
    NoneClosed(c);
    while c'.pending != map[]
      invariant c' == c.(pending := c'.pending, commands := c'.commands)
      invariant forall id :: id in c'.pending ==> id in c.pending && c'.pending[id] == c.pending[id]
      invariant PartlyClosed(c.commands, c.pending, c'.commands, c'.pending)
      decreases |c'.pending|
    {
      var id :| id in c'.pending;
      OneMoreClosed(c, c', id);
      c' := Release(c', id, ConnectionClosed);
    }
    EveryoneClosed(c, c');
  }

  lemma NoneClosed(c: Conn)
    ensures PartlyClosed(c.commands, c.pending, c.commands, c.pending)
  {
  }

  lemma EveryoneClosed(c: Conn, d: Conn)
    requires d.pending == map[] && PartlyClosed(c.commands, c.pending, d.commands, d.pending)
    ensures d.commands == AllClosed(c.commands, c.pending)
  {
    forall cmd | cmd in c.commands ensures d.commands[cmd] == AllClosed(c.commands, c.pending)[cmd] {
      if cmd in c.pending.Values {
        var id :| id in c.pending && c.pending[id] == cmd;
      }
    }
  }

  ghost predicate PartlyClosed(
    commands: map<nat, Command>, pending: map<nat, nat>, commands': map<nat, Command>, pending': map<nat, nat>)
  {
    && commands'.Keys == commands.Keys
    && (forall cmd :: cmd in commands ==>
          commands'[cmd] == commands[cmd] || commands'[cmd] == commands[cmd].(signal := Some(ConnectionClosed)))
    && (forall id :: id in pending && id !in pending' && pending[id] in commands ==>
          commands'[pending[id]] == commands[pending[id]].(signal := Some(ConnectionClosed)))
    && (forall cmd :: cmd in commands && cmd !in pending.Values ==> commands'[cmd] == commands[cmd])
  }

  lemma OneMoreClosed(c: Conn, d: Conn, id: nat)
    requires id in d.pending
    requires forall i :: i in d.pending ==> i in c.pending && d.pending[i] == c.pending[i]
    requires PartlyClosed(c.commands, c.pending, d.commands, d.pending)
    ensures var e := Release(d, id, ConnectionClosed);
            PartlyClosed(c.commands, c.pending, e.commands, e.pending)
  {
    assert c.pending[id] in c.pending.Values;
  }

  // ----- What every step keeps -----------------------------------------------------------

  /** Its sender half is still in the map. */
  predicate Listening(k: Command) {
    !k.phase.Numbered? && k.signal.None?
  }

  predicate Coherent(k: Command) {
    && (k.phase.Numbered? ==> k.signal.None?)
    && (k.phase.Ending? ==> !k.phase.result.Got?)
    && (k.phase.Done? ==> k.signal.Some? && (k.phase.result.Got? ==> k.signal == Some(Reply(k.phase.result.frame))))
  }

  /** The map holds exactly the commands not yet signalled, each under its own id. */
  ghost predicate MapExact(c: Conn) {
    && (forall id :: id in c.pending ==> c.pending[id] in c.commands)
    && (forall id :: id in c.pending ==>
          c.commands[c.pending[id]].id == id && Listening(c.commands[c.pending[id]]))
    && (forall cmd :: cmd in c.commands && Listening(c.commands[cmd]) ==>
          c.commands[cmd].id in c.pending && c.pending[c.commands[cmd].id] == cmd)
  }

  ghost predicate CommandsGood(c: Conn) {
    && (forall cmd :: cmd in c.commands ==> Coherent(c.commands[cmd]))
    && (forall cmd :: cmd in c.commands ==> c.commands[cmd].id < NextId(c, c.commands[cmd].session))
    && (forall cmd :: cmd in c.unanswered ==>
          cmd in c.commands && !c.commands[cmd].phase.Numbered? && !c.commands[cmd].phase.Sending?)
  }

  ghost predicate Inv(c: Conn) {
    MapExact(c) && CommandsGood(c)
  }

  /** The same commands up to signals, fewer of them parked. */
  ghost predicate Released(c: Conn, d: Conn) {
    && d.commands.Keys == c.commands.Keys && d.unanswered == c.unanswered && d.nextIds == c.nextIds
    && (forall i :: i in d.pending ==> i in c.pending && d.pending[i] == c.pending[i])
    && (forall cmd :: cmd in c.commands ==>
          d.commands[cmd] == c.commands[cmd].(signal := d.commands[cmd].signal))
    && (forall cmd :: cmd in c.commands && !Listening(c.commands[cmd]) ==> d.commands[cmd] == c.commands[cmd])
  }

  lemma ReleaseKeepsInv(c: Conn, id: nat, s: Signal)
    requires Inv(c)
    ensures Inv(Release(c, id, s)) && id !in Release(c, id, s).pending && Released(c, Release(c, id, s))
  {
    hide MapExact, CommandsGood, Released;
    ReleaseFrame(c, id, s);
    ReleaseKeepsMap(c, id, s);
    ReleaseKeepsCommands(c, id, s);
  }

  lemma ReleaseFrame(c: Conn, id: nat, s: Signal)
    requires MapExact(c)
    ensures id !in Release(c, id, s).pending && Released(c, Release(c, id, s))
  {
  }

  lemma ReleaseKeepsMap(c: Conn, id: nat, s: Signal)
    requires MapExact(c)
    ensures MapExact(Release(c, id, s))
  {
  }

  lemma ReleaseKeepsCommands(c: Conn, id: nat, s: Signal)
    requires MapExact(c) && CommandsGood(c)
    ensures CommandsGood(Release(c, id, s))
  {
  }

  /** Moving one command along without signalling it. */
  lemma MoveKeepsInv(c: Conn, cmd: nat, p: Phase, unanswered: set<nat>)
    requires Inv(c) && cmd in c.commands && !c.commands[cmd].phase.Numbered? && !p.Numbered? && !p.Sending?
    requires Coherent(c.commands[cmd].(phase := p)) && unanswered <= c.unanswered + {cmd}
    ensures Inv(Moved(c, cmd, p).(unanswered := unanswered))
  {
  }

  lemma NumberKeepsInv(c: Conn, cmd: nat, session: nat)
    requires Inv(c) && cmd !in c.commands
    ensures Inv(Next(c, Number(cmd, session)).value)
  {
    var c' := Next(c, Number(cmd, session)).value;
    assert MapExact(c');
  }

  lemma InsertKeepsInv(c: Conn, cmd: nat)
    requires Inv(c) && PhaseOf(c, cmd) == Some(Numbered)
    ensures Inv(Next(c, Insert(cmd)).value)
  {
    var id := c.commands[cmd].id;
    ReleaseKeepsInv(c, id, SenderDropped);
    hide Release, Inv;
    var d := Release(c, id, SenderDropped);
    assert d.commands[cmd] == c.commands[cmd];
    ParkKeepsInv(d, cmd);
  }

  lemma ParkKeepsInv(d: Conn, cmd: nat)
    requires Inv(d) && PhaseOf(d, cmd) == Some(Numbered) && d.commands[cmd].id !in d.pending
    ensures Inv(Moved(d, cmd, Sending).(pending := d.pending[d.commands[cmd].id := cmd]))
  {
    var e := Moved(d, cmd, Sending).(pending := d.pending[d.commands[cmd].id := cmd]);
    assert MapExact(e) by { hide Coherent; }
    assert CommandsGood(e) by { hide MapExact; }
  }

  lemma CleanUpKeepsInv(c: Conn, cmd: nat)
    requires Inv(c) && Next(c, CleanUp(cmd)).Some?
    ensures Inv(Next(c, CleanUp(cmd)).value)
  {
    var id := c.commands[cmd].id;
    ReleaseKeepsInv(c, id, SenderDropped);
    hide Release;
    var d := Release(c, id, SenderDropped);
    MoveKeepsInv(d, cmd, Done(c.commands[cmd].phase.result), d.unanswered);
  }

  lemma StepKeepsInv(c: Conn, step: Step)
    requires Inv(c) && Next(c, step).Some?
    ensures Inv(Next(c, step).value)
  {
    hide MapExact, Released, Release;
    match step {
      case Number(cmd, session) => NumberKeepsInv(c, cmd, session);
      case Insert(cmd) => InsertKeepsInv(c, cmd);
      case Enqueue(cmd, accepted) =>
        if accepted {
          MoveKeepsInv(c, cmd, Waiting, c.unanswered + {cmd});
        } else {
          MoveKeepsInv(c, cmd, Ending(Closed), c.unanswered);
        }
      case Receive(cmd, body) => ReceiveKeepsInv(c, cmd, body);
      case Wake(cmd) => MoveKeepsInv(c, cmd, Next(c, step).value.commands[cmd].phase, c.unanswered);
      case Timeout(cmd) => MoveKeepsInv(c, cmd, Ending(TimedOut), c.unanswered);
      case CleanUp(cmd) => CleanUpKeepsInv(c, cmd);
      case Close => ReaderMoveKeepsInv(c, Draining);
      case Drain(id) => ReleaseKeepsInv(c, id, ConnectionClosed);
      case End => ReaderMoveKeepsInv(c, Ended);
    }
  }

  lemma ReceiveKeepsInv(c: Conn, cmd: nat, body: seq<Byte>)
    requires Inv(c) && Next(c, Receive(cmd, body)).Some?
    ensures Inv(Next(c, Receive(cmd, body)).value)
  {
    ReleaseKeepsInv(c, c.commands[cmd].id, Reply(Frame(cmd, body)));
    hide Release;
  }

  lemma ReaderMoveKeepsInv(c: Conn, r: Reader)
    requires Inv(c)
    ensures Inv(c.(reader := r))
  {
  }

  // ----- When replies find their own command ---------------------------------------------

  /** Chromium has, or may yet be given, this command, and has not replied. */
  predicate Owed(c: Conn, cmd: nat) {
    cmd in c.commands && (c.commands[cmd].phase.Sending? || cmd in c.unanswered)
  }

  /** The reply to any command that is owed one would reach that command or nobody. */
  ghost predicate SafeToReply(c: Conn) {
    forall cmd :: Owed(c, cmd) && c.commands[cmd].id in c.pending ==> c.pending[c.commands[cmd].id] == cmd
  }

  /** No received reply has gone astray. */
  ghost predicate NoneAstray(c: Conn) {
    forall cmd :: cmd in c.commands && c.commands[cmd].signal.Some? && c.commands[cmd].signal.value.Reply? ==>
      c.commands[cmd].signal.value.frame.answers == cmd
  }

  /** The id about to be inserted is carried by no command that is owed a reply. */
  predicate FreshId(c: Conn, cmd: nat)
    requires cmd in c.commands
  {
    forall other :: other in c.commands && Owed(c, other) ==> c.commands[other].id != c.commands[cmd].id
  }

  /** Inserting is where safety is won or lost: from a safe state, the state after it is safe if and only
      if no command of any session that is owed a reply carries the id. */
  lemma InsertIsSafe(c: Conn, cmd: nat)
    requires Inv(c) && SafeToReply(c) && Next(c, Insert(cmd)).Some?
    ensures SafeToReply(Next(c, Insert(cmd)).value) <==> FreshId(c, cmd)
  {
    var id := c.commands[cmd].id;
    var c' := Next(c, Insert(cmd)).value;
    InsertedFrame(c, cmd);
    hide Inv, Next, Owed;
    if FreshId(c, cmd) {
      forall x | Owed(c', x) && c'.commands[x].id in c'.pending ensures c'.pending[c'.commands[x].id] == x {
        if x != cmd {
          assert Owed(c, x);
        }
      }
    } else {
      var x :| x in c.commands && Owed(c, x) && c.commands[x].id == id;
      assert x != cmd && Owed(c', x) && c'.pending[id] == cmd;
    }
  }

  lemma InsertedFrame(c: Conn, cmd: nat)
    requires Inv(c) && Next(c, Insert(cmd)).Some?
    ensures
      var c' := Next(c, Insert(cmd)).value;
      && c'.commands.Keys == c.commands.Keys && !Owed(c, cmd)
      && (forall x :: x in c.commands ==> c'.commands[x].id == c.commands[x].id)
      && (forall x :: x != cmd ==> (Owed(c', x) <==> Owed(c, x)))
      && c.commands[cmd].id in c'.pending && c'.pending[c.commands[cmd].id] == cmd
      && (forall i :: i in c'.pending && i != c.commands[cmd].id ==> i in c.pending && c'.pending[i] == c.pending[i])
  {
    var id := c.commands[cmd].id;
    ReleaseFrame(c, id, SenderDropped);
    assert !Owed(c, cmd);
    hide Release, Inv, Listening;
  }

  /** Steps that only take entries out of the map and leave no new command owed a reply. */
  lemma ShrinkingStaysSafe(c: Conn, d: Conn)
    requires SafeToReply(c)
    requires forall id :: id in d.pending ==> id in c.pending && d.pending[id] == c.pending[id]
    requires forall cmd :: Owed(d, cmd) ==> Owed(c, cmd) && d.commands[cmd].id == c.commands[cmd].id
    ensures SafeToReply(d)
  {
    hide Owed;
  }

  lemma ReleaseStaysSafe(c: Conn, id: nat, s: Signal)
    requires Inv(c) && SafeToReply(c) && NoneAstray(c)
    requires s.Reply? && id in c.pending ==> s.frame.answers == c.pending[id]
    ensures SafeToReply(Release(c, id, s)) && NoneAstray(Release(c, id, s))
  {
    ReleaseKeepsInv(c, id, s);
    ShrinkingStaysSafe(c, Release(c, id, s));
  }

  lemma MoveStaysSafe(c: Conn, cmd: nat, p: Phase, unanswered: set<nat>)
    requires SafeToReply(c) && NoneAstray(c) && cmd in c.commands && !p.Sending?
    requires unanswered <= if Owed(c, cmd) then c.unanswered + {cmd} else c.unanswered
    ensures var d := Moved(c, cmd, p).(unanswered := unanswered);
            SafeToReply(d) && NoneAstray(d)
  {
    ShrinkingStaysSafe(c, Moved(c, cmd, p).(unanswered := unanswered));
  }

  lemma CleanUpStaysSafe(c: Conn, cmd: nat)
    requires Inv(c) && SafeToReply(c) && NoneAstray(c) && Next(c, CleanUp(cmd)).Some?
    ensures SafeToReply(Next(c, CleanUp(cmd)).value) && NoneAstray(Next(c, CleanUp(cmd)).value)
  {
    var id := c.commands[cmd].id;
    ReleaseStaysSafe(c, id, SenderDropped);
    ReleaseKeepsInv(c, id, SenderDropped);
    hide Release, SafeToReply, NoneAstray;
    var d := Release(c, id, SenderDropped);
    MoveStaysSafe(d, cmd, Done(c.commands[cmd].phase.result), d.unanswered);
  }

  lemma InsertStaysSafe(c: Conn, cmd: nat)
    requires Inv(c) && SafeToReply(c) && NoneAstray(c) && Next(c, Insert(cmd)).Some? && FreshId(c, cmd)
    ensures SafeToReply(Next(c, Insert(cmd)).value) && NoneAstray(Next(c, Insert(cmd)).value)
  {
    InsertIsSafe(c, cmd);
    ReleaseStaysSafe(c, c.commands[cmd].id, SenderDropped);
    ReleaseKeepsInv(c, c.commands[cmd].id, SenderDropped);
    hide Release, SafeToReply;
  }

  lemma NumberStaysSafe(c: Conn, cmd: nat, session: nat)
    requires Inv(c) && SafeToReply(c) && NoneAstray(c) && cmd !in c.commands
    ensures SafeToReply(Next(c, Number(cmd, session)).value) && NoneAstray(Next(c, Number(cmd, session)).value)
  {
    assert cmd !in c.unanswered;
    ShrinkingStaysSafe(c, Next(c, Number(cmd, session)).value);
  }

  lemma ReceiveStaysSafe(c: Conn, cmd: nat, body: seq<Byte>)
    requires Inv(c) && SafeToReply(c) && NoneAstray(c) && Next(c, Receive(cmd, body)).Some?
    ensures SafeToReply(Next(c, Receive(cmd, body)).value) && NoneAstray(Next(c, Receive(cmd, body)).value)
  {
    var id := c.commands[cmd].id;
    assert Owed(c, cmd);
    ReleaseStaysSafe(c, id, Reply(Frame(cmd, body)));
    var d := Release(c, id, Reply(Frame(cmd, body)));
    hide Release;
    ShrinkingStaysSafe(d, d.(unanswered := c.unanswered - {cmd}));
  }

  lemma StepStaysSafe(c: Conn, step: Step)
    requires Inv(c) && SafeToReply(c) && NoneAstray(c) && Next(c, step).Some?
    requires step.Insert? ==> FreshId(c, step.cmd)
    ensures SafeToReply(Next(c, step).value) && NoneAstray(Next(c, step).value)
  {
    hide SafeToReply, NoneAstray, Inv, Release;
    match step {
      case Number(cmd, session) => NumberStaysSafe(c, cmd, session);
      case Insert(cmd) => InsertStaysSafe(c, cmd);
      case Enqueue(cmd, accepted) =>
        if accepted {
          MoveStaysSafe(c, cmd, Waiting, c.unanswered + {cmd});
        } else {
          MoveStaysSafe(c, cmd, Ending(Closed), c.unanswered);
        }
      case Receive(cmd, body) => ReceiveStaysSafe(c, cmd, body);
      case Wake(cmd) => MoveStaysSafe(c, cmd, Next(c, step).value.commands[cmd].phase, c.unanswered);
      case Timeout(cmd) => MoveStaysSafe(c, cmd, Ending(TimedOut), c.unanswered);
      case CleanUp(cmd) => CleanUpStaysSafe(c, cmd);
      case Close => ReaderMoveStaysSafe(c, Draining);
      case Drain(id) => ReleaseStaysSafe(c, id, ConnectionClosed);
      case End => ReaderMoveStaysSafe(c, Ended);
    }
  }

  lemma ReaderMoveStaysSafe(c: Conn, r: Reader)
    requires SafeToReply(c) && NoneAstray(c)
    ensures SafeToReply(c.(reader := r)) && NoneAstray(c.(reader := r))
  {
    ShrinkingStaysSafe(c, c.(reader := r));
  }

  // ----- Runs ---------------------------------------------------------------------------

  /** Any interleaving of senders, timers and the reader. */
  ghost predicate IsRun(cs: seq<Conn>, steps: seq<Step>) {
    && |cs| == |steps| + 1 && cs[0] == OPEN
    && forall i :: 0 <= i < |steps| ==> Next(cs[i], steps[i]) == Some(cs[i + 1])
  }

  /** Every insertion of the run uses an id no command that is owed a reply carries. */
  ghost predicate FreshIds(cs: seq<Conn>, steps: seq<Step>)
    requires IsRun(cs, steps)
  {
    forall i :: 0 <= i < |steps| && steps[i].Insert? ==>
      steps[i].cmd in cs[i].commands && FreshId(cs[i], steps[i].cmd)
  }

  lemma {:induction false} RunStaysSafe(cs: seq<Conn>, steps: seq<Step>, i: nat)
    requires IsRun(cs, steps) && i < |cs|
    ensures Inv(cs[i])
    ensures FreshIds(cs, steps) ==> SafeToReply(cs[i]) && NoneAstray(cs[i])
  {
    hide Next;
    if i > 0 {
      hide Inv, SafeToReply, NoneAstray;
      RunStaysSafe(cs, steps, i - 1);
      assert Next(cs[i - 1], steps[i - 1]) == Some(cs[i]);
      StepKeepsInv(cs[i - 1], steps[i - 1]);
      if FreshIds(cs, steps) {
        StepStaysSafe(cs[i - 1], steps[i - 1]);
      }
    }
  }

  /** With fresh ids, a command that ends with a reply ends with the reply to itself. */
  lemma RepliesAreOwn(cs: seq<Conn>, steps: seq<Step>, i: nat, cmd: nat)
    requires IsRun(cs, steps) && FreshIds(cs, steps) && i < |cs| && cmd in cs[i].commands
    requires cs[i].commands[cmd].phase.Done? && cs[i].commands[cmd].phase.result.Got?
    ensures cs[i].commands[cmd].phase.result.frame.answers == cmd
  {
    RunStaysSafe(cs, steps, i);
  }

  /** With or without fresh ids, a command is signalled at most once and ends at most once. */
  lemma {:induction false} ResolvedOnce(cs: seq<Conn>, steps: seq<Step>, i: nat, j: nat, cmd: nat)
    requires IsRun(cs, steps) && i <= j < |cs| && cmd in cs[i].commands
    ensures cmd in cs[j].commands
    ensures cs[i].commands[cmd].signal.Some? ==> cs[j].commands[cmd].signal == cs[i].commands[cmd].signal
    ensures cs[i].commands[cmd].phase.Done? ==> cs[j].commands[cmd].phase == cs[i].commands[cmd].phase
    decreases j
  {
    hide Next, Inv;
    if i < j {
      ResolvedOnce(cs, steps, i, j - 1, cmd);
      RunStaysSafe(cs, steps, j - 1);
      assert Next(cs[j - 1], steps[j - 1]) == Some(cs[j]);
      SignalIsFinal(cs[j - 1], steps[j - 1], cmd);
    }
  }

  lemma SignalIsFinal(c: Conn, step: Step, cmd: nat)
    requires Inv(c) && Next(c, step).Some? && cmd in c.commands
    ensures cmd in Next(c, step).value.commands
    ensures
      var k, k' := c.commands[cmd], Next(c, step).value.commands[cmd];
      && (k.signal.Some? ==> k'.signal == k.signal)
      && (k.phase.Done? ==> k'.phase == k.phase)
  {
  }

  // ----- Who is dropped, and who is stranded ------------------------------------------------

  /** In this step the command loses its sender: its id is inserted by another command, or cleared by a
      command that has failed. */
  predicate Drops(c: Conn, step: Step, cmd: nat) {
    && cmd in c.commands && Listening(c.commands[cmd])
    && (step.Insert? || step.CleanUp?) && step.cmd in c.commands && c.commands[step.cmd].id == c.commands[cmd].id
  }

  lemma DropsExactly(c: Conn, step: Step, cmd: nat)
    requires Inv(c) && Next(c, step).Some? && cmd in c.commands && c.commands[cmd].signal != Some(SenderDropped)
    ensures cmd in Next(c, step).value.commands
    ensures Next(c, step).value.commands[cmd].signal == Some(SenderDropped) <==> Drops(c, step, cmd)
  {
  }

  /** Over every run, a command has lost its sender if and only if there was a step in which a command with
      the same id, of whatever session, inserted or cleared that id while this one was listening. */
  lemma {:induction false} DroppedExactly(cs: seq<Conn>, steps: seq<Step>, i: nat, cmd: nat)
    requires IsRun(cs, steps) && i < |cs| && cmd in cs[i].commands
    ensures cs[i].commands[cmd].signal == Some(SenderDropped)
       <==> exists m :: 0 <= m < i && Drops(cs[m], steps[m], cmd)
  {
    hide Next, Inv, Drops;
    if i > 0 {
      var c, step := cs[i - 1], steps[i - 1];
      assert Next(c, step) == Some(cs[i]);
      RunStaysSafe(cs, steps, i - 1);
      if cmd !in c.commands {
        NewbornIsNotDropped(cs, steps, i, cmd);
      } else {
        DroppedExactly(cs, steps, i - 1, cmd);
        if c.commands[cmd].signal == Some(SenderDropped) {
          SignalIsFinal(c, step, cmd);
        } else {
          DropsExactly(c, step, cmd);
        }
      }
    }
  }

  lemma {:induction false} CommandsStay(cs: seq<Conn>, steps: seq<Step>, m: nat, i: nat, cmd: nat)
    requires IsRun(cs, steps) && m <= i < |cs| && cmd in cs[m].commands
    ensures cmd in cs[i].commands
    decreases i
  {
    hide Next;
    if m < i {
      CommandsStay(cs, steps, m, i - 1, cmd);
      RunStaysSafe(cs, steps, i - 1);
      assert Next(cs[i - 1], steps[i - 1]) == Some(cs[i]);
      SignalIsFinal(cs[i - 1], steps[i - 1], cmd);
    }
  }

  lemma NewbornIsNotDropped(cs: seq<Conn>, steps: seq<Step>, i: nat, cmd: nat)
    requires IsRun(cs, steps) && 0 < i < |cs| && cmd in cs[i].commands && cmd !in cs[i - 1].commands
    ensures cs[i].commands[cmd].signal.None? && cs[i].commands[cmd].phase.Numbered?
    ensures forall m :: 0 <= m < i ==> !Drops(cs[m], steps[m], cmd)
  {
    assert Next(cs[i - 1], steps[i - 1]) == Some(cs[i]);
    NewbornIsNumbered(cs[i - 1], steps[i - 1], cmd);
    hide Next;
    forall m | 0 <= m < i ensures !Drops(cs[m], steps[m], cmd) {
      if cmd in cs[m].commands {
        CommandsStay(cs, steps, m, i - 1, cmd);
      }
    }
  }

  lemma NewbornIsNumbered(c: Conn, step: Step, cmd: nat)
    requires Next(c, step).Some? && cmd !in c.commands && cmd in Next(c, step).value.commands
    ensures Next(c, step).value.commands[cmd].signal.None? && Next(c, step).value.commands[cmd].phase.Numbered?
  {
  }

  /** The command was inserted when the reader task had already ended. */
  ghost predicate InsertedTooLate(cs: seq<Conn>, steps: seq<Step>, i: nat, cmd: nat)
    requires IsRun(cs, steps) && i < |cs|
  {
    exists m :: 0 <= m < i && steps[m] == Insert(cmd) && cs[m].reader.Ended?
  }

  lemma EndedStep(c: Conn, step: Step, cmd: nat)
    requires Inv(c) && Next(c, step).Some? && cmd in c.commands && c.reader.Ended?
    ensures
      var c' := Next(c, step).value;
      && c'.reader.Ended? && cmd in c'.commands
      && (c'.commands[cmd].signal == c.commands[cmd].signal || c'.commands[cmd].signal == Some(SenderDropped))
      && (c'.commands[cmd].phase.Numbered? <==> c.commands[cmd].phase.Numbered? && step != Insert(cmd))
      && (step == Insert(cmd) ==> c'.commands[cmd].signal.None?)
  {
  }

  lemma LastStepToEnded(c: Conn, step: Step)
    requires Next(c, step).Some? && Next(c, step).value.reader.Ended? && !c.reader.Ended?
    ensures c.pending == map[] && Next(c, step).value == c.(reader := Ended) && !step.Insert?
  {
  }

  lemma {:induction false} NotTooLateYet(cs: seq<Conn>, steps: seq<Step>, i: nat)
    requires IsRun(cs, steps) && i < |cs| && !cs[i].reader.Ended?
    ensures forall m :: 0 <= m <= i ==> !cs[m].reader.Ended?
  {
    if i > 0 {
      assert Next(cs[i - 1], steps[i - 1]) == Some(cs[i]);
      NotTooLateYet(cs, steps, i - 1);
    }
  }

  /** Once the reader task has ended, nothing replies to a command or fails it as closed any more. Exactly the
      commands inserted too late, and not dropped by a command with the same id, are left without a signal;
      every command inserted before has one. */
  lemma {:induction false} StrandedExactly(cs: seq<Conn>, steps: seq<Step>, i: nat, cmd: nat)
    requires IsRun(cs, steps) && i < |cs| && cs[i].reader.Ended? && cmd in cs[i].commands
    ensures Listening(cs[i].commands[cmd])
       <==> InsertedTooLate(cs, steps, i, cmd) && cs[i].commands[cmd].signal != Some(SenderDropped)
    ensures InsertedTooLate(cs, steps, i, cmd) ==>
              && !cs[i].commands[cmd].phase.Numbered?
              && (cs[i].commands[cmd].signal.None? || cs[i].commands[cmd].signal == Some(SenderDropped))
  {
    hide Next, Inv;
    var c, step := cs[i - 1], steps[i - 1];
    assert Next(c, step) == Some(cs[i]);
    RunStaysSafe(cs, steps, i - 1);
    RunStaysSafe(cs, steps, i);
    if !c.reader.Ended? {
      LastStepToEnded(c, step);
      NotTooLateYet(cs, steps, i - 1);
      MapIsExact(cs[i]);
    } else if cmd !in c.commands {
      NewbornIsNumbered(c, step, cmd);
      NeverInserted(cs, steps, i, cmd);
    } else {
      StrandedExactly(cs, steps, i - 1, cmd);
      EndedStep(c, step, cmd);
      if step == Insert(cmd) {
        InsertedFromNumbered(c, step, cmd);
      }
      assert InsertedTooLate(cs, steps, i, cmd)
        <==> InsertedTooLate(cs, steps, i - 1, cmd) || step == Insert(cmd);
    }
  }

  lemma MapIsExact(c: Conn)
    requires Inv(c)
    ensures forall cmd :: cmd in c.commands && Listening(c.commands[cmd]) ==> c.commands[cmd].id in c.pending
  {
  }

  lemma InsertedFromNumbered(c: Conn, step: Step, cmd: nat)
    requires Inv(c) && Next(c, step).Some? && step == Insert(cmd)
    ensures cmd in c.commands && c.commands[cmd].phase.Numbered? && c.commands[cmd].signal.None?
  {
  }

  lemma NeverInserted(cs: seq<Conn>, steps: seq<Step>, i: nat, cmd: nat)
    requires IsRun(cs, steps) && 0 < i < |cs| && cmd !in cs[i - 1].commands && cmd in cs[i].commands
    ensures !InsertedTooLate(cs, steps, i, cmd)
  {
    hide Next;
    forall m | 0 <= m < i && steps[m] == Insert(cmd) ensures false {
      assert Next(cs[m], steps[m]) == Some(cs[m + 1]);
      RunStaysSafe(cs, steps, m);
      InsertedFromNumbered(cs[m], steps[m], cmd);
      CommandsStay(cs, steps, m, i - 1, cmd);
    }
  }

  /** A command sent when the reader task has ended waits, with nobody left to answer or fail it. */
  lemma LateCommandIsStranded() returns (cs: seq<Conn>, steps: seq<Step>)
    ensures IsRun(cs, steps) && steps == [Close, End, Number(10, 1), Insert(10), Enqueue(10, true)]
    ensures 10 in cs[5].commands && cs[5].commands[10] == Command(1, 1, Waiting, None)
  {
    hide IsRun, FreshIds;
    StartIsRun();
    cs, steps := Extend([OPEN], [], Close);
    cs, steps := Extend(cs, steps, End);
    cs, steps := Extend(cs, steps, Number(10, 1));
    cs, steps := Extend(cs, steps, Insert(10));
    cs, steps := Extend(cs, steps, Enqueue(10, true));
  }

  lemma StartIsRun()
    ensures IsRun([OPEN], [])
  {
  }

  // ----- Every command ends as it should ------------------------------------------------------

  /** What a signal means to the command that receives it. */
  function ResultOf(s: Signal): Result {
    match s
    case Reply(frame) => Got(frame)
    case ConnectionClosed => Closed
    case SenderDropped => Closed
  }

  predicate EndsWith(p: Phase, r: Result) {
    p == Ending(r) || p == Done(r)
  }

  lemma EndingStep(c: Conn, step: Step, cmd: nat, r: Result)
    requires Next(c, step).Some? && cmd in c.commands && EndsWith(c.commands[cmd].phase, r)
    ensures cmd in Next(c, step).value.commands && EndsWith(Next(c, step).value.commands[cmd].phase, r)
  {
  }

  lemma SignalledStep(c: Conn, step: Step, cmd: nat)
    requires Inv(c) && Next(c, step).Some? && PhaseOf(c, cmd) == Some(Waiting) && c.commands[cmd].signal.Some?
    ensures
      var c' := Next(c, step).value;
      && cmd in c'.commands && c'.commands[cmd].signal == c.commands[cmd].signal
      && (if step == Wake(cmd) then EndsWith(c'.commands[cmd].phase, ResultOf(c.commands[cmd].signal.value))
          else c'.commands[cmd].phase.Waiting?)
    ensures Next(c, Wake(cmd)).Some? && Next(c, Timeout(cmd)).None?
  {
  }

  /** Over every run, a waiting command that has been signalled can be woken at any time, cannot time out any
      more, and ends with what the signal says: the reply, or closed. */
  lemma {:induction false} SignalDecides(cs: seq<Conn>, steps: seq<Step>, i: nat, j: nat, cmd: nat)
    requires IsRun(cs, steps) && i <= j < |cs| && PhaseOf(cs[i], cmd) == Some(Waiting)
    requires cs[i].commands[cmd].signal.Some?
    ensures
      var s := cs[i].commands[cmd].signal.value;
      && cmd in cs[j].commands
      && (EndsWith(cs[j].commands[cmd].phase, ResultOf(s))
          || (cs[j].commands[cmd] == cs[i].commands[cmd] && Next(cs[j], Wake(cmd)).Some?
              && Next(cs[j], Timeout(cmd)).None?))
    decreases j
  {
    hide Next, Inv;
    RunStaysSafe(cs, steps, j);
    if i < j {
      SignalDecides(cs, steps, i, j - 1, cmd);
      RunStaysSafe(cs, steps, j - 1);
      assert Next(cs[j - 1], steps[j - 1]) == Some(cs[j]);
      var s := cs[i].commands[cmd].signal.value;
      if EndsWith(cs[j - 1].commands[cmd].phase, ResultOf(s)) {
        EndingStep(cs[j - 1], steps[j - 1], cmd, ResultOf(s));
      } else {
        SignalledStep(cs[j - 1], steps[j - 1], cmd);
        CommandKeepsNumber(cs[j - 1], steps[j - 1], cmd);
      }
    }
    if cs[j].commands[cmd] == cs[i].commands[cmd] {
      WaitingCanWake(cs[j], cmd);
    }
  }

  lemma CommandKeepsNumber(c: Conn, step: Step, cmd: nat)
    requires Next(c, step).Some? && cmd in c.commands
    ensures
      var c' := Next(c, step).value;
      && cmd in c'.commands && c'.commands[cmd].id == c.commands[cmd].id
      && c'.commands[cmd].session == c.commands[cmd].session
  {
  }

  lemma WaitingCanWake(c: Conn, cmd: nat)
    requires PhaseOf(c, cmd) == Some(Waiting) && c.commands[cmd].signal.Some?
    ensures Next(c, Wake(cmd)).Some? && Next(c, Timeout(cmd)).None?
  {
  }

  /** A command ends as timed out if and only if its timer fired, and as closed after a refused frame. */
  lemma {:induction false} FailureDecides(cs: seq<Conn>, steps: seq<Step>, m: nat, j: nat, cmd: nat)
    requires IsRun(cs, steps) && m < j < |cs| && (steps[m] == Timeout(cmd) || steps[m] == Enqueue(cmd, false))
    ensures cmd in cs[j].commands
    ensures EndsWith(cs[j].commands[cmd].phase, if steps[m].Timeout? then TimedOut else Closed)
    decreases j
  {
    assert Next(cs[j - 1], steps[j - 1]) == Some(cs[j]);
    if m < j - 1 {
      FailureDecides(cs, steps, m, j - 1, cmd);
      EndingStep(cs[j - 1], steps[j - 1], cmd, if steps[m].Timeout? then TimedOut else Closed);
    }
  }

  lemma TimedOutStep(c: Conn, step: Step, cmd: nat)
    requires Next(c, step).Some? && cmd in Next(c, step).value.commands
    requires EndsWith(Next(c, step).value.commands[cmd].phase, TimedOut)
    ensures step == Timeout(cmd) || (cmd in c.commands && EndsWith(c.commands[cmd].phase, TimedOut))
  {
  }

  lemma {:induction false} TimedOutHasCause(cs: seq<Conn>, steps: seq<Step>, i: nat, cmd: nat) returns (m: nat)
    requires IsRun(cs, steps) && i < |cs| && cmd in cs[i].commands && EndsWith(cs[i].commands[cmd].phase, TimedOut)
    ensures m < i && steps[m] == Timeout(cmd)
  {
    hide Next;
    assert Next(cs[i - 1], steps[i - 1]) == Some(cs[i]);
    TimedOutStep(cs[i - 1], steps[i - 1], cmd);
    if steps[i - 1] == Timeout(cmd) {
      m := i - 1;
    } else {
      m := TimedOutHasCause(cs, steps, i - 1, cmd);
    }
  }

  // ----- Stale ids do harm ---------------------------------------------------------------------

  /** While the reader is in its loop, an unsafe state is two steps or fewer from a reply gone astray. */
  lemma UnsafeGoesAstray(cs: seq<Conn>, steps: seq<Step>) returns (cs': seq<Conn>, steps': seq<Step>)
    requires IsRun(cs, steps) && cs[|steps|].reader.Reading? && !SafeToReply(cs[|steps|])
    ensures IsRun(cs', steps') && steps <= steps' && |steps'| <= |steps| + 2
    ensures !NoneAstray(cs'[|steps'|])
  {
    RunStaysSafe(cs, steps, |steps|);
    var c := cs[|steps|];
    var cmd :| Owed(c, cmd) && c.commands[cmd].id in c.pending && c.pending[c.commands[cmd].id] != cmd;
    hide IsRun, FreshIds, Inv;
    if cmd in c.unanswered {
      cs', steps' := Extend(cs, steps, Receive(cmd, []));
      Misdelivers(c, cmd);
    } else {
      cs', steps' := Extend(cs, steps, Enqueue(cmd, true));
      var d := cs'[|steps'|];
      EnqueueKeepsEntry(c, cmd);
      cs', steps' := Extend(cs', steps', Receive(cmd, []));
      Misdelivers(d, cmd);
    }
  }

  lemma EnqueueKeepsEntry(c: Conn, cmd: nat)
    requires Inv(c) && Next(c, Enqueue(cmd, true)).Some?
    ensures
      var d := Next(c, Enqueue(cmd, true)).value;
      && Inv(d) && d.pending == c.pending && d.reader == c.reader && cmd in d.unanswered && cmd in d.commands
      && d.commands[cmd].id == c.commands[cmd].id
  {
    StepKeepsInv(c, Enqueue(cmd, true));
    hide Inv;
  }

  lemma Misdelivers(c: Conn, cmd: nat)
    requires Inv(c) && c.reader.Reading? && cmd in c.unanswered && cmd in c.commands
    requires c.commands[cmd].id in c.pending && c.pending[c.commands[cmd].id] != cmd
    ensures Next(c, Receive(cmd, [])).Some? && !NoneAstray(Next(c, Receive(cmd, [])).value)
  {
    var d := Next(c, Receive(cmd, [])).value;
    var other := c.pending[c.commands[cmd].id];
    assert d.commands[other].signal == Some(Reply(Frame(cmd, [])));
  }

  /** So fresh ids are needed: take any run whose insertions are fresh up to the one at step `i`, which is
      not, with the reader in its loop. Then the run can go on from there so that a reply goes astray. */
  lemma StaleIdGoesAstray(cs: seq<Conn>, steps: seq<Step>, i: nat) returns (cs': seq<Conn>, steps': seq<Step>)
    requires IsRun(cs, steps) && i < |steps| && cs[i].reader.Reading?
    requires FreshBefore(cs, steps, i)
    requires steps[i].Insert? && !(steps[i].cmd in cs[i].commands && FreshId(cs[i], steps[i].cmd))
    ensures IsRun(cs', steps') && steps[..i + 1] <= steps' && |steps'| <= i + 3
    ensures !NoneAstray(cs'[|steps'|])
  {
    hide Next;
    var cs1, steps1 := cs[..i + 1], steps[..i];
    assert IsRun(cs1, steps1);
    RunStaysSafe(cs1, steps1, i);
    var cmd := steps[i].cmd;
    assert Next(cs[i], steps[i]) == Some(cs[i + 1]);
    InsertIsSafe(cs[i], cmd);
    InsertedFromNumbered(cs[i], steps[i], cmd);
    InsertKeepsReader(cs[i], cmd);
    var cs2, steps2 := cs[..i + 2], steps[..i + 1];
    assert IsRun(cs2, steps2);
    cs', steps' := UnsafeGoesAstray(cs2, steps2);
  }

  ghost predicate FreshBefore(cs: seq<Conn>, steps: seq<Step>, i: nat)
    requires IsRun(cs, steps) && i <= |steps|
  {
    forall j :: 0 <= j < i && steps[j].Insert? ==> steps[j].cmd in cs[j].commands && FreshId(cs[j], steps[j].cmd)
  }

  lemma InsertKeepsReader(c: Conn, cmd: nat)
    requires Next(c, Insert(cmd)).Some?
    ensures Next(c, Insert(cmd)).value.reader == c.reader
  {
  }

  // ----- Runs that go wrong -----------------------------------------------------------------

  lemma Extend(cs: seq<Conn>, steps: seq<Step>, step: Step) returns (cs': seq<Conn>, steps': seq<Step>)
    requires IsRun(cs, steps) && Next(cs[|steps|], step).Some?
    ensures steps' == steps + [step] && cs' == cs + [Next(cs[|steps|], step).value] && IsRun(cs', steps')
    ensures |cs'| == |steps'| + 1
    ensures FreshIds(cs, steps)
            && (step.Insert? ==> step.cmd in cs[|steps|].commands && FreshId(cs[|steps|], step.cmd)) ==>
              FreshIds(cs', steps')
  {
    hide Next, FreshId;
    steps' := steps + [step];
    cs' := cs + [Next(cs[|steps|], step).value];
  }

  /** Command 10 of session 1 waits under id 1. */
  lemma FirstWaits() returns (cs: seq<Conn>, steps: seq<Step>)
    ensures IsRun(cs, steps) && FreshIds(cs, steps) && steps == [Number(10, 1), Insert(10), Enqueue(10, true)]
    ensures |cs| == 4
    ensures cs[3] == Conn(Reading, map[1 := 2], map[1 := 10], map[10 := Command(1, 1, Waiting, None)], {10})
  {
    cs, steps := Extend([OPEN], [], Number(10, 1));
    cs, steps := Extend(cs, steps, Insert(10));
    cs, steps := Extend(cs, steps, Enqueue(10, true));
  }

  /** Then command 20 of session 2 comes to wait under id 1 as well. */
  lemma SecondWaits(cs: seq<Conn>, steps: seq<Step>) returns (cs': seq<Conn>, steps': seq<Step>)
    requires IsRun(cs, steps)
    requires
      var c := cs[|steps|];
      && c.reader.Reading? && c.nextIds == map[1 := 2] && c.commands.Keys == {10} && c.commands[10].id == 1
      && (c.pending == map[] || c.pending == map[1 := 10]) && c.unanswered <= {10}
    ensures steps' == steps + [Number(20, 2), Insert(20), Enqueue(20, true)] && IsRun(cs', steps') && cs <= cs'
    ensures |cs'| == |steps'| + 1
    ensures
      var c, c' := cs[|steps|], cs'[|steps'|];
      && c' == Conn(Reading, map[1 := 2, 2 := 2], map[1 := 20], c'.commands, c.unanswered + {20})
      && c'.commands.Keys == {10, 20} && c'.commands[20] == Command(2, 1, Waiting, None)
      && c'.commands[10]
         == c.commands[10].(signal := if 1 in c.pending then Some(SenderDropped) else c.commands[10].signal)
    ensures FreshIds(cs, steps) && !Owed(cs[|steps|], 10) ==> FreshIds(cs', steps')
  {
    assert |cs| == |steps| + 1;
    hide IsRun, FreshIds;
    cs', steps' := Extend(cs, steps, Number(20, 2));
    var c := cs'[|steps'|];
    assert c.commands.Keys == {10, 20};
    assert FreshId(c, 20) <==> !Owed(c, 10);
    assert Owed(c, 10) <==> Owed(cs[|steps|], 10);
    cs', steps' := Extend(cs', steps', Insert(20));
    cs', steps' := Extend(cs', steps', Enqueue(20, true));
  }

  /** Two sessions with the same id in flight: the second send fails the first command, and the first
      command's reply is handed to the second. */
  lemma SessionsCollide() returns (cs: seq<Conn>, steps: seq<Step>)
    ensures IsRun(cs, steps) && |steps| == 8 && steps[0] == Number(10, 1) && steps[3] == Number(20, 2)
    ensures 10 in cs[6].commands && cs[6].commands[10].signal == Some(SenderDropped)
    ensures 20 in cs[8].commands && cs[8].commands[20].phase == Done(Got(Frame(10, [])))
  {
    hide IsRun, FreshIds;
    cs, steps := FirstWaits();
    cs, steps := SecondWaits(cs, steps);
    cs, steps := Extend(cs, steps, Receive(10, []));
    cs, steps := Extend(cs, steps, Wake(20));
  }

  /** The ids need not be pending together: after a timeout the late reply to the first command is handed
      to a second session's command that reuses the id. */
  lemma LateReplyGoesAstray() returns (cs: seq<Conn>, steps: seq<Step>)
    ensures IsRun(cs, steps) && |steps| == 10
    ensures steps[4] == CleanUp(10) && steps[5] == Number(20, 2) && cs[5].pending == map[]
    ensures 20 in cs[10].commands && cs[10].commands[20].phase == Done(Got(Frame(10, [])))
  {
    hide IsRun, FreshIds;
    cs, steps := FirstWaits();
    cs, steps := Extend(cs, steps, Timeout(10));
    cs, steps := Extend(cs, steps, CleanUp(10));
    assert cs[5].commands.Keys == {10};
    cs, steps := SecondWaits(cs, steps);
    cs, steps := Extend(cs, steps, Receive(10, []));
    cs, steps := Extend(cs, steps, Wake(20));
  }

  /** Fresh ids keep replies apart but not removals: a command that timed out clears its id from the map
      after another session has put its own entry there, and so fails that session's command as closed on
      an open connection. */
  lemma CleanUpDropsAnother() returns (cs: seq<Conn>, steps: seq<Step>)
    ensures IsRun(cs, steps) && FreshIds(cs, steps) && |steps| == 11
    ensures steps[8] == CleanUp(10) && Close !in steps
    ensures 20 in cs[11].commands && cs[11].commands[20].phase == Done(Closed)
  {
    hide IsRun, FreshIds;
    cs, steps := FirstWaits();
    cs, steps := Extend(cs, steps, Timeout(10));
    cs, steps := Extend(cs, steps, Receive(10, []));
    assert cs[5].commands.Keys == {10};
    cs, steps := SecondWaits(cs, steps);
    cs, steps := Extend(cs, steps, CleanUp(10));
    cs, steps := Extend(cs, steps, Wake(20));
    cs, steps := Extend(cs, steps, CleanUp(20));
  }
}
