/**
  The snapshot-delta protocol: a bounded, numbered mutation log in the page, an
  engine that drains it, and the anchor that lets a client ask for "what changed
  since snapshot N".
 */
module SnapshotDelta {
  import opened Text

  const MAX_LOG: nat := 4096

  datatype MutationRecord = MutationRecord(number: nat, kind: string, tag: string, cb: string)

  datatype Anchor = Anchor(snapshotSeq: nat, highWater: nat)

  /** `drained` is not in the program: it is the last record number that has left the log by a drain. */
  datatype Page = Page(
    log: seq<MutationRecord>, counter: nat, drained: nat, snapshotSeq: nat, anchor: Option<Anchor>)

  const NEW_PAGE := Page([], 0, 0, 0, None)

  /** How one drain call ends: the log arrives; the call succeeds without a value, which reads
      as an empty log; or it fails. In the last two the page may or may not have given up its log. */
  datatype DrainReply = Records | MissingValue(consumed: bool) | Failed(consumed: bool)

  datatype FrameProbe = ProbeFailed | HasChildren | NoChildren

  /** `completes` is false when the full snapshot fails after its drain. */
  datatype Step =
    | Record(kind: string, tag: string, cb: string)
    | Snapshot(reply: DrainReply, completes: bool)
    | DeltaSince(since: nat, frames: FrameProbe, reply: DrainReply, again: DrainReply, completes: bool)
    | Navigate
    | ClearAnchor

  datatype Response =
    | Silent
    | Error
    | Full(snapshotSeq: nat, baseSeq: nat, anchorStale: bool)
    | Delta(snapshotSeq: nat, baseSeq: nat, mutations: seq<MutationRecord>)

  // ----- One step -----------------------------------------------------------------

  /** The page-side `record`: number, append, drop the oldest past the cap. */
  function Recorded(p: Page, kind: string, tag: string, cb: string): Page {
    var log := p.log + [MutationRecord(p.counter + 1, kind, tag, cb)];
    p.(counter := p.counter + 1, log := if |log| > MAX_LOG then log[|log| - MAX_LOG..] else log)
  }

  function Emptied(p: Page, consumed: bool): Page {
    if consumed then p.(log := [], drained := p.counter) else p
  }

  /** `drain_log`: the page afterwards, and the records or a failure. */
  function Drain(p: Page, reply: DrainReply): (Page, Option<seq<MutationRecord>>) {
    match reply
    case Records => (Emptied(p, true), Some(p.log))
    case MissingValue(consumed) => (Emptied(p, consumed), Some([]))
    case Failed(consumed) => (Emptied(p, consumed), None)
  }

  function MaxNumber(ms: seq<MutationRecord>, otherwise: nat): nat {
    if ms == [] then otherwise
    else
      var rest := MaxNumber(ms[1..], ms[0].number);
      if rest < ms[0].number then ms[0].number else rest
  }

  function MinNumber(ms: seq<MutationRecord>): nat
    requires ms != []
  {
    if |ms| == 1 then ms[0].number
    else
      var rest := MinNumber(ms[1..]);
      if ms[0].number < rest then ms[0].number else rest
  }

  function NewerThan(ms: seq<MutationRecord>, mark: nat): seq<MutationRecord> {
    if ms == [] then []
    else (if ms[0].number > mark then [ms[0]] else []) + NewerThan(ms[1..], mark)
  }

  /** `mutation_log_overflowed`: the smallest drained number leaves a gap behind the mark. */
  predicate Overflowed(highWater: nat, drained: seq<MutationRecord>) {
    drained != [] && MinNumber(drained) > highWater + 1
  }

  /** `do_snapshot`: the sequence number is spent first, the anchor set last. */
  function FullSnapshot(p: Page, highWater: nat, base: nat, stale: bool, completes: bool): (Page, Response) {
    var seqNo := p.snapshotSeq + 1;
    if completes then
      (p.(snapshotSeq := seqNo, anchor := Some(Anchor(seqNo, highWater))), Full(seqNo, base, stale))
    else
      (p.(snapshotSeq := seqNo), Error)
  }

  /** Drain for the high-water mark (0 when the log is empty or the drain fails), then snapshot. */
  function DrainAndSnapshot(p: Page, reply: DrainReply, base: nat, stale: bool, completes: bool): (Page, Response) {
    var (q, records) := Drain(p, reply);
    FullSnapshot(q, if records.Some? then MaxNumber(records.value, 0) else 0, base, stale, completes)
  }

  function Do(p: Page, step: Step): (Page, Response) {
    match step
    case Record(kind, tag, cb) => (Recorded(p, kind, tag, cb), Silent)
    case Snapshot(reply, completes) => DrainAndSnapshot(p, reply, 0, false, completes)
    case DeltaSince(since, frames, reply, again, completes) =>
      if since == 0 then DrainAndSnapshot(p, reply, 0, false, completes)
      else if frames.ProbeFailed? then (p, Error)
      else if frames.HasChildren? || p.anchor.None? || p.anchor.value.snapshotSeq != since then
        DrainAndSnapshot(p, reply, since, true, completes)
      else AnchoredDelta(p, p.anchor.value, reply, again, completes)
    case Navigate => (p.(log := [], counter := 0, drained := 0, anchor := None), Silent)
    case ClearAnchor => (p.(anchor := None), Silent)
  }

  function AnchoredDelta(p: Page, a: Anchor, reply: DrainReply, again: DrainReply, completes: bool): (Page, Response) {
    var (q, records) := Drain(p, reply);
    if records.None? then DrainAndSnapshot(q, again, a.snapshotSeq, true, completes)
    else if Overflowed(a.highWater, records.value) then
      FullSnapshot(q, MaxNumber(records.value, a.highWater), a.snapshotSeq, true, completes)
    else
      var newer := NewerThan(records.value, a.highWater);
      var seqNo := q.snapshotSeq + 1;
      (q.(snapshotSeq := seqNo, anchor := Some(Anchor(seqNo, MaxNumber(newer, a.highWater)))),
       Delta(seqNo, a.snapshotSeq, newer))
  }

  // ----- The engine, in place -----------------------------------------------------

  class SnapshotEngine {
    var log: seq<MutationRecord>
    var counter: nat
    var snapshotSeq: nat
    var anchor: Option<Anchor>
    ghost var drained: nat

    ghost function State(): Page
      reads this
    {
      Page(log, counter, drained, snapshotSeq, anchor)
    }

    constructor ()
      ensures State() == NEW_PAGE
    {
      log, counter, snapshotSeq, anchor, drained := [], 0, 0, None, 0;
    }

    method RecordMutation(kind: string, tag: string, cb: string)
      modifies this
      ensures State() == Do(old(State()), Record(kind, tag, cb)).0
    {
      counter := counter + 1;
      log := log + [MutationRecord(counter, kind, tag, cb)];
      if |log| > MAX_LOG {
        log := log[|log| - MAX_LOG..];
      }
    }

    method DrainLog(reply: DrainReply) returns (records: Option<seq<MutationRecord>>)
      modifies this
      ensures (State(), records) == Drain(old(State()), reply)
    {
      records := match reply
        case Records => Some(log)
        case MissingValue(_) => Some([])
        case Failed(_) => None;
      if reply.Records? || reply.consumed {
        log := [];
        drained := counter;
      }
    }

    method NextSnapshotSeq() returns (seqNo: nat)
      modifies this`snapshotSeq
      ensures seqNo == snapshotSeq == old(snapshotSeq) + 1
    {
      snapshotSeq := snapshotSeq + 1;
      seqNo := snapshotSeq;
    }

    method DoSnapshot(highWater: nat, base: nat, stale: bool, completes: bool) returns (r: Response)
      modifies this`snapshotSeq, this`anchor
      ensures (State(), r) == FullSnapshot(old(State()), highWater, base, stale, completes)
    {
      var seqNo := NextSnapshotSeq();
      if !completes {
        return Error;
      }
      anchor := Some(Anchor(seqNo, highWater));
      r := Full(seqNo, base, stale);
    }

    method DrainHighWater(reply: DrainReply) returns (mark: nat)
      modifies this
      ensures State() == Drain(old(State()), reply).0
      ensures var records := Drain(old(State()), reply).1;
              mark == if records.Some? then MaxNumber(records.value, 0) else 0
    {
      var records := DrainLog(reply);
      mark := if records.Some? then MaxNumber(records.value, 0) else 0;
    }

    method TakeSnapshot(reply: DrainReply, completes: bool) returns (r: Response)
      modifies this
      ensures (State(), r) == Do(old(State()), Snapshot(reply, completes))
    {
      var mark := DrainHighWater(reply);
      r := DoSnapshot(mark, 0, false, completes);
    }

    method SnapshotDeltaSince(since: nat, frames: FrameProbe, reply: DrainReply, again: DrainReply, completes: bool)
      returns (r: Response)
      modifies this
      ensures (State(), r) == Do(old(State()), DeltaSince(since, frames, reply, again, completes))
    {
      if since == 0 {
        r := TakeSnapshot(reply, completes);
        return;
      }
      if frames.ProbeFailed? {
        return Error;
      }
      if frames.HasChildren? || anchor.None? || anchor.value.snapshotSeq != since {
        var mark := DrainHighWater(reply);
        r := DoSnapshot(mark, since, true, completes);
        return;
      }
      var a := anchor.value;
      var records := DrainLog(reply);
      if records.None? {
        var mark := DrainHighWater(again);
        r := DoSnapshot(mark, since, true, completes);
        return;
      }
      if Overflowed(a.highWater, records.value) {
        r := DoSnapshot(MaxNumber(records.value, a.highWater), since, true, completes);
        return;
      }
      var newer := NewerThan(records.value, a.highWater);
      var seqNo := NextSnapshotSeq();
      anchor := Some(Anchor(seqNo, MaxNumber(newer, a.highWater)));
      r := Delta(seqNo, since, newer);
    }

    /** A top-frame navigation: a fresh document, and the pump clears the anchor. */
    method FrameNavigated()
      modifies this
      ensures State() == Do(old(State()), Navigate).0
    {
      log, counter, drained := [], 0, 0;
      anchor := None;
    }
  }

  // ----- The log is a window of consecutive numbers --------------------------------

  function Numbers(ms: seq<MutationRecord>): seq<nat> {
    seq(|ms|, i requires 0 <= i < |ms| => ms[i].number)
  }

  /** `lo + 1, ..., hi`. */
  function After(lo: nat, hi: nat): seq<nat> {
    if lo <= hi then seq(hi - lo, i => lo + 1 + i) else []
  }

  ghost predicate Inv(p: Page) {
    && |p.log| <= MAX_LOG && |p.log| <= p.counter
    && Numbers(p.log) == After(p.counter - |p.log|, p.counter)
    && p.drained <= p.counter - |p.log|
    && (p.drained < p.counter - |p.log| ==> |p.log| == MAX_LOG)
    && (p.anchor.Some? ==> p.anchor.value.highWater <= p.drained
                           && 1 <= p.anchor.value.snapshotSeq <= p.snapshotSeq)
  }

  lemma {:induction false} Extremes(ms: seq<MutationRecord>, lo: nat, hi: nat, otherwise: nat)
    requires lo < hi && Numbers(ms) == After(lo, hi)
    ensures ms != [] && MinNumber(ms) == lo + 1
    ensures MaxNumber(ms, otherwise) == hi
    decreases hi - lo
  {
    assert |Numbers(ms)| == hi - lo;
    assert ms[0].number == Numbers(ms)[0] == lo + 1;
    if lo + 1 < hi {
      assert Numbers(ms[1..]) == Numbers(ms)[1..] == After(lo + 1, hi);
      Extremes(ms[1..], lo + 1, hi, ms[0].number);
    }
  }

  lemma {:induction false} AllNewer(ms: seq<MutationRecord>, mark: nat)
    requires forall i :: 0 <= i < |ms| ==> ms[i].number > mark
    ensures NewerThan(ms, mark) == ms
  {
    if ms != [] {
      AllNewer(ms[1..], mark);
    }
  }

  lemma WindowGrows(ms: seq<MutationRecord>, lo: nat, m: MutationRecord)
    requires Numbers(ms) == After(lo, lo + |ms|) && m.number == lo + |ms| + 1
    ensures Numbers(ms + [m]) == After(lo, lo + |ms| + 1)
  {
    assert Numbers(ms + [m]) == Numbers(ms) + [m.number];
    assert After(lo, lo + |ms| + 1) == After(lo, lo + |ms|) + [lo + |ms| + 1];
  }

  lemma WindowSlides(ms: seq<MutationRecord>, lo: nat)
    requires ms != [] && Numbers(ms) == After(lo, lo + |ms|)
    ensures Numbers(ms[1..]) == After(lo + 1, lo + |ms|)
  {
    assert Numbers(ms[1..]) == Numbers(ms)[1..];
    assert After(lo + 1, lo + |ms|) == After(lo, lo + |ms|)[1..];
  }

  lemma RecordKeepsInv(p: Page, kind: string, tag: string, cb: string)
    requires Inv(p)
    ensures Inv(Recorded(p, kind, tag, cb))
  {
    hide Numbers, After;
    var m := MutationRecord(p.counter + 1, kind, tag, cb);
    WindowGrows(p.log, p.counter - |p.log|, m);
    if |p.log + [m]| > MAX_LOG {
      WindowSlides(p.log + [m], p.counter - |p.log|);
    }
  }

  lemma MarkIsDrained(p: Page, reply: DrainReply)
    requires Inv(p)
    ensures
      var (q, records) := Drain(p, reply);
      && Inv(q) && p.drained <= q.drained
      && (records.Some? && records.value != [] ==>
            forall otherwise :: MaxNumber(records.value, otherwise) == q.drained == p.counter)
  {
    if p.log != [] && reply.Records? {
      forall otherwise ensures MaxNumber(p.log, otherwise) == p.counter {
        Extremes(p.log, p.counter - |p.log|, p.counter, otherwise);
      }
    }
  }

  lemma SnapshotKeepsInv(p: Page, reply: DrainReply, base: nat, stale: bool, completes: bool)
    requires Inv(p)
    ensures Inv(DrainAndSnapshot(p, reply, base, stale, completes).0)
    ensures p.drained <= DrainAndSnapshot(p, reply, base, stale, completes).0.drained
  {
    hide MaxNumber;
    MarkIsDrained(p, reply);
    assert MaxNumber([], 0) == 0 by { EmptyMax(0); }
  }

  lemma EmptyMax(otherwise: nat)
    ensures MaxNumber([], otherwise) == otherwise && NewerThan([], otherwise) == []
  {
  }

  /** The heart of the delta path. If it answers with a delta, the records it carries are exactly
      the numbers after the old mark up to the new one; if there are any, the old mark was the last
      drained number, so nothing between was dropped by the cap or drained earlier. */
  lemma DeltaFillsTheGap(p: Page, a: Anchor, reply: DrainReply, again: DrainReply, completes: bool)
    requires Inv(p) && p.anchor == Some(a)
    ensures
      var (q, r) := AnchoredDelta(p, a, reply, again, completes);
      && Inv(q) && p.drained <= q.drained
      && (r.Delta? ==>
            && q.anchor == Some(Anchor(r.snapshotSeq, q.anchor.value.highWater))
            && a.highWater <= q.anchor.value.highWater
            && Numbers(r.mutations) == After(a.highWater, q.anchor.value.highWater)
            && (r.mutations == [] ==> q.anchor.value.highWater == a.highWater)
            && (r.mutations != [] ==> a.highWater == p.drained && q.anchor.value.highWater == q.drained == p.counter))
  {
    hide MaxNumber, MinNumber, NewerThan, DrainAndSnapshot;
    MarkIsDrained(p, reply);
    EmptyMax(a.highWater);
    var (q, records) := Drain(p, reply);
    if records.None? {
      SnapshotKeepsInv(q, again, a.snapshotSeq, true, completes);
      SeqOfSnapshot(q, again, a.snapshotSeq, true, completes);
    } else if records.value != [] {
      Extremes(p.log, p.counter - |p.log|, p.counter, a.highWater);
      assert forall i :: 0 <= i < |p.log| ==> p.log[i].number == Numbers(p.log)[i];
      if !Overflowed(a.highWater, records.value) {
        AllNewer(p.log, a.highWater);
      }
    }
  }

  /** Every step keeps the log a gap-free window, and the anchor's mark at or below what was drained. */
  lemma StepKeepsInv(p: Page, step: Step)
    requires Inv(p)
    ensures Inv(Do(p, step).0)
    ensures !step.Navigate? ==> p.drained <= Do(p, step).0.drained
    ensures p.snapshotSeq <= Do(p, step).0.snapshotSeq
  {
    hide DrainAndSnapshot, AnchoredDelta, Recorded;
    match step {
      case Record(kind, tag, cb) =>
        RecordKeepsInv(p, kind, tag, cb);
        var q := Recorded(p, kind, tag, cb);
        assert q.drained == p.drained && q.snapshotSeq == p.snapshotSeq by {
          RecordedFrame(p, kind, tag, cb);
        }
      case Snapshot(reply, completes) =>
        SnapshotKeepsInv(p, reply, 0, false, completes);
        SeqOfSnapshot(p, reply, 0, false, completes);
      case DeltaSince(since, _, reply, again, completes) =>
        SnapshotKeepsInv(p, reply, 0, false, completes);
        SnapshotKeepsInv(p, reply, since, true, completes);
        SeqOfSnapshot(p, reply, 0, false, completes);
        SeqOfSnapshot(p, reply, since, true, completes);
        if p.anchor.Some? {
          DeltaFillsTheGap(p, p.anchor.value, reply, again, completes);
          SeqOfDelta(p, p.anchor.value, reply, again, completes);
        }
      case Navigate =>
      case ClearAnchor =>
    }
  }

  lemma RecordedFrame(p: Page, kind: string, tag: string, cb: string)
    ensures Recorded(p, kind, tag, cb) == p.(log := Recorded(p, kind, tag, cb).log, counter := p.counter + 1)
  {
  }

  /** What a response says about the sequence counter and the anchor. */
  ghost predicate Answered(p: Page, q: Page, r: Response) {
    && q.snapshotSeq == p.snapshotSeq + (if r.Silent? then 0 else 1)
    && (r.Full? || r.Delta? ==> r.snapshotSeq == q.snapshotSeq && q.anchor.Some?
                                && q.anchor.value.snapshotSeq == q.snapshotSeq)
    && (r.Error? ==> q.anchor == p.anchor)
  }

  lemma SeqOfSnapshot(p: Page, reply: DrainReply, base: nat, stale: bool, completes: bool)
    ensures var (q, r) := DrainAndSnapshot(p, reply, base, stale, completes);
            Answered(p, q, r) && !r.Silent? && !r.Delta?
  {
  }

  lemma SeqOfDelta(p: Page, a: Anchor, reply: DrainReply, again: DrainReply, completes: bool)
    requires p.anchor == Some(a)
    ensures var (q, r) := AnchoredDelta(p, a, reply, again, completes);
            Answered(p, q, r) && !r.Silent? && (r.Delta? ==> r.baseSeq == a.snapshotSeq)
  {
  }

  /** The gap test is exact: when the drain delivers, an anchored request is answered by a delta
      exactly when the log is empty or holds every record after the anchor's mark. */
  lemma GapTestIsExact(p: Page, since: nat, again: DrainReply, completes: bool)
    requires Inv(p) && p.anchor.Some? && p.anchor.value.snapshotSeq == since
    ensures
      var r := Do(p, DeltaSince(since, NoChildren, Records, again, completes)).1;
      && (r.Delta? <==> p.log == [] || Numbers(p.log) == After(p.anchor.value.highWater, p.counter))
      && (r.Delta? ==> r.mutations == p.log)
  {
    hide MaxNumber, MinNumber, NewerThan, DrainAndSnapshot;
    var a := p.anchor.value;
    EmptyMax(a.highWater);
    if p.log != [] {
      var lo := p.counter - |p.log|;
      Extremes(p.log, lo, p.counter, 0);
      assert forall i :: 0 <= i < |p.log| ==> p.log[i].number == Numbers(p.log)[i];
      AllNewer(p.log, a.highWater);
      if Numbers(p.log) == After(a.highWater, p.counter) {
        assert Numbers(p.log)[0] == a.highWater + 1;
      }
    }
  }

  // ----- Runs -----------------------------------------------------------------------

  /** `ps` are the pages of the run `steps` of one tab, from its creation. */
  ghost predicate IsRun(ps: seq<Page>, steps: seq<Step>) {
    && |ps| == |steps| + 1
    && ps[0] == NEW_PAGE
    && forall i :: 0 <= i < |steps| ==> ps[i + 1] == Do(ps[i], steps[i]).0
  }

  ghost function Reply(ps: seq<Page>, steps: seq<Step>, i: nat): Response
    requires IsRun(ps, steps) && i < |steps|
  {
    Do(ps[i], steps[i]).1
  }

  predicate IsSnapshot(r: Response) {
    r.Full? || r.Delta?
  }

  lemma {:induction false} RunKeepsInv(ps: seq<Page>, steps: seq<Step>, m: nat)
    requires IsRun(ps, steps) && m < |ps|
    ensures Inv(ps[m])
  {
    hide Inv, Do;
    if m == 0 {
      NewPageInv();
    } else {
      RunKeepsInv(ps, steps, m - 1);
      StepKeepsInv(ps[m - 1], steps[m - 1]);
    }
  }

  lemma NewPageInv()
    ensures Inv(NEW_PAGE)
  {
  }

  /** The effect of one step on counter and anchor, whatever the step. */
  lemma StepEffect(p: Page, step: Step)
    requires Inv(p)
    ensures
      var (q, r) := Do(p, step);
      && p.snapshotSeq <= q.snapshotSeq
      && (IsSnapshot(r) ==> r.snapshotSeq == q.snapshotSeq == p.snapshotSeq + 1 && q.anchor.Some?
                            && q.anchor.value.snapshotSeq == r.snapshotSeq)
      && (!IsSnapshot(r) ==> q.anchor == p.anchor || q.anchor == None)
      && (step.Navigate? || step.ClearAnchor? ==> q.anchor == None)
      && (!step.Navigate? ==> p.drained <= q.drained)
      && (r.Delta? ==> p.anchor.Some? && p.anchor.value.snapshotSeq == r.baseSeq && step.DeltaSince?
                       && step.since == r.baseSeq)
  {
    hide DrainAndSnapshot, AnchoredDelta, Recorded, Inv;
    StepKeepsInv(p, step);
    match step {
      case Record(kind, tag, cb) => RecordedFrame(p, kind, tag, cb);
      case Snapshot(reply, completes) => SeqOfSnapshot(p, reply, 0, false, completes);
      case DeltaSince(since, _, reply, again, completes) =>
        SeqOfSnapshot(p, reply, 0, false, completes);
        SeqOfSnapshot(p, reply, since, true, completes);
        if p.anchor.Some? {
          SeqOfDelta(p, p.anchor.value, reply, again, completes);
        }
      case Navigate =>
      case ClearAnchor =>
    }
  }

  lemma {:induction false} SeqGrows(ps: seq<Page>, steps: seq<Step>, m: nat, n: nat)
    requires IsRun(ps, steps) && m <= n < |ps|
    ensures ps[m].snapshotSeq <= ps[n].snapshotSeq
    decreases n
  {
    hide Do, Inv;
    if m < n {
      SeqGrows(ps, steps, m, n - 1);
      RunKeepsInv(ps, steps, n - 1);
      StepEffect(ps[n - 1], steps[n - 1]);
    }
  }

  /** Issued sequence numbers strictly increase over a run. */
  lemma IssuedSeqsIncrease(ps: seq<Page>, steps: seq<Step>, i: nat, k: nat)
    requires IsRun(ps, steps) && i < k < |steps|
    requires IsSnapshot(Reply(ps, steps, i)) && IsSnapshot(Reply(ps, steps, k))
    ensures Reply(ps, steps, i).snapshotSeq < Reply(ps, steps, k).snapshotSeq
  {
    hide Do, Inv;
    RunKeepsInv(ps, steps, i);
    RunKeepsInv(ps, steps, k);
    StepEffect(ps[i], steps[i]);
    StepEffect(ps[k], steps[k]);
    SeqGrows(ps, steps, i + 1, k);
  }

  /** Nothing between the answer at `i` and step `m` replaced or cleared the anchor. */
  ghost predicate Undisturbed(ps: seq<Page>, steps: seq<Step>, i: nat, m: nat)
    requires IsRun(ps, steps) && i < m <= |steps|
  {
    forall t :: i < t < m ==>
      !steps[t].Navigate? && !steps[t].ClearAnchor? && !IsSnapshot(Reply(ps, steps, t))
  }

  lemma {:induction false} AnchorOrigin(ps: seq<Page>, steps: seq<Step>, m: nat) returns (i: nat)
    requires IsRun(ps, steps) && m < |ps| && ps[m].anchor.Some?
    ensures i < m && IsSnapshot(Reply(ps, steps, i))
    ensures Reply(ps, steps, i).snapshotSeq == ps[m].anchor.value.snapshotSeq
    ensures ps[i + 1].anchor == ps[m].anchor && ps[i + 1].drained <= ps[m].drained
    ensures Undisturbed(ps, steps, i, m)
  {
    hide Do, Inv;
    RunKeepsInv(ps, steps, m - 1);
    StepEffect(ps[m - 1], steps[m - 1]);
    if IsSnapshot(Reply(ps, steps, m - 1)) {
      i := m - 1;
    } else {
      i := AnchorOrigin(ps, steps, m - 1);
    }
  }

  /** A delta answers the latest snapshot: its base is the number of an earlier answer, and since that
      answer there was no navigation, no other clearing and no other answer. */
  lemma DeltaAnswersTheLatest(ps: seq<Page>, steps: seq<Step>, k: nat) returns (i: nat)
    requires IsRun(ps, steps) && k < |steps| && Reply(ps, steps, k).Delta?
    ensures i < k && IsSnapshot(Reply(ps, steps, i)) && Undisturbed(ps, steps, i, k)
    ensures Reply(ps, steps, k).baseSeq == Reply(ps, steps, i).snapshotSeq
    ensures ps[i + 1].anchor == ps[k].anchor && ps[i + 1].drained <= ps[k].drained
  {
    hide Do, Inv;
    RunKeepsInv(ps, steps, k);
    StepEffect(ps[k], steps[k]);
    i := AnchorOrigin(ps, steps, k);
  }

  // ----- Chains of deltas ---------------------------------------------------------

  /** A client's chain: a full snapshot, then deltas each asked with the previous number. */
  ghost predicate IsChain(ps: seq<Page>, steps: seq<Step>, chain: seq<nat>)
    requires IsRun(ps, steps)
  {
    && chain != []
    && (forall j :: 0 <= j < |chain| ==> chain[j] < |steps|)
    && Reply(ps, steps, chain[0]).Full?
    && (forall j, k :: 0 <= j && j + 1 == k && k < |chain| ==> IsLink(ps, steps, chain[j], chain[k]))
  }

  ghost predicate IsLink(ps: seq<Page>, steps: seq<Step>, i: nat, k: nat)
    requires IsRun(ps, steps) && i < |steps| && k < |steps|
  {
    && i < k
    && IsSnapshot(Reply(ps, steps, i))
    && Reply(ps, steps, k).Delta?
    && Reply(ps, steps, k).baseSeq == Reply(ps, steps, i).snapshotSeq
  }

  /** Everything the deltas of a chain delivered, in order. */
  ghost function Delivered(ps: seq<Page>, steps: seq<Step>, chain: seq<nat>): seq<MutationRecord>
    requires IsRun(ps, steps) && IsChain(ps, steps, chain)
  {
    if |chain| == 1 then []
    else
      var n := |chain| - 1;
      assert IsLink(ps, steps, chain[n - 1], chain[n]);
      Delivered(ps, steps, chain[..n]) + Reply(ps, steps, chain[n]).mutations
  }

  lemma SameOrigin(ps: seq<Page>, steps: seq<Step>, i: nat, k: nat)
    requires IsRun(ps, steps) && i < k < |steps|
    requires IsSnapshot(Reply(ps, steps, i)) && Reply(ps, steps, k).Delta?
    requires Reply(ps, steps, k).baseSeq == Reply(ps, steps, i).snapshotSeq
    ensures ps[k].anchor == ps[i + 1].anchor && ps[i + 1].drained <= ps[k].drained
    ensures Undisturbed(ps, steps, i, k)
  {
    hide Do, Inv;
    var i' := DeltaAnswersTheLatest(ps, steps, k);
    if i < i' {
      IssuedSeqsIncrease(ps, steps, i, i');
    }
  }

  /** From one page of a run to a later one: the delivered records are exactly the numbers between the
      two marks, and if there are any the earlier mark was the last drained number. */
  ghost predicate Covers(first: Page, last: Page, delivered: seq<MutationRecord>) {
    && first.anchor.Some? && last.anchor.Some?
    && first.anchor.value.highWater <= last.anchor.value.highWater
    && first.anchor.value.highWater <= first.drained <= last.drained
    && Numbers(delivered) == After(first.anchor.value.highWater, last.anchor.value.highWater)
    && (delivered != [] ==> first.anchor.value.highWater == first.drained)
  }

  lemma CoversLink(first: Page, mid: Page, p: Page, step: Step, delivered: seq<MutationRecord>)
    requires Covers(first, mid, delivered)
    requires Inv(p) && p.anchor == mid.anchor && mid.drained <= p.drained && Do(p, step).1.Delta?
    ensures Covers(first, Do(p, step).0, delivered + Do(p, step).1.mutations)
  {
    hide Do, Inv;
    LinkFillsTheGap(p, step);
    var more := Do(p, step).1.mutations;
    assert Numbers(delivered + more) == Numbers(delivered) + Numbers(more);
    if delivered == [] {
      assert |Numbers(delivered)| == 0;
    }
  }

  /** No silent loss: whatever overflows, failed drains and failed snapshots a run holds, what a chain
      delivers is a gap-free, duplicate-free stretch of record numbers; and once it delivers anything,
      the stretch starts right after the last number drained behind the chain's full snapshot. */
  lemma {:induction false} NoSilentLoss(ps: seq<Page>, steps: seq<Step>, chain: seq<nat>)
    requires IsRun(ps, steps) && IsChain(ps, steps, chain)
    ensures Covers(ps[chain[0] + 1], ps[chain[|chain| - 1] + 1], Delivered(ps, steps, chain))
  {
    hide Do, Covers;
    var n := |chain| - 1;
    RunKeepsInv(ps, steps, chain[n]);
    RunKeepsInv(ps, steps, chain[n] + 1);
    StepEffect(ps[chain[n]], steps[chain[n]]);
    if n == 0 {
      CoversItself(ps[chain[0] + 1]);
    } else {
      hide Inv;
      assert IsLink(ps, steps, chain[n - 1], chain[n]);
      NoSilentLoss(ps, steps, chain[..n]);
      SameOrigin(ps, steps, chain[n - 1], chain[n]);
      CoversLink(ps[chain[0] + 1], ps[chain[n - 1] + 1], ps[chain[n]], steps[chain[n]],
                 Delivered(ps, steps, chain[..n]));
    }
  }

  lemma CoversItself(p: Page)
    requires Inv(p) && p.anchor.Some?
    ensures Covers(p, p, [])
  {
  }

  lemma LinkFillsTheGap(p: Page, step: Step)
    requires Inv(p) && Do(p, step).1.Delta?
    ensures
      var (q, r) := Do(p, step);
      && p.anchor.Some? && q.anchor.Some?
      && p.anchor.value.highWater <= p.drained <= q.drained
      && p.anchor.value.highWater <= q.anchor.value.highWater
      && Numbers(r.mutations) == After(p.anchor.value.highWater, q.anchor.value.highWater)
      && (r.mutations == [] ==> q.anchor.value.highWater == p.anchor.value.highWater)
      && (r.mutations != [] ==> p.anchor.value.highWater == p.drained && q.anchor.value.highWater == q.drained)
  {
    hide DrainAndSnapshot, AnchoredDelta, Recorded;
    StepEffect(p, step);
    match step {
      case DeltaSince(since, _, reply, again, completes) =>
        SeqOfSnapshot(p, reply, 0, false, completes);
        SeqOfSnapshot(p, reply, since, true, completes);
        DeltaFillsTheGap(p, p.anchor.value, reply, again, completes);
    }
  }

  // ----- When a chain is complete ---------------------------------------------------

  /** A step that takes records out of the log and gives them to nobody: a full snapshot that fails after
      its drain, or a drain that reports no value for a log it consumed. */
  ghost predicate Lossy(p: Page, step: Step) {
    var (q, r) := Do(p, step);
    q.drained != p.drained && (r.Error? || (r.Delta? && r.mutations == []))
  }

  ghost predicate LossFree(ps: seq<Page>, steps: seq<Step>, lo: nat, hi: nat)
    requires IsRun(ps, steps) && hi <= |steps|
  {
    forall t :: lo <= t < hi ==> !Lossy(ps[t], steps[t])
  }

  /** Everything drained since the first page was delivered. */
  ghost predicate NothingLost(first: Page, last: Page, delivered: seq<MutationRecord>)
    requires last.anchor.Some?
  {
    last.drained == if delivered == [] then first.drained else last.anchor.value.highWater
  }

  lemma QuietStep(p: Page, step: Step)
    requires Inv(p) && !step.Navigate? && !IsSnapshot(Do(p, step).1)
    ensures p.drained <= Do(p, step).0.drained
    ensures Lossy(p, step) <==> Do(p, step).0.drained != p.drained
  {
    hide DrainAndSnapshot, AnchoredDelta, Recorded, Inv;
    StepEffect(p, step);
    match step {
      case Record(kind, tag, cb) => RecordedFrame(p, kind, tag, cb);
      case Snapshot(reply, completes) => SeqOfSnapshot(p, reply, 0, false, completes);
      case DeltaSince(since, _, reply, again, completes) =>
        SeqOfSnapshot(p, reply, 0, false, completes);
        SeqOfSnapshot(p, reply, since, true, completes);
        if p.anchor.Some? {
          SeqOfDelta(p, p.anchor.value, reply, again, completes);
        }
      case ClearAnchor =>
    }
  }

  lemma {:induction false} QuietStretch(ps: seq<Page>, steps: seq<Step>, i: nat, k: nat)
    requires IsRun(ps, steps) && i < k <= |steps| && Undisturbed(ps, steps, i, k)
    ensures ps[i + 1].drained <= ps[k].drained
    ensures LossFree(ps, steps, i + 1, k) <==> ps[i + 1].drained == ps[k].drained
    decreases k
  {
    hide Do, Inv, Lossy;
    if i + 1 < k {
      QuietStretch(ps, steps, i, k - 1);
      RunKeepsInv(ps, steps, k - 1);
      QuietStep(ps[k - 1], steps[k - 1]);
      assert LossFree(ps, steps, i + 1, k) <==> LossFree(ps, steps, i + 1, k - 1) && !Lossy(ps[k - 1], steps[k - 1]);
    }
  }

  lemma LostByLink(first: Page, mid: Page, p: Page, step: Step, delivered: seq<MutationRecord>)
    requires Covers(first, mid, delivered) && mid.anchor.value.highWater <= mid.drained
    requires Inv(p) && p.anchor == mid.anchor && mid.drained <= p.drained && Do(p, step).1.Delta?
    ensures Do(p, step).0.anchor.Some?
    ensures NothingLost(first, Do(p, step).0, delivered + Do(p, step).1.mutations)
       <==> NothingLost(first, mid, delivered) && mid.drained == p.drained && !Lossy(p, step)
  {
    hide Do, Inv;
    LinkFillsTheGap(p, step);
    if delivered == [] {
      assert |Numbers(delivered)| == 0;
    }
  }

  lemma MarkBelowDrained(p: Page)
    requires Inv(p) && p.anchor.Some?
    ensures p.anchor.value.highWater <= p.drained
  {
  }

  lemma LossFreeSplits(ps: seq<Page>, steps: seq<Step>, lo: nat, mid: nat, k: nat)
    requires IsRun(ps, steps) && lo <= mid <= k < |steps|
    ensures LossFree(ps, steps, lo, k + 1)
       <==> LossFree(ps, steps, lo, mid) && LossFree(ps, steps, mid, k) && !Lossy(ps[k], steps[k])
  {
    hide Lossy, IsRun;
  }

  lemma {:induction false} LostInChain(ps: seq<Page>, steps: seq<Step>, chain: seq<nat>)
    requires IsRun(ps, steps) && IsChain(ps, steps, chain)
    ensures ps[chain[|chain| - 1] + 1].anchor.Some?
    ensures chain[0] <= chain[|chain| - 1]
    ensures NothingLost(ps[chain[0] + 1], ps[chain[|chain| - 1] + 1], Delivered(ps, steps, chain))
       <==> LossFree(ps, steps, chain[0] + 1, chain[|chain| - 1] + 1)
  {
    assert |ps| == |steps| + 1;
    hide Do, Lossy, Undisturbed, Inv, LossFree, IsRun, NothingLost;
    var n := |chain| - 1;
    NoSilentLoss(ps, steps, chain);
    if n == 0 {
      NothingLostYet(ps, steps, chain[0]);
    } else {
      var i, k := chain[n - 1], chain[n];
      assert IsLink(ps, steps, i, k);
      LostInChain(ps, steps, chain[..n]);
      NoSilentLoss(ps, steps, chain[..n]);
      SameOrigin(ps, steps, i, k);
      QuietStretch(ps, steps, i, k);
      RunKeepsInv(ps, steps, i + 1);
      RunKeepsInv(ps, steps, k);
      MarkBelowDrained(ps[i + 1]);
      LostByLink(ps[chain[0] + 1], ps[i + 1], ps[k], steps[k], Delivered(ps, steps, chain[..n]));
      StepIs(ps, steps, k);
      LossFreeSplits(ps, steps, chain[0] + 1, i + 1, k);
    }
  }

  lemma StepIs(ps: seq<Page>, steps: seq<Step>, k: nat)
    requires IsRun(ps, steps) && k < |steps|
    ensures ps[k + 1] == Do(ps[k], steps[k]).0
  {
  }

  lemma NothingLostYet(ps: seq<Page>, steps: seq<Step>, i: nat)
    requires IsRun(ps, steps) && i < |steps| && ps[i + 1].anchor.Some?
    ensures NothingLost(ps[i + 1], ps[i + 1], []) && LossFree(ps, steps, i + 1, i + 1)
  {
  }

  /** The page gives up its log in this drain. */
  predicate Takes(reply: DrainReply) {
    reply.Records? || reply.consumed
  }

  /** What makes a step lossy, from its inputs alone: it meets a log that is not empty, and either a full
      snapshot fails after a drain took that log, or the drain of a delta takes it but reports no value. */
  predicate GivesUpRecords(p: Page, step: Step) {
    p.log != [] &&
    match step
    case Snapshot(reply, completes) => !completes && Takes(reply)
    case DeltaSince(since, frames, reply, again, completes) =>
      if since == 0 then !completes && Takes(reply)
      else if frames.ProbeFailed? then false
      else if frames.HasChildren? || p.anchor.None? || p.anchor.value.snapshotSeq != since then
        !completes && Takes(reply)
      else
        (match reply
         case Records => !completes && p.log[0].number > p.anchor.value.highWater + 1
         case MissingValue(consumed) => consumed
         case Failed(consumed) => !completes && (consumed || Takes(again)))
    case _ => false
  }

  lemma SnapshotLoss(p: Page, reply: DrainReply, base: nat, stale: bool, completes: bool)
    requires Inv(p)
    ensures var (q, r) := DrainAndSnapshot(p, reply, base, stale, completes);
            && (r.Error? <==> !completes) && !r.Delta?
            && (q.drained != p.drained <==> p.log != [] && Takes(reply))
  {
    hide Numbers, After, MaxNumber;
  }

  lemma DeltaLoss(p: Page, a: Anchor, reply: DrainReply, again: DrainReply, completes: bool)
    requires Inv(p) && p.anchor == Some(a)
    ensures
      var (q, r) := AnchoredDelta(p, a, reply, again, completes);
      (q.drained != p.drained && (r.Error? || (r.Delta? && r.mutations == [])))
      <==> p.log != [] && match reply
                          case Records => !completes && p.log[0].number > a.highWater + 1
                          case MissingValue(consumed) => consumed
                          case Failed(consumed) => !completes && (consumed || Takes(again))
  {
    if p.log != [] {
      Extremes(p.log, p.counter - |p.log|, p.counter, 0);
      assert p.log[0].number == Numbers(p.log)[0] == p.counter - |p.log| + 1;
    }
    MarkIsDrained(p, reply);
    EmptyMax(a.highWater);
    hide Numbers, After, MaxNumber, MinNumber, DrainAndSnapshot;
    if reply.Failed? {
      SnapshotLoss(Drain(p, reply).0, again, a.snapshotSeq, true, completes);
    } else if reply.Records? && p.log != [] && !Overflowed(a.highWater, p.log) {
      assert NewerThan(p.log, a.highWater) != [] by {
        assert p.log[0].number > a.highWater;
      }
    }
  }

  lemma LossyExactly(p: Page, step: Step)
    requires Inv(p)
    ensures Lossy(p, step) <==> GivesUpRecords(p, step)
  {
    hide DrainAndSnapshot, AnchoredDelta, Inv, Takes;
    match step {
      case Record(_, _, _) =>
      case Snapshot(reply, completes) => SnapshotLoss(p, reply, 0, false, completes);
      case DeltaSince(since, _, reply, again, completes) =>
        SnapshotLoss(p, reply, 0, false, completes);
        SnapshotLoss(p, reply, since, true, completes);
        if p.anchor.Some? {
          DeltaLoss(p, p.anchor.value, reply, again, completes);
        }
      case Navigate =>
      case ClearAnchor =>
    }
  }

  lemma LossFreeExactly(ps: seq<Page>, steps: seq<Step>, lo: nat, hi: nat)
    requires IsRun(ps, steps) && lo <= hi <= |steps|
    ensures LossFree(ps, steps, lo, hi) <==> forall t :: lo <= t < hi ==> !GivesUpRecords(ps[t], steps[t])
  {
    hide Do, Inv, Lossy, GivesUpRecords;
    forall t | lo <= t < hi ensures Lossy(ps[t], steps[t]) <==> GivesUpRecords(ps[t], steps[t]) {
      RunKeepsInv(ps, steps, t);
      LossyExactly(ps[t], steps[t]);
    }
  }

  /** A chain has delivered exactly what was recorded between the drain behind its full snapshot and
      the newest drain if and only if no step since that snapshot gave up records. */
  lemma ChainIsComplete(ps: seq<Page>, steps: seq<Step>, chain: seq<nat>)
    requires IsRun(ps, steps) && IsChain(ps, steps, chain)
    ensures
      var lastStep := chain[|chain| - 1];
      && chain[0] <= lastStep
      && (Numbers(Delivered(ps, steps, chain)) == After(ps[chain[0] + 1].drained, ps[lastStep + 1].drained)
          <==> forall t :: chain[0] < t <= lastStep ==> !GivesUpRecords(ps[t], steps[t]))
  {
    hide Do, Lossy, Delivered, LossFree, GivesUpRecords;
    NoSilentLoss(ps, steps, chain);
    LostInChain(ps, steps, chain);
    LossFreeExactly(ps, steps, chain[0] + 1, chain[|chain| - 1] + 1);
    var first, last := ps[chain[0] + 1], ps[chain[|chain| - 1] + 1];
    RunKeepsInv(ps, steps, chain[|chain| - 1] + 1);
    var d := Delivered(ps, steps, chain);
    assert |Numbers(d)| == |d|;
    assert |After(first.drained, last.drained)| == last.drained - first.drained;
  }

  // ----- What a full snapshot leaves behind, and what the next delta then says ------------------

  /** The delta path: a base the anchor still knows, on a page without child frames. */
  predicate Anchored(p: Page, step: Step) {
    && step.DeltaSince? && step.since != 0 && step.frames.NoChildren?
    && p.anchor.Some? && p.anchor.value.snapshotSeq == step.since
  }

  /** The log no longer reaches back to the anchor's mark. */
  predicate Gap(p: Page)
    requires p.anchor.Some?
  {
    p.log != [] && p.log[0].number > p.anchor.value.highWater + 1
  }

  /** The drain a full snapshot is built on hands over a log that is not empty: the first drain or, after a
      failed one that left the log alone, the second. */
  predicate DrainDelivers(p: Page, step: Step) {
    && p.log != []
    && match step
       case Snapshot(reply, _) => reply.Records?
       case DeltaSince(_, _, reply, again, _) =>
         reply.Records? || (Anchored(p, step) && reply == Failed(false) && again.Records?)
       case _ => false
  }

  /** Which answer a request gets, from its inputs alone. */
  lemma AnswersExactly(p: Page, step: Step)
    requires Inv(p) && (step.Snapshot? || step.DeltaSince?)
    ensures
      var r := Do(p, step).1;
      var delta := Anchored(p, step) && (step.reply.MissingValue? || (step.reply.Records? && !Gap(p)));
      && (r.Delta? <==> delta)
      && (r.Error? <==> !delta && (!step.completes
                                   || (step.DeltaSince? && step.since != 0 && step.frames.ProbeFailed?)))
      && !r.Silent?
  {
    hide Inv;
    match step {
      case Snapshot(reply, completes) =>
        FullAnswer(p, reply, 0, false, completes);
      case DeltaSince(since, _, reply, again, completes) =>
        FullAnswer(p, reply, 0, false, completes);
        FullAnswer(p, reply, since, true, completes);
        if Anchored(p, step) {
          AnchoredAnswer(p, p.anchor.value, reply, again, completes);
        }
    }
  }

  lemma FullAnswer(p: Page, reply: DrainReply, base: nat, stale: bool, completes: bool)
    requires Inv(p)
    ensures
      var (q, r) := DrainAndSnapshot(p, reply, base, stale, completes);
      var delivered := p.log != [] && reply.Records?;
      && r == (if completes then Full(p.snapshotSeq + 1, base, stale) else Error)
      && q.snapshotSeq == p.snapshotSeq + 1
      && (completes ==> q.anchor == Some(Anchor(r.snapshotSeq, if delivered then p.counter else 0)))
      && (delivered ==> q.log == [] && q.drained == p.counter == q.counter)
  {
    MarkIsDrained(p, reply);
    EmptyMax(0);
    hide Inv, MaxNumber;
  }

  lemma AnchoredAnswer(p: Page, a: Anchor, reply: DrainReply, again: DrainReply, completes: bool)
    requires Inv(p) && p.anchor == Some(a)
    ensures
      var (q, r) := AnchoredDelta(p, a, reply, again, completes);
      var delivered := p.log != [] && (reply.Records? || (reply == Failed(false) && again.Records?));
      && (r.Delta? <==> reply.MissingValue? || (reply.Records? && !Gap(p)))
      && (!r.Delta? ==> r == if completes then Full(p.snapshotSeq + 1, a.snapshotSeq, true) else Error)
      && q.snapshotSeq == p.snapshotSeq + 1
      && (r.Full? ==> q.anchor == Some(Anchor(r.snapshotSeq, if delivered then p.counter else 0)))
      && (r.Full? && delivered ==> q.log == [] && q.drained == p.counter == q.counter)
  {
    MarkIsDrained(p, reply);
    if reply.Failed? {
      FullAnswer(Drain(p, reply).0, again, a.snapshotSeq, true, completes);
    } else if reply.Records? && p.log != [] {
      Extremes(p.log, p.counter - |p.log|, p.counter, a.highWater);
      assert p.log[0].number == Numbers(p.log)[0];
    }
    hide Inv, MaxNumber, MinNumber, DrainAndSnapshot, NewerThan, Numbers, After;
  }

  /** What a full snapshot leaves: the anchor carries its number and, as mark, the newest record if the drain
      behind it delivered any, else 0. The answer names the base that was asked for, and calls the anchor
      stale exactly when there was one to be stale. */
  lemma FullSnapshotMark(p: Page, step: Step)
    requires Inv(p) && Do(p, step).1.Full?
    ensures
      var (q, r) := Do(p, step);
      && r.snapshotSeq == q.snapshotSeq == p.snapshotSeq + 1
      && q.anchor == Some(Anchor(r.snapshotSeq, if DrainDelivers(p, step) then p.counter else 0))
      && (DrainDelivers(p, step) ==> q.log == [] && q.drained == p.counter == q.counter)
      && (step.Snapshot? ==> r.baseSeq == 0 && !r.anchorStale)
      && (step.DeltaSince? ==> r.baseSeq == step.since && (r.anchorStale <==> step.since != 0))
  {
    hide Inv;
    match step {
      case Snapshot(reply, completes) =>
        FullAnswer(p, reply, 0, false, completes);
      case DeltaSince(since, _, reply, again, completes) =>
        FullAnswer(p, reply, 0, false, completes);
        FullAnswer(p, reply, since, true, completes);
        if Anchored(p, step) {
          AnchoredAnswer(p, p.anchor.value, reply, again, completes);
        }
    }
  }

  /** A new document starts over: its first record is number 1 whatever came before, and a client that asks
      since an old number is told so with a full snapshot. */
  lemma NavigationStartsOver(p: Page, kind: string, tag: string, cb: string, step: Step)
    requires step.DeltaSince? && step.since != 0 && !step.frames.ProbeFailed? && step.reply.Records? && step.completes
    ensures
      var q := Do(Do(p, Navigate).0, Record(kind, tag, cb)).0;
      && q.log == [MutationRecord(1, kind, tag, cb)] && q.anchor == None && q.snapshotSeq == p.snapshotSeq
      && Do(q, step) == (q.(log := [], drained := 1, snapshotSeq := p.snapshotSeq + 1,
                            anchor := Some(Anchor(p.snapshotSeq + 1, 1))),
                         Full(p.snapshotSeq + 1, step.since, true))
  {
    var ms := [MutationRecord(1, kind, tag, cb)];
    assert ms[1..] == [];
    assert MaxNumber(ms, 0) == 1;
  }

  /** The records made by steps `lo`, ..., `hi - 1`, numbered on from `first`. */
  function RecordsOf(steps: seq<Step>, lo: nat, hi: nat, first: nat): seq<MutationRecord>
    requires lo <= hi <= |steps| && forall t :: lo <= t < hi ==> steps[t].Record?
  {
    seq(hi - lo, i requires 0 <= i < hi - lo =>
      MutationRecord(first + i, steps[lo + i].kind, steps[lo + i].tag, steps[lo + i].cb))
  }

  lemma {:induction false} LogAfterRecords(ps: seq<Page>, steps: seq<Step>, lo: nat, hi: nat)
    requires IsRun(ps, steps) && lo <= hi <= |steps| && hi - lo <= MAX_LOG && ps[lo].log == []
    requires forall t :: lo <= t < hi ==> steps[t].Record?
    ensures ps[hi] == ps[lo].(log := RecordsOf(steps, lo, hi, ps[lo].counter + 1), counter := ps[lo].counter + hi - lo)
    decreases hi
  {
    assert |ps| == |steps| + 1;
    hide RecordsOf, IsRun;
    NoRecords(steps, lo, ps[lo].counter + 1);
    if lo < hi {
      LogAfterRecords(ps, steps, lo, hi - 1);
      StepIs(ps, steps, hi - 1);
      OneMoreRecord(steps, lo, hi, ps[lo].counter + 1);
    }
  }

  lemma NoRecords(steps: seq<Step>, lo: nat, first: nat)
    requires lo <= |steps|
    ensures RecordsOf(steps, lo, lo, first) == []
  {
  }

  lemma OneMoreRecord(steps: seq<Step>, lo: nat, hi: nat, first: nat)
    requires lo < hi <= |steps| && forall t :: lo <= t < hi ==> steps[t].Record?
    ensures |RecordsOf(steps, lo, hi - 1, first)| == hi - 1 - lo
    ensures RecordsOf(steps, lo, hi, first)
         == RecordsOf(steps, lo, hi - 1, first)
            + [MutationRecord(first + hi - 1 - lo, steps[hi - 1].kind, steps[hi - 1].tag, steps[hi - 1].cb)]
  {
  }

  /** A full snapshot whose drain delivered records, then up to 4096 records and nothing else: asking since that
      snapshot gives a delta that holds exactly those records, in order, with their kinds and tags. */
  lemma DeltaAfterSnapshot(ps: seq<Page>, steps: seq<Step>, i: nat, k: nat)
    requires IsRun(ps, steps) && i < k < |steps| && k - i - 1 <= MAX_LOG
    requires Reply(ps, steps, i).Full? && DrainDelivers(ps[i], steps[i])
    requires forall t :: i < t < k ==> steps[t].Record?
    requires steps[k].DeltaSince? && steps[k].since == Reply(ps, steps, i).snapshotSeq
    requires steps[k].frames.NoChildren? && steps[k].reply.Records?
    ensures
      var seqNo := Reply(ps, steps, i).snapshotSeq;
      Reply(ps, steps, k) == Delta(seqNo + 1, seqNo, RecordsOf(steps, i + 1, k, ps[i].counter + 1))
  {
    hide Do, Inv, RecordsOf, Numbers, After, DrainDelivers, LossFree;
    RunKeepsInv(ps, steps, i);
    RunKeepsInv(ps, steps, k);
    FullSnapshotMark(ps[i], steps[i]);
    StepIs(ps, steps, i);
    LogAfterRecords(ps, steps, i + 1, k);
    RecordsAreAfter(steps, i + 1, k, ps[i].counter);
    var step := steps[k];
    assert step == DeltaSince(step.since, NoChildren, Records, step.again, step.completes);
    GapTestIsExact(ps[k], step.since, step.again, step.completes);
    DeltaSeq(ps[k], step);
  }

  lemma RecordsAreAfter(steps: seq<Step>, lo: nat, hi: nat, last: nat)
    requires lo <= hi <= |steps| && forall t :: lo <= t < hi ==> steps[t].Record?
    ensures Numbers(RecordsOf(steps, lo, hi, last + 1)) == After(last, last + hi - lo)
  {
  }

  lemma DeltaSeq(p: Page, step: Step)
    requires Do(p, step).1.Delta?
    ensures Do(p, step).1.snapshotSeq == p.snapshotSeq + 1 && Do(p, step).1.baseSeq == step.since
  {
  }

  /** A full snapshot that fails after its drain hides a record from the next, empty delta. */
  lemma FailedSnapshotHidesARecord() returns (ps: seq<Page>, steps: seq<Step>)
    ensures IsRun(ps, steps) && |steps| == 4
    ensures Reply(ps, steps, 0) == Full(1, 0, false) && Reply(ps, steps, 2) == Error
    ensures Reply(ps, steps, 3) == Delta(3, 1, [])
    ensures steps[1].Record? && ps[4].counter == 1 && ps[4].drained == 1
  {
    steps := [Snapshot(Records, true), Record("childList", "DIV", ""), Snapshot(Records, false),
              DeltaSince(1, NoChildren, Records, Records, true)];
    var p1 := Do(NEW_PAGE, steps[0]).0;
    var p2 := Do(p1, steps[1]).0;
    var p3 := Do(p2, steps[2]).0;
    ps := [NEW_PAGE, p1, p2, p3, Do(p3, steps[3]).0];
    EmptyMax(0);
  }
}
