/**
  The HAR ring and the network arms of the page event pump: a bounded list of
  finalised requests, a map of open ones, and the in-flight index beside them.
 */
module Har {
  import opened Query
  import opened Text
  import opened Timestamp

  const HAR_RING_CAP: nat := 1024

  const HTTP_VERSION := "HTTP/1.1"

  datatype HarRecord = HarRecord(
    requestId: string, verb: string, url: string, httpVersion: string, requestHeaders: seq<NameValue>, bodySize: int,
    startedWallMs: real, startedMonoMs: real, status: int, statusText: string, responseHeaders: seq<NameValue>,
    mime: string, size: int, finishedMonoMs: real)

  datatype HarRequest = HarRequest(
    verb: string, url: string, httpVersion: string, headers: seq<NameValue>, query: seq<NameValue>, bodySize: int)

  datatype HarResponse = HarResponse(
    status: int, statusText: string, httpVersion: string, headers: seq<NameValue>, mime: string, size: int)

  /** `wait` is the only timing that is not zero. */
  datatype HarEntry = HarEntry(
    startedDateTime: string, time: real, request: HarRequest, response: HarResponse, wait: real, requestId: string)

  /** CDP network events; the request id is absent when it is not a JSON string, the response headers
      when they are not a JSON object.
      `TakeExtras` is a snapshot draining the two counters. */
  datatype Event =
    | RequestSent(rid: Option<string>, verb: string, url: string, headers: seq<NameValue>, bodySize: int,
                  wallTime: real, timestamp: real)
    | ResponseReceived(rid: Option<string>, status: int, statusText: string, mime: string,
                       found: Option<seq<NameValue>>, timestamp: real)
    | LoadingFinished(rid: Option<string>, timestamp: real, encodedLength: real)
    | LoadingFailed(rid: Option<string>, timestamp: real, errorText: string)
    | TakeExtras

  datatype Net = Net(
    inFlight: set<string>, completed: nat, failed: nat,
    open: map<string, HarRecord>, closed: seq<HarEntry>)

  const IDLE := Net({}, 0, 0, map[], [])

  // ----- Records --------------------------------------------------------------

  function NewRecord(rid: string, e: Event): HarRecord
    requires e.RequestSent?
  {
    HarRecord(rid, e.verb, e.url, HTTP_VERSION, e.headers, e.bodySize, e.wallTime * 1000.0, e.timestamp * 1000.0,
              0, "", [], "", 0, 0.0)
  }

  function WithResponse(r: HarRecord, e: Event): HarRecord
    requires e.ResponseReceived?
  {
    r.(status := e.status, statusText := e.statusText, mime := e.mime,
       responseHeaders := if e.found.Some? then e.found.value else r.responseHeaders)
  }

  /** The wall time of a response, in seconds, from the request's wall time and the monotonic clock. */
  function ResponseTime(r: HarRecord, e: Event): real
    requires e.ResponseReceived?
  {
    (r.startedWallMs + (e.timestamp * 1000.0 - r.startedMonoMs)) / 1000.0
  }

  predicate Terminal(e: Event) {
    (e.LoadingFinished? || e.LoadingFailed?) && e.rid.Some?
  }

  function WithTerminal(r: HarRecord, e: Event): HarRecord
    requires Terminal(e)
  {
    var r' := r.(finishedMonoMs := e.timestamp * 1000.0);
    if e.LoadingFinished? then r'.(size := RealToI64(e.encodedLength))
    else if r.status == 0 then r'.(statusText := e.errorText)
    else r'
  }

  function ToEntry(r: HarRecord): HarEntry {
    var elapsed := r.finishedMonoMs - r.startedMonoMs;
    var time := if elapsed < 0.0 then 0.0 else elapsed;
    HarEntry(WallMsToRfc3339(r.startedWallMs), time,
             HarRequest(r.verb, r.url, r.httpVersion, r.requestHeaders, QueryPairs(r.url), r.bodySize),
             HarResponse(r.status, r.statusText, r.httpVersion, r.responseHeaders, r.mime, r.size),
             time, r.requestId)
  }

  function Last<T>(s: seq<T>, n: nat): seq<T> {
    if |s| <= n then s else s[|s| - n..]
  }

  /** `push_entry`: drop the oldest entry when the ring is full, then append. */
  function Pushed(closed: seq<HarEntry>, e: HarEntry): seq<HarEntry> {
    (if |closed| >= HAR_RING_CAP then closed[1..] else closed) + [e]
  }

  function Step(n: Net, e: Event): Net {
    match e
    case RequestSent(Some(rid), _, _, _, _, _, _) =>
      n.(inFlight := n.inFlight + {rid}, open := n.open[rid := NewRecord(rid, e)])
    case ResponseReceived(Some(rid), _, _, _, _, _) =>
      if rid in n.open then n.(open := n.open[rid := WithResponse(n.open[rid], e)]) else n
    case LoadingFinished(Some(rid), _, _) =>
      Closed(n.(inFlight := n.inFlight - {rid}, completed := n.completed + 1), rid, e)
    case LoadingFailed(Some(rid), _, _) =>
      Closed(n.(inFlight := n.inFlight - {rid}, failed := n.failed + 1), rid, e)
    case TakeExtras => n.(completed := 0, failed := 0)
    case _ => n
  }

  function Closed(n: Net, rid: string, e: Event): Net
    requires Terminal(e)
  {
    if rid in n.open then
      n.(open := n.open - {rid}, closed := Pushed(n.closed, ToEntry(WithTerminal(n.open[rid], e))))
    else n
  }

  function Run(evs: seq<Event>): Net {
    if evs == [] then IDLE else Step(Run(evs[..|evs| - 1]), evs[|evs| - 1])
  }

  /** `snapshot_since`: keep what parses to an instant at or after the cutoff, and what does not parse. */
  predicate Kept(e: HarEntry, since: real) {
    var w := Rfc3339ToWallMs(e.startedDateTime);
    w.None? || w.value as real >= since
  }

  function Export(closed: seq<HarEntry>, since: real): seq<HarEntry> {
    if closed == [] then []
    else (if Kept(closed[0], since) then [closed[0]] else []) + Export(closed[1..], since)
  }

  // ----- The ring and the pump, in place ---------------------------------------

  class HarRing {
    var open: map<string, HarRecord>
    var closed: seq<HarEntry>

    constructor ()
      ensures open == map[] && closed == []
    {
      open := map[];
      closed := [];
    }

    method RecordRequest(e: Event)
      requires e.RequestSent?
      modifies this
      ensures closed == old(closed)
      ensures open == if e.rid.Some? then old(open)[e.rid.value := NewRecord(e.rid.value, e)] else old(open)
    {
      if e.rid.Some? {
        open := open[e.rid.value := NewRecord(e.rid.value, e)];
      }
    }

    method RecordResponse(e: Event) returns (timestamp: Option<real>)
      requires e.ResponseReceived?
      modifies this
      ensures closed == old(closed)
      ensures timestamp == if e.rid.Some? && e.rid.value in old(open)
                           then Some(ResponseTime(old(open)[e.rid.value], e)) else None
      ensures open == if e.rid.Some? && e.rid.value in old(open)
                      then old(open)[e.rid.value := WithResponse(old(open)[e.rid.value], e)] else old(open)
    {
      timestamp := None;
      if e.rid.Some? && e.rid.value in open {
        timestamp := Some(ResponseTime(open[e.rid.value], e));
        open := open[e.rid.value := WithResponse(open[e.rid.value], e)];
      }
    }

    /** `record_finished` and `record_failed`. */
    method RecordTerminal(e: Event)
      requires e.LoadingFinished? || e.LoadingFailed?
      modifies this
      ensures if e.rid.Some? && e.rid.value in old(open)
              then open == old(open) - {e.rid.value}
                   && closed == Pushed(old(closed), ToEntry(WithTerminal(old(open)[e.rid.value], e)))
              else open == old(open) && closed == old(closed)
    {
      if e.rid.Some? && e.rid.value in open {
        var rec := open[e.rid.value];
        open := open - {e.rid.value};
        PushEntry(WithTerminal(rec, e));
      }
    }

    method PushEntry(rec: HarRecord)
      modifies this`closed
      ensures closed == Pushed(old(closed), ToEntry(rec))
    {
      if |closed| >= HAR_RING_CAP {
        closed := closed[1..];
      }
      closed := closed + [ToEntry(rec)];
    }
  }

  class EventPump {
    var inFlight: set<string>
    var completed: nat
    var failed: nat
    const ring: HarRing

    ghost function State(): Net
      reads this, ring
    {
      Net(inFlight, completed, failed, ring.open, ring.closed)
    }

    constructor ()
      ensures fresh(ring) && State() == IDLE
    {
      inFlight := {};
      completed := 0;
      failed := 0;
      ring := new HarRing();
    }

    /** One turn of the pump loop. */
    method Handle(e: Event)
      modifies this, ring
      ensures State() == Step(old(State()), e)
    {
      match e {
        case RequestSent(rid, _, _, _, _, _, _) =>
          if rid.Some? {
            inFlight := inFlight + {rid.value};
          }
          ring.RecordRequest(e);
        case ResponseReceived(_, _, _, _, _, _) =>
          var _ := ring.RecordResponse(e);
        case LoadingFinished(rid, _, _) =>
          if rid.Some? {
            inFlight := inFlight - {rid.value};
            completed := completed + 1;
          }
          ring.RecordTerminal(e);
        case LoadingFailed(rid, _, _) =>
          if rid.Some? {
            inFlight := inFlight - {rid.value};
            failed := failed + 1;
          }
          ring.RecordTerminal(e);
        case TakeExtras =>
          completed := 0;
          failed := 0;
      }
    }
  }

  // ----- What the events alone say ----------------------------------------------

  /** A request event and the terminal event that closes it, by position. */
  datatype Finalisation = Finalisation(request: nat, terminal: nat)

  /** The request event still open for `rid` after `evs`: the last one with no terminal event behind it. */
  function OpenRequest(evs: seq<Event>, rid: string): (j: Option<nat>)
    ensures j.Some? ==> j.value < |evs| && evs[j.value].RequestSent? && evs[j.value].rid == Some(rid)
  {
    if evs == [] then None
    else
      var e := evs[|evs| - 1];
      if e.RequestSent? && e.rid == Some(rid) then Some(|evs| - 1)
      else if Terminal(e) && e.rid == Some(rid) then None
      else OpenRequest(evs[..|evs| - 1], rid)
  }

  function Finalisations(evs: seq<Event>): (fs: seq<Finalisation>)
    ensures forall f :: f in fs ==> f.request < f.terminal < |evs| && evs[f.request].RequestSent?
                                    && evs[f.request].rid.Some? && Terminal(evs[f.terminal])
                                    && evs[f.terminal].rid == evs[f.request].rid
  {
    if evs == [] then []
    else
      var n := |evs| - 1;
      var before := Finalisations(evs[..n]);
      if Terminal(evs[n]) && OpenRequest(evs[..n], evs[n].rid.value).Some?
      then before + [Finalisation(OpenRequest(evs[..n], evs[n].rid.value).value, n)]
      else before
  }

  /** The last response for `rid` at a position from `lo` up to `hi`, or the last that has headers. */
  function LastResponse(evs: seq<Event>, rid: string, lo: nat, hi: nat, headed: bool): (k: Option<nat>)
    requires lo <= hi <= |evs|
    ensures k.Some? ==> lo <= k.value < hi && evs[k.value].ResponseReceived?
    ensures k.Some? && headed ==> evs[k.value].found.Some?
    decreases hi
  {
    if lo == hi then None
    else if evs[hi - 1].ResponseReceived? && evs[hi - 1].rid == Some(rid) && (headed ==> evs[hi - 1].found.Some?)
    then Some(hi - 1)
    else LastResponse(evs, rid, lo, hi - 1, headed)
  }

  function RecordAt(evs: seq<Event>, j: nat, hi: nat): HarRecord
    requires j < hi <= |evs| && evs[j].RequestSent? && evs[j].rid.Some?
  {
    var rid := evs[j].rid.value;
    var k := LastResponse(evs, rid, j + 1, hi, false);
    var h := LastResponse(evs, rid, j + 1, hi, true);
    var r := NewRecord(rid, evs[j]).(responseHeaders := if h.Some? then evs[h.value].found.value else []);
    if k.Some? then r.(status := evs[k.value].status, statusText := evs[k.value].statusText, mime := evs[k.value].mime)
    else r
  }

  ghost predicate WellFormed(evs: seq<Event>, f: Finalisation) {
    f.request < f.terminal < |evs| && evs[f.request].RequestSent? && evs[f.request].rid.Some?
    && Terminal(evs[f.terminal])
  }

  function EntryOf(evs: seq<Event>, f: Finalisation): HarEntry
    requires WellFormed(evs, f)
  {
    ToEntry(WithTerminal(RecordAt(evs, f.request, f.terminal), evs[f.terminal]))
  }

  function EntriesOf(evs: seq<Event>, fs: seq<Finalisation>): seq<HarEntry>
    requires forall f :: f in fs ==> WellFormed(evs, f)
  {
    seq(|fs|, i requires 0 <= i < |fs| => EntryOf(evs, fs[i]))
  }

  // ----- The ring is exact ----------------------------------------------------------

  lemma {:induction false} LastResponseOfPrefix(
    evs: seq<Event>, n: nat, rid: string, lo: nat, hi: nat, headed: bool)
    requires lo <= hi <= n <= |evs|
    ensures LastResponse(evs[..n], rid, lo, hi, headed) == LastResponse(evs, rid, lo, hi, headed)
    decreases hi
  {
    if lo < hi {
      LastResponseOfPrefix(evs, n, rid, lo, hi - 1, headed);
    }
  }

  lemma EntryOfPrefix(evs: seq<Event>, n: nat, f: Finalisation)
    requires n <= |evs| && WellFormed(evs[..n], f)
    ensures WellFormed(evs, f) && EntryOf(evs[..n], f) == EntryOf(evs, f)
  {
    hide ToEntry;
    RecordOfPrefix(evs, f.request, f.terminal, n);
  }

  lemma PushedIsLast(s: seq<HarEntry>, e: HarEntry)
    ensures Pushed(Last(s, HAR_RING_CAP), e) == Last(s + [e], HAR_RING_CAP)
  {
  }

  /** What the model holds for one request id against what the events say about it. */
  ghost predicate Agrees(n: Net, evs: seq<Event>, rid: string) {
    && (rid in n.open <==> OpenRequest(evs, rid).Some?)
    && (rid in n.open <==> rid in n.inFlight)
    && (rid in n.open ==> n.open[rid] == RecordAt(evs, OpenRequest(evs, rid).value, |evs|))
  }

  lemma OpenRequestAfter(evs: seq<Event>, e: Event, rid: string)
    ensures
      OpenRequest(evs + [e], rid)
      == if e.RequestSent? && e.rid == Some(rid) then Some(|evs|)
         else if Terminal(e) && e.rid == Some(rid) then None
         else OpenRequest(evs, rid)
  {
    assert (evs + [e])[..|evs|] == evs;
  }

  lemma RecordAfter(evs: seq<Event>, e: Event, j: nat)
    requires j < |evs| && evs[j].RequestSent? && evs[j].rid.Some?
    ensures
      RecordAt(evs + [e], j, |evs| + 1)
      == if e.ResponseReceived? && e.rid == evs[j].rid then WithResponse(RecordAt(evs, j, |evs|), e)
         else RecordAt(evs, j, |evs|)
  {
    var all := evs + [e];
    assert all[..|evs|] == evs;
    LastResponseOfPrefix(all, |evs|, evs[j].rid.value, j + 1, |evs|, false);
    LastResponseOfPrefix(all, |evs|, evs[j].rid.value, j + 1, |evs|, true);
  }

  lemma AgreesAfter(n: Net, evs: seq<Event>, e: Event, rid: string)
    requires Agrees(n, evs, rid)
    ensures Agrees(Step(n, e), evs + [e], rid)
  {
    hide ToEntry, WithTerminal, Pushed, RecordAt, OpenRequest;
    OpenRequestAfter(evs, e, rid);
    if OpenRequest(evs, rid).Some? {
      RecordAfter(evs, e, OpenRequest(evs, rid).value);
    }
    if e.RequestSent? && e.rid == Some(rid) {
      NewRecordAfter(evs, e);
    }
  }

  lemma NewRecordAfter(evs: seq<Event>, e: Event)
    requires e.RequestSent? && e.rid.Some?
    ensures RecordAt(evs + [e], |evs|, |evs| + 1) == NewRecord(e.rid.value, e)
  {
  }

  /** The open map is keyed by the in-flight set, and holds one record per unanswered request. */
  lemma {:induction false} OpenIsExact(evs: seq<Event>)
    ensures Run(evs).open.Keys == Run(evs).inFlight
    ensures forall rid :: Agrees(Run(evs), evs, rid)
  {
    hide ToEntry, Agrees, Step;
    if evs == [] {
      assert forall rid :: Agrees(IDLE, [], rid) by {
        forall rid ensures Agrees(IDLE, [], rid) { AgreesAtStart(rid); }
      }
    } else {
      var n := |evs| - 1;
      OpenIsExact(evs[..n]);
      assert evs == evs[..n] + [evs[n]];
      forall rid ensures Agrees(Run(evs), evs, rid) {
        AgreesAfter(Run(evs[..n]), evs[..n], evs[n], rid);
      }
    }
    KeysFromAgrees(Run(evs), evs);
  }

  lemma AgreesAtStart(rid: string)
    ensures Agrees(IDLE, [], rid)
  {
  }

  lemma KeysFromAgrees(n: Net, evs: seq<Event>)
    requires forall rid :: Agrees(n, evs, rid)
    ensures n.open.Keys == n.inFlight
  {
    forall rid ensures rid in n.open <==> rid in n.inFlight {
      assert Agrees(n, evs, rid);
    }
  }

  lemma EntriesOfPrefix(evs: seq<Event>, e: Event, fs: seq<Finalisation>)
    requires forall f :: f in fs ==> WellFormed(evs, f)
    ensures forall f :: f in fs ==> WellFormed(evs + [e], f)
    ensures EntriesOf(evs + [e], fs) == EntriesOf(evs, fs)
  {
    hide EntryOf;
    var all := evs + [e];
    assert all[..|evs|] == evs;
    forall f | f in fs ensures WellFormed(all, f) && EntryOf(evs, f) == EntryOf(all, f) {
      EntryOfPrefix(all, |evs|, f);
    }
  }

  lemma FinalisationsStep(evs: seq<Event>, e: Event)
    ensures
      Finalisations(evs + [e])
      == if Terminal(e) && OpenRequest(evs, e.rid.value).Some?
         then Finalisations(evs) + [Finalisation(OpenRequest(evs, e.rid.value).value, |evs|)]
         else Finalisations(evs)
  {
    assert (evs + [e])[..|evs|] == evs;
  }

  lemma EntriesAppend(evs: seq<Event>, fs: seq<Finalisation>, f: Finalisation)
    requires forall g :: g in fs + [f] ==> WellFormed(evs, g)
    ensures EntriesOf(evs, fs + [f]) == EntriesOf(evs, fs) + [EntryOf(evs, f)]
  {
    hide EntryOf;
    assert f in fs + [f];
  }

  lemma FinalisationsAfter(evs: seq<Event>, e: Event)
    ensures
      var before := EntriesOf(evs, Finalisations(evs));
      EntriesOf(evs + [e], Finalisations(evs + [e]))
      == if Terminal(e) && OpenRequest(evs, e.rid.value).Some?
         then before + [ToEntry(WithTerminal(RecordAt(evs, OpenRequest(evs, e.rid.value).value, |evs|), e))]
         else before
  {
    hide ToEntry, WithTerminal, RecordAt, OpenRequest, Finalisations, EntriesOf;
    FinalisationsStep(evs, e);
    EntriesOfPrefix(evs, e, Finalisations(evs));
    if Terminal(e) && OpenRequest(evs, e.rid.value).Some? {
      var j := OpenRequest(evs, e.rid.value).value;
      var all := evs + [e];
      assert all[..|evs|] == evs && all[|evs|] == e;
      RecordOfPrefix(all, j, |evs|, |evs|);
      EntriesAppend(all, Finalisations(evs), Finalisation(j, |evs|));
    }
  }

  lemma RecordOfPrefix(evs: seq<Event>, j: nat, hi: nat, n: nat)
    requires j < hi <= n <= |evs| && evs[j].RequestSent? && evs[j].rid.Some?
    ensures RecordAt(evs[..n], j, hi) == RecordAt(evs, j, hi)
  {
    LastResponseOfPrefix(evs, n, evs[j].rid.value, j + 1, hi, false);
    LastResponseOfPrefix(evs, n, evs[j].rid.value, j + 1, hi, true);
  }

  lemma ClosedAfter(n: Net, evs: seq<Event>, e: Event)
    requires Terminal(e) ==> Agrees(n, evs, e.rid.value)
    ensures Step(n, e).closed
         == if Terminal(e) && OpenRequest(evs, e.rid.value).Some?
            then Pushed(n.closed, ToEntry(WithTerminal(RecordAt(evs, OpenRequest(evs, e.rid.value).value, |evs|), e)))
            else n.closed
  {
    hide ToEntry, WithTerminal, RecordAt, Pushed, OpenRequest;
  }

  /** After any events, the ring holds the last 1024 finalised records, in finalisation order. */
  lemma {:induction false} ClosedIsExact(evs: seq<Event>)
    ensures Run(evs).closed == Last(EntriesOf(evs, Finalisations(evs)), HAR_RING_CAP)
  {
    hide ToEntry, WithTerminal, RecordAt, Pushed, OpenRequest, Agrees, Step, Last, Finalisations, EntriesOf;
    if evs == [] {
      EmptyRing();
    } else {
      var n := |evs| - 1;
      var e := evs[n];
      ClosedIsExact(evs[..n]);
      OpenIsExact(evs[..n]);
      assert evs == evs[..n] + [e];
      FinalisationsAfter(evs[..n], e);
      ClosedAfter(Run(evs[..n]), evs[..n], e);
      if Terminal(e) && OpenRequest(evs[..n], e.rid.value).Some? {
        PushedIsLast(EntriesOf(evs[..n], Finalisations(evs[..n])),
                     ToEntry(WithTerminal(RecordAt(evs[..n], OpenRequest(evs[..n], e.rid.value).value, n), e)));
      }
    }
  }

  /** What a finalised request is exported as, said of the events alone: the request `q`, the terminal `t`, the
      last response in between and the last one with headers. */
  ghost predicate EntryMatches(e: HarEntry, evs: seq<Event>, f: Finalisation)
    requires WellFormed(evs, f)
  {
    var q, t := evs[f.request], evs[f.terminal];
    var k := LastResponse(evs, q.rid.value, f.request + 1, f.terminal, false);
    var h := LastResponse(evs, q.rid.value, f.request + 1, f.terminal, true);
    var status := if k.Some? then evs[k.value].status else 0;
    var elapsed := (t.timestamp - q.timestamp) * 1000.0;
    && e.requestId == q.rid.value && e.startedDateTime == WallMsToRfc3339(q.wallTime * 1000.0)
    && e.time == e.wait == (if elapsed > 0.0 then elapsed else 0.0)
    && e.request.verb == q.verb && e.request.url == q.url && e.request.headers == q.headers
    && e.request.bodySize == q.bodySize && e.request.query == QueryPairs(q.url)
    && e.request.httpVersion == e.response.httpVersion == "HTTP/1.1"
    && e.response.status == status
    && e.response.mime == (if k.Some? then evs[k.value].mime else "")
    && e.response.headers == (if h.Some? then evs[h.value].found.value else [])
    && e.response.statusText
       == (if t.LoadingFailed? && status == 0 then t.errorText
           else if k.Some? then evs[k.value].statusText else "")
    && (t.LoadingFailed? ==> e.response.size == 0)
    && (t.LoadingFinished? && 0.0 <= t.encodedLength <= I64_MAX as real ==>
          e.response.size == t.encodedLength.Floor)
  }

  lemma EntryMatchesEvents(evs: seq<Event>, f: Finalisation)
    requires WellFormed(evs, f)
    ensures EntryMatches(EntryOf(evs, f), evs, f)
  {
    hide WallMsToRfc3339, QueryPairs, LastResponse;
    var q, t := evs[f.request], evs[f.terminal];
    assert t.timestamp * 1000.0 - q.timestamp * 1000.0 == (t.timestamp - q.timestamp) * 1000.0;
  }

  /** Entry by entry: the ring holds the last 1024 finalised requests in order, each exported with its own
      request's fields, its own elapsed time and its own outcome. */
  lemma RingMatchesEvents(evs: seq<Event>, i: nat)
    requires i < |Run(evs).closed|
    ensures
      var fs := Last(Finalisations(evs), HAR_RING_CAP);
      && |Run(evs).closed| == |fs| && WellFormed(evs, fs[i])
      && EntryMatches(Run(evs).closed[i], evs, fs[i])
  {
    hide Run, EntryOf, EntryMatches;
    ClosedIsExact(evs);
    var all := Finalisations(evs);
    var fs := Last(all, HAR_RING_CAP);
    var j := |all| - |fs| + i;
    assert fs[i] == all[j] && all[j] in all;
    EntryMatchesEvents(evs, fs[i]);
    assert EntriesOf(evs, all)[j] == EntryOf(evs, all[j]);
  }

  /** The wall time `record_response` returns: the request's, moved on by the monotonic clock. */
  lemma ResponseTimeIsWallTime(evs: seq<Event>, j: nat, e: Event)
    requires j < |evs| && evs[j].RequestSent? && evs[j].rid.Some? && e.ResponseReceived?
    ensures ResponseTime(RecordAt(evs, j, |evs|), e) == evs[j].wallTime + (e.timestamp - evs[j].timestamp)
  {
    hide LastResponse;
  }

  lemma EmptyRing()
    ensures Run([]).closed == Last(EntriesOf([], Finalisations([])), HAR_RING_CAP)
  {
  }

  lemma {:induction false} OpenRequestIsUnanswered(evs: seq<Event>, rid: string, t: nat)
    requires OpenRequest(evs, rid).Some? && OpenRequest(evs, rid).value < t < |evs|
    ensures !(Terminal(evs[t]) && evs[t].rid == Some(rid))
  {
    if t < |evs| - 1 {
      OpenRequestIsUnanswered(evs[..|evs| - 1], rid, t);
    }
  }

  /** No request event is finalised twice, and finalisations follow their terminal events. */
  lemma {:induction false} RequestFinalisedOnce(evs: seq<Event>, a: nat, b: nat)
    requires a < b < |Finalisations(evs)|
    ensures Finalisations(evs)[a].request != Finalisations(evs)[b].request
    ensures Finalisations(evs)[a].terminal < Finalisations(evs)[b].terminal
  {
    var n := |evs| - 1;
    assert evs == evs[..n] + [evs[n]];
    FinalisationsStep(evs[..n], evs[n]);
    var before := Finalisations(evs[..n]);
    if b < |before| {
      RequestFinalisedOnce(evs[..n], a, b);
    } else {
      assert before[a] in before;
      if before[a].request == Finalisations(evs)[b].request {
        OpenRequestIsUnanswered(evs[..n], evs[n].rid.value, before[a].terminal);
      }
    }
  }

  // ----- The counters lose nothing ------------------------------------------------

  function CompletedSeen(evs: seq<Event>): nat {
    if evs == [] then 0
    else CompletedSeen(evs[..|evs| - 1])
         + (if evs[|evs| - 1].LoadingFinished? && evs[|evs| - 1].rid.Some? then 1 else 0)
  }

  function FailedSeen(evs: seq<Event>): nat {
    if evs == [] then 0
    else FailedSeen(evs[..|evs| - 1])
         + (if evs[|evs| - 1].LoadingFailed? && evs[|evs| - 1].rid.Some? then 1 else 0)
  }

  /** The counter values the snapshots of a run returned, summed. */
  function CompletedReturned(evs: seq<Event>): nat {
    if evs == [] then 0
    else CompletedReturned(evs[..|evs| - 1])
         + (if evs[|evs| - 1].TakeExtras? then Run(evs[..|evs| - 1]).completed else 0)
  }

  function FailedReturned(evs: seq<Event>): nat {
    if evs == [] then 0
    else FailedReturned(evs[..|evs| - 1])
         + (if evs[|evs| - 1].TakeExtras? then Run(evs[..|evs| - 1]).failed else 0)
  }

  lemma {:induction false} CountersConserve(evs: seq<Event>)
    ensures CompletedReturned(evs) + Run(evs).completed == CompletedSeen(evs)
    ensures FailedReturned(evs) + Run(evs).failed == FailedSeen(evs)
  {
    hide ToEntry;
    if evs != [] {
      CountersConserve(evs[..|evs| - 1]);
    }
  }

  // ----- Export ---------------------------------------------------------------------

  function StartMs(evs: seq<Event>, f: Finalisation): real
    requires WellFormed(evs, f)
  {
    evs[f.request].wallTime * 1000.0
  }

  /** Starts the printer can represent: 1970 up to the end of year 9999. */
  predicate InRange(startMs: real) {
    0.0 <= startMs < YEAR_9999_MS as real + 1.0
  }

  predicate IsWhole(x: real) {
    x.Floor as real == x
  }

  /** The retained finalisations whose start is at or after the cutoff, as entries. */
  function StartedSince(evs: seq<Event>, fs: seq<Finalisation>, since: real): seq<HarEntry>
    requires forall f :: f in fs ==> WellFormed(evs, f)
  {
    if fs == [] then []
    else (if StartMs(evs, fs[0]) >= since then [EntryOf(evs, fs[0])] else []) + StartedSince(evs, fs[1..], since)
  }

  lemma KeptByFloor(e: HarEntry, startMs: real, since: real)
    requires InRange(startMs) && e.startedDateTime == WallMsToRfc3339(startMs)
    ensures Kept(e, since) <==> startMs.Floor as real >= since
  {
    hide PrintMs, Rfc3339ToWallMs;
    TimestampRoundTrip(startMs.Floor);
  }

  /** The filter reads its own printed timestamps, and still agrees with the start times
      on every start exactly when the cutoff is a whole millisecond or outside the range. */
  lemma CutoffIsExact(since: real)
    ensures (forall e: HarEntry, w: real | InRange(w) && e.startedDateTime == WallMsToRfc3339(w) ::
               Kept(e, since) <==> w >= since)
       <==> IsWhole(since) || since <= 0.0 || since >= YEAR_9999_MS as real + 1.0
  {
    hide WallMsToRfc3339, Kept;
    if IsWhole(since) || since <= 0.0 || since >= YEAR_9999_MS as real + 1.0 {
      forall e: HarEntry, w: real | InRange(w) && e.startedDateTime == WallMsToRfc3339(w)
        ensures Kept(e, since) <==> w >= since
      {
        KeptByFloor(e, w, since);
      }
    } else {
      var e := HarEntry(WallMsToRfc3339(since), 0.0, HarRequest("", "", "", [], [], 0),
                        HarResponse(0, "", "", [], "", 0), 0.0, "");
      KeptByFloor(e, since, since);
      assert !(Kept(e, since) <==> since >= since);
    }
  }

  /** A request started at half a millisecond is dropped by a cutoff at that very instant. */
  lemma FractionalCutoffDrops(e: HarEntry)
    requires e.startedDateTime == WallMsToRfc3339(0.5)
    ensures InRange(0.5) && !Kept(e, 0.5)
  {
    assert (0.5).Floor == 0;
    KeptByFloor(e, 0.5, 0.5);
  }

  /** An entry whose start does not read back is exported whatever the cutoff. */
  lemma {:induction false} UnreadableIsExported(closed: seq<HarEntry>, e: HarEntry, since: real)
    requires e in closed && Rfc3339ToWallMs(e.startedDateTime).None?
    ensures e in Export(closed, since)
  {
    hide Rfc3339ToWallMs;
    if closed[0] != e {
      UnreadableIsExported(closed[1..], e, since);
    }
  }

  lemma EntryStart(evs: seq<Event>, f: Finalisation)
    requires WellFormed(evs, f)
    ensures EntryOf(evs, f).startedDateTime == WallMsToRfc3339(StartMs(evs, f))
  {
    hide WallMsToRfc3339, LastResponse;
  }

  lemma NoEntries(evs: seq<Event>)
    ensures EntriesOf(evs, []) == []
  {
  }

  lemma EntriesCons(evs: seq<Event>, fs: seq<Finalisation>)
    requires fs != [] && forall f :: f in fs ==> WellFormed(evs, f)
    ensures forall f :: f in fs[1..] ==> WellFormed(evs, f)
    ensures EntriesOf(evs, fs) != [] && EntriesOf(evs, fs)[0] == EntryOf(evs, fs[0])
    ensures EntriesOf(evs, fs)[1..] == EntriesOf(evs, fs[1..])
  {
    hide EntryOf, WellFormed;
  }

  lemma KeptSince(e: HarEntry, startMs: real, since: real)
    requires InRange(startMs) && IsWhole(since) && e.startedDateTime == WallMsToRfc3339(startMs)
    ensures Kept(e, since) <==> startMs >= since
  {
    hide Kept, WallMsToRfc3339;
    KeptByFloor(e, startMs, since);
  }

  lemma {:induction false} ExportOfEntries(evs: seq<Event>, fs: seq<Finalisation>, since: real)
    requires forall f :: f in fs ==> WellFormed(evs, f) && InRange(StartMs(evs, f))
    requires IsWhole(since)
    ensures Export(EntriesOf(evs, fs), since) == StartedSince(evs, fs, since)
  {
    hide Kept, WallMsToRfc3339, EntryOf, StartMs, EntriesOf, InRange, WellFormed, IsWhole;
    if fs == [] {
      NoEntries(evs);
    } else {
      assert fs[0] in fs && forall f :: f in fs[1..] ==> f in fs;
      EntriesCons(evs, fs);
      EntryStart(evs, fs[0]);
      KeptSince(EntryOf(evs, fs[0]), StartMs(evs, fs[0]), since);
      ExportOfEntries(evs, fs[1..], since);
    }
  }

  /** `net.har.export` with a whole-millisecond cutoff, after any events: exactly the
      retained requests that started at or after it. */
  lemma ExportIsExact(evs: seq<Event>, since: real)
    requires forall e :: e in evs && e.RequestSent? ==> InRange(e.wallTime * 1000.0)
    requires IsWhole(since)
    ensures Export(Run(evs).closed, since)
         == StartedSince(evs, Last(Finalisations(evs), HAR_RING_CAP), since)
  {
    hide Run, Export, StartedSince, EntryOf;
    ClosedIsExact(evs);
    var fs := Finalisations(evs);
    assert Last(EntriesOf(evs, fs), HAR_RING_CAP) == EntriesOf(evs, Last(fs, HAR_RING_CAP));
    forall f | f in Last(fs, HAR_RING_CAP) ensures WellFormed(evs, f) && InRange(StartMs(evs, f)) {
      assert f in fs;
      assert evs[f.request] in evs;
    }
    ExportOfEntries(evs, Last(fs, HAR_RING_CAP), since);
  }
}
