/**
  The resumable, single-stream downloader: a retry loop that appends to a
  temporary file against a server that may drop, stall, restart or refuse.
 */
module Download {
  import opened Text

  /** How a response body stops. `WriteFailed` is a fault of the local disk. */
  datatype BodyEnd = CleanEof | Stall | ReadError(retryable: bool) | WriteFailed

  /** What one GET brings: `chunks` are the body bytes that reach the file. */
  datatype Response = SendFailed(retryable: bool) | Http(status: nat, chunks: seq<seq<Byte>>, end: BodyEnd)

  datatype Outcome = Done | Retry | RangeNotSatisfiable | Fatal

  /** The world: the server's answer to attempt `k` from offset `n` (0 means no Range header), and the
      clock, by reading. */
  datatype Env = Env(
    server: (nat, nat) -> Response, clock: nat -> nat,
    total: nat, maxAttempts: nat, totalTimeout: nat, initialBackoff: nat, maxBackoff: nat)

  datatype Result = Ok | Exhausted | DeadlineExceeded | RefusedTwice | FatalError

  /** `left` is the file when the attempt has ended. */
  datatype Attempt = Attempt(offset: nat, checkedAt: nat, left: File)

  datatype Pause = Pause(from: nat, length: nat)

  /** What a run of the retry loop did and left behind. */
  datatype Trace = Trace(
    result: Result, tmp: Option<seq<Byte>>, attempts: seq<Attempt>, pauses: seq<Pause>, wipes: nat)

  type File = Option<seq<Byte>>

  function Contents(f: File): seq<Byte> {
    if f.Some? then f.value else []
  }

  function Len(f: File): nat {
    |Contents(f)|
  }

  function Min(a: nat, b: nat): nat {
    if a < b then a else b
  }

  // ----- One attempt -----------------------------------------------------------------

  predicate IsSuccess(status: nat) {
    200 <= status < 300
  }

  predicate IsTransient(status: nat) {
    500 <= status < 600 || status == 408 || status == 429
  }

  function Streamed(tmp: File, already: nat, r: Response): (Outcome, File) {
    match r
    case SendFailed(retryable) => (if retryable then Retry else Fatal, tmp)
    case Http(status, chunks, end) =>
      if status == 416 then (RangeNotSatisfiable, tmp)
      else if !IsSuccess(status) then (if IsTransient(status) then Retry else Fatal, tmp)
      else
        var kept := if already > 0 && status != 206 then [] else Contents(tmp);
        (EndOutcome(end), Some(kept + Flatten(chunks)))
  }

  function EndOutcome(end: BodyEnd): Outcome {
    match end
    case CleanEof => Done
    case Stall => Retry
    case ReadError(retryable) => if retryable then Retry else Fatal
    case WriteFailed => Fatal
  }

  lemma {:induction false} FlattenAppend(parts: seq<seq<Byte>>, last: seq<Byte>)
    ensures Flatten(parts + [last]) == Flatten(parts) + last
  {
    if parts == [] {
      assert parts + [last] == [last] && [last][1..] == [];
      assert Flatten([last]) == last + Flatten([]);
    } else {
      assert (parts + [last])[1..] == parts[1..] + [last];
      FlattenAppend(parts[1..], last);
    }
  }

  /** `stream_attempt`. */
  method StreamAttempt(tmp: File, already: nat, r: Response) returns (o: Outcome, tmp': File)
    ensures (o, tmp') == Streamed(tmp, already, r)
  {
    tmp' := tmp;
    if r.SendFailed? {
      return if r.retryable then Retry else Fatal, tmp';
    }
    if r.status == 416 {
      return RangeNotSatisfiable, tmp';
    }
    if !IsSuccess(r.status) {
      return if IsTransient(r.status) then Retry else Fatal, tmp';
    }
    if already > 0 && r.status != 206 {
      tmp' := Some([]);
    }
    tmp' := Some(Contents(tmp'));
    ghost var kept := tmp'.value;
    var i := 0;
    while i < |r.chunks|
      invariant 0 <= i <= |r.chunks|
      invariant tmp'.Some? && tmp'.value == kept + Flatten(r.chunks[..i])
    {
      FlattenAppend(r.chunks[..i], r.chunks[i]);
      assert r.chunks[..i + 1] == r.chunks[..i] + [r.chunks[i]];
      assert kept + (Flatten(r.chunks[..i]) + r.chunks[i]) == kept + Flatten(r.chunks[..i]) + r.chunks[i];
      tmp' := Some(tmp'.value + r.chunks[i]);
      i := i + 1;
    }
    assert r.chunks[..i] == r.chunks;
    o := EndOutcome(r.end);
  }

  // ----- The retry loop ----------------------------------------------------------------

  /** The loop from attempt `k` on, at clock reading `t`. The offset asked for is the length read at the top
      of the attempt, even when an oversized file is then truncated. */
  function Drive(e: Env, deadline: nat, tmp: File, k: nat, t: nat, backoff: nat, wiped: bool): Trace
    decreases e.maxAttempts + 1 - k
  {
    var already := Len(tmp);
    if k > e.maxAttempts then Trace(Exhausted, tmp, [], [], 0)
    else if already == e.total then Trace(Ok, tmp, [], [], 0)
    else
      var tmp1 := if already > e.total then Some([]) else tmp;
      var now := e.clock(t);
      if now >= deadline then Trace(DeadlineExceeded, tmp1, [], [], 0)
      else
        var (o, tmp2) := Streamed(tmp1, already, e.server(k, already));
        var a := Attempt(already, now, tmp2);
        match o
        case Fatal => Trace(FatalError, tmp2, [a], [], 0)
        case RangeNotSatisfiable =>
          if wiped then Trace(RefusedTwice, tmp2, [a], [], 0)
          else
            var r := Drive(e, deadline, Some([]), k + 1, t + 1, backoff, true);
            r.(attempts := [a] + r.attempts, wipes := r.wipes + 1)
        case _ =>
          if o.Done? && Len(tmp2) == e.total then Trace(Ok, tmp2, [a], [], 0)
          else if k == e.maxAttempts then Trace(Exhausted, tmp2, [a], [], 0)
          else
            var later := e.clock(t + 1);
            if later >= deadline then Trace(DeadlineExceeded, tmp2, [a], [], 0)
            else
              var r := Drive(e, deadline, tmp2, k + 1, t + 2, Min(backoff * 2, e.maxBackoff), wiped);
              r.(attempts := [a] + r.attempts, pauses := [Pause(later, Min(backoff, deadline - later))] + r.pauses)
  }

  /** `single_stream_to_tmp`. */
  function Stream(e: Env, tmp: File): Trace {
    var start := if Len(tmp) > e.total then Some([]) else tmp;
    Drive(e, e.clock(0) + e.totalTimeout, start, 1, 1, e.initialBackoff, false)
  }

  ghost predicate Continues(whole: Trace, attempts: seq<Attempt>, pauses: seq<Pause>, wipes: nat, rest: Trace) {
    whole == rest.(attempts := attempts + rest.attempts, pauses := pauses + rest.pauses, wipes := wipes + rest.wipes)
  }

  lemma ContinuesWith(whole: Trace, attempts: seq<Attempt>, pauses: seq<Pause>, wipes: nat,
                      a: Attempt, ps: seq<Pause>, w: nat, r: Trace)
    requires Continues(whole, attempts, pauses, wipes,
                       r.(attempts := [a] + r.attempts, pauses := ps + r.pauses, wipes := r.wipes + w))
    ensures Continues(whole, attempts + [a], pauses + ps, wipes + w, r)
  {
    assert attempts + ([a] + r.attempts) == (attempts + [a]) + r.attempts;
    assert pauses + (ps + r.pauses) == (pauses + ps) + r.pauses;
  }

  lemma ContinuesStop(whole: Trace, attempts: seq<Attempt>, pauses: seq<Pause>, wipes: nat, r: Trace)
    requires Continues(whole, attempts, pauses, wipes, r) && r.pauses == [] && r.wipes == 0
    ensures whole == Trace(r.result, r.tmp, attempts + r.attempts, pauses, wipes)
  {
    assert pauses + [] == pauses;
  }

  lemma ContinuesStart(whole: Trace)
    ensures Continues(whole, [], [], 0, whole)
  {
    assert [] + whole.attempts == whole.attempts && [] + whole.pauses == whole.pauses;
  }

  lemma NothingAfter(attempts: seq<Attempt>, pauses: seq<Pause>)
    ensures attempts + [] == attempts && [] + pauses == pauses
  {
  }

  method SingleStreamToTmp(e: Env, tmp: File)
    returns (result: Result, tmp': File, attempts: seq<Attempt>, pauses: seq<Pause>, wipes: nat)
    ensures Trace(result, tmp', attempts, pauses, wipes) == Stream(e, tmp)
  {
    hide Streamed, Continues, Min;
    tmp' := tmp;
    if Len(tmp') > e.total {
      tmp' := Some([]);
    }
    attempts, pauses, wipes := [], [], 0;
    var deadline := e.clock(0) + e.totalTimeout;
    var backoff, wiped, k, t := e.initialBackoff, false, 1, 1;
    ghost var whole := Stream(e, tmp);
    ContinuesStart(whole);
    hide Stream;
    while k <= e.maxAttempts
      invariant 1 <= k <= e.maxAttempts + 1
      invariant Continues(whole, attempts, pauses, wipes, Drive(e, deadline, tmp', k, t, backoff, wiped))
    {
      ghost var here := Drive(e, deadline, tmp', k, t, backoff, wiped);
      if here.pauses == [] && here.wipes == 0 {
        ContinuesStop(whole, attempts, pauses, wipes, here);
      }
      NothingAfter(attempts, pauses);
      var already := Len(tmp');
      if already == e.total {
        return Ok, tmp', attempts, pauses, wipes;
      }
      if already > e.total {
        tmp' := Some([]);
      }
      var now := e.clock(t);
      if now >= deadline {
        return DeadlineExceeded, tmp', attempts, pauses, wipes;
      }
      var o;
      o, tmp' := StreamAttempt(tmp', already, e.server(k, already));
      var a := Attempt(already, now, tmp');
      match o {
        case Done =>
          if Len(tmp') == e.total {
            return Ok, tmp', attempts + [a], pauses, wipes;
          }
        case Retry =>
        case RangeNotSatisfiable =>
          if wiped {
            return RefusedTwice, tmp', attempts + [a], pauses, wipes;
          }
          ghost var r := Drive(e, deadline, Some([]), k + 1, t + 1, backoff, true);
          NothingAfter(attempts, r.pauses);
          ContinuesWith(whole, attempts, pauses, wipes, a, [], 1, r);
          NothingAfter([], pauses);
          assert pauses + [] == pauses;
          wiped, tmp', wipes, attempts, k, t := true, Some([]), wipes + 1, attempts + [a], k + 1, t + 1;
          continue;
        case Fatal =>
          return FatalError, tmp', attempts + [a], pauses, wipes;
      }
      if k == e.maxAttempts {
        return Exhausted, tmp', attempts + [a], pauses, wipes;
      }
      var later := e.clock(t + 1);
      if later >= deadline {
        return DeadlineExceeded, tmp', attempts + [a], pauses, wipes;
      }
      var p := Pause(later, Min(backoff, deadline - later));
      ContinuesWith(whole, attempts, pauses, wipes, a, [p], 0,
                    Drive(e, deadline, tmp', k + 1, t + 2, Min(backoff * 2, e.maxBackoff), wiped));
      attempts, pauses, backoff, k, t := attempts + [a], pauses + [p], Min(backoff * 2, e.maxBackoff), k + 1, t + 2;
    }
    ContinuesStop(whole, attempts, pauses, wipes, Drive(e, deadline, tmp', k, t, backoff, wiped));
    NothingAfter(attempts, pauses);
    result := Exhausted;
  }

  /** `finalize`: rename if the size is right; `None` is an error. */
  function Finalize(tmp: File, total: nat): Option<seq<Byte>> {
    if tmp.None? || Len(tmp) != total then None else tmp
  }

  // ----- Effort is bounded, whatever the server says ---------------------------------------

  /** Whatever the server and the clock do: at most `maxAttempts` attempts, none begun once the deadline
      check fails, at most one wipe for a 416, and no pause that runs past the deadline. */
  lemma {:induction false} EffortIsBounded(e: Env, deadline: nat, tmp: File, k: nat, t: nat, backoff: nat, wiped: bool)
    requires 1 <= k <= e.maxAttempts + 1
    ensures
      var r := Drive(e, deadline, tmp, k, t, backoff, wiped);
      && |r.attempts| <= e.maxAttempts + 1 - k
      && (forall a :: a in r.attempts ==> a.checkedAt < deadline)
      && r.wipes <= (if wiped then 0 else 1)
      && (forall p :: p in r.pauses ==> p.from + p.length <= deadline)
    decreases e.maxAttempts + 1 - k
  {
    hide Streamed;
    var already := Len(tmp);
    if k <= e.maxAttempts && already != e.total && e.clock(t) < deadline {
      var tmp1 := if already > e.total then Some([]) else tmp;
      var (o, tmp2) := Streamed(tmp1, already, e.server(k, already));
      if o.RangeNotSatisfiable? && !wiped {
        EffortIsBounded(e, deadline, Some([]), k + 1, t + 1, backoff, true);
      } else if (o.Done? || o.Retry?) && k < e.maxAttempts {
        EffortIsBounded(e, deadline, tmp2, k + 1, t + 2, Min(backoff * 2, e.maxBackoff), wiped);
      }
    }
  }

  // ----- What the loop does with each answer -------------------------------------------------

  predicate Is416(r: Response) {
    r.Http? && r.status == 416
  }

  /** A success whose body came to its own end. */
  predicate IsComplete(r: Response) {
    r.Http? && IsSuccess(r.status) && r.end.CleanEof?
  }

  /** The answers that end the download at once: an error that is not worth a retry, on sending or on reading;
      a local write failure; a status that is no success, not 416 and not transient. */
  predicate IsFatal(r: Response) {
    match r
    case SendFailed(retryable) => !retryable
    case Http(status, _, end) =>
      if 200 <= status < 300 then end.WriteFailed? || (end.ReadError? && !end.retryable)
      else !(500 <= status < 600) && status != 408 && status != 416 && status != 429
  }

  /** What an answer leaves of a file: a success adds its body, to the file if it was asked for from there and
      said so, else to nothing; every other answer leaves the file. */
  function Left(before: File, offset: nat, r: Response): File {
    if r.Http? && 200 <= r.status < 300
    then Some((if offset == 0 || r.status == 206 then Contents(before) else []) + Flatten(r.chunks))
    else before
  }

  lemma StreamedMeans(tmp: File, already: nat, r: Response)
    ensures
      var (o, left) := Streamed(tmp, already, r);
      && (o.Fatal? <==> IsFatal(r)) && (o.RangeNotSatisfiable? <==> Is416(r)) && (o.Done? <==> IsComplete(r))
      && left == Left(tmp, already, r)
  {
  }

  function AnswerTo(e: Env, k: nat, attempts: seq<Attempt>, i: nat): Response
    requires i < |attempts|
  {
    e.server(k + i, attempts[i].offset)
  }

  /** The file at the top of attempt `i`, or after all of them: what the one before left, or nothing after a
      416. */
  function FileBefore(e: Env, tmp: File, k: nat, attempts: seq<Attempt>, i: nat): File
    requires i <= |attempts|
  {
    if i == 0 then tmp
    else if Is416(AnswerTo(e, k, attempts, i - 1)) then Some([])
    else attempts[i - 1].left
  }

  /** Each attempt asks for what is missing behind the file as it then is, and leaves what the answer makes of
      it. A file that has outgrown the resource counts as empty, though the offset is still its length. */
  predicate AsksFromFile(e: Env, tmp: File, k: nat, attempts: seq<Attempt>, i: nat)
    requires i < |attempts|
  {
    var before := FileBefore(e, tmp, k, attempts, i);
    var usable := if Len(before) > e.total then Some([]) else before;
    && attempts[i].offset == Len(before)
    && attempts[i].left == Left(usable, Len(before), AnswerTo(e, k, attempts, i))
  }

  /** An answer after which there can be another attempt: neither fatal, nor the whole resource. */
  predicate GoesOn(e: Env, k: nat, attempts: seq<Attempt>, i: nat)
    requires i < |attempts|
  {
    var r := AnswerTo(e, k, attempts, i);
    !IsFatal(r) && !(IsComplete(r) && Len(attempts[i].left) == e.total)
  }

  ghost predicate Refused(e: Env, k: nat, attempts: seq<Attempt>, n: nat)
    requires n <= |attempts|
  {
    exists i :: 0 <= i < n && Is416(AnswerTo(e, k, attempts, i))
  }

  /** How the download ends, from the answers: fatally exactly after a fatal one; refused exactly after a second
      416; exhausted exactly when no attempt is left and the last answer was neither of those nor the rest of the
      resource; otherwise with the file complete, or with the deadline passed. */
  ghost predicate EndsRightly(e: Env, deadline: nat, tmp: File, k: nat, t: nat, wiped: bool, r: Trace)
    requires 1 <= k <= e.maxAttempts + 1
  {
    var n := |r.attempts|;
    var fatal := n > 0 && IsFatal(AnswerTo(e, k, r.attempts, n - 1));
    var twice := n > 0 && Is416(AnswerTo(e, k, r.attempts, n - 1))
                 && (wiped || Refused(e, k, r.attempts, n - 1));
    var whole := n > 0 && !GoesOn(e, k, r.attempts, n - 1) && !fatal;
    && (r.result.FatalError? <==> fatal)
    && (r.result.RefusedTwice? <==> twice)
    && (r.result.Exhausted? <==> n == e.maxAttempts + 1 - k && !fatal && !twice && !whole)
    && (whole ==> r.result.Ok?)
    && (r.result.Ok? ==> Len(FileBefore(e, tmp, k, r.attempts, n)) == e.total)
    && (r.result.DeadlineExceeded? ==> exists j: nat :: t <= j && e.clock(j) >= deadline)
    && (r.wipes == (if !wiped && Refused(e, k, r.attempts, n) then 1 else 0))
  }

  ghost predicate FollowsAnswers(e: Env, deadline: nat, tmp: File, k: nat, t: nat, wiped: bool, r: Trace)
    requires 1 <= k <= e.maxAttempts + 1
  {
    && (forall i :: 0 <= i < |r.attempts| ==> AsksFromFile(e, tmp, k, r.attempts, i))
    && (forall i :: 0 <= i < |r.attempts| - 1 ==> GoesOn(e, k, r.attempts, i))
    && EndsRightly(e, deadline, tmp, k, t, wiped, r)
  }

  /** One attempt put in front of a loop that follows the answers. */
  lemma OneMoreFollows(
    e: Env, deadline: nat, tmp: File, k: nat, t: nat, wiped: bool, a: Attempt, next: File, t': nat, r: Trace, r': Trace)
    requires 1 <= k <= e.maxAttempts && t <= t' && r'.attempts == [a] + r.attempts && r'.result == r.result
    requires
      var answer := e.server(k, a.offset);
      && AsksFromFile(e, tmp, k, [a], 0) && GoesOn(e, k, [a], 0)
      && next == (if Is416(answer) then Some([]) else a.left) && (Is416(answer) ==> !wiped)
      && r'.wipes == r.wipes + (if Is416(answer) then 1 else 0)
      && FollowsAnswers(e, deadline, next, k + 1, t', wiped || Is416(answer), r)
    ensures FollowsAnswers(e, deadline, tmp, k, t, wiped, r')
  {
    hide IsFatal, Is416, IsComplete, Left;
    var all, rest := r'.attempts, r.attempts;
    assert AnswerTo(e, k, all, 0) == e.server(k, a.offset);
    forall i | 0 < i < |all| ensures AnswerTo(e, k, all, i) == AnswerTo(e, k + 1, rest, i - 1) {
    }
    forall i | 0 < i <= |all| ensures FileBefore(e, tmp, k, all, i) == FileBefore(e, next, k + 1, rest, i - 1) {
    }
    forall i | 0 <= i < |all| ensures AsksFromFile(e, tmp, k, all, i) {
      if i > 0 {
        assert AsksFromFile(e, next, k + 1, rest, i - 1);
      }
    }
    forall i | 0 <= i < |all| - 1 ensures GoesOn(e, k, all, i) {
      if i > 0 {
        assert GoesOn(e, k + 1, rest, i - 1);
      }
    }
    RefusedShifts(e, k, all, rest, |rest|);
    if rest != [] {
      RefusedShifts(e, k, all, rest, |rest| - 1);
    }
  }

  lemma RefusedShifts(e: Env, k: nat, all: seq<Attempt>, rest: seq<Attempt>, n: nat)
    requires |all| == |rest| + 1 && all[1..] == rest && n <= |rest|
    ensures Refused(e, k, all, n + 1) <==> Is416(AnswerTo(e, k, all, 0)) || Refused(e, k + 1, rest, n)
  {
    hide Is416;
    forall i | 0 < i < |all| ensures AnswerTo(e, k, all, i) == AnswerTo(e, k + 1, rest, i - 1) {
      assert all[1..][i - 1] == rest[i - 1];
    }
    if Refused(e, k + 1, rest, n) {
      var i :| 0 <= i < n && Is416(AnswerTo(e, k + 1, rest, i));
      assert Is416(AnswerTo(e, k, all, i + 1));
    }
    if Refused(e, k, all, n + 1) {
      var i :| 0 <= i < n + 1 && Is416(AnswerTo(e, k, all, i));
      if i > 0 {
        assert Is416(AnswerTo(e, k + 1, rest, i - 1));
      }
    }
  }

  lemma {:induction false} DriveFollowsAnswers(
    e: Env, deadline: nat, tmp: File, k: nat, t: nat, backoff: nat, wiped: bool)
    requires 1 <= k <= e.maxAttempts + 1
    ensures FollowsAnswers(e, deadline, tmp, k, t, wiped, Drive(e, deadline, tmp, k, t, backoff, wiped))
    decreases e.maxAttempts + 1 - k
  {
    hide Streamed, FollowsAnswers;
    var r' := Drive(e, deadline, tmp, k, t, backoff, wiped);
    var already := Len(tmp);
    if k > e.maxAttempts || already == e.total || e.clock(t) >= deadline {
      NoAttemptFollows(e, deadline, tmp, k, t, wiped, r');
    } else {
      var tmp1 := if already > e.total then Some([]) else tmp;
      var answer := e.server(k, already);
      StreamedMeans(tmp1, already, answer);
      var (o, tmp2) := Streamed(tmp1, already, answer);
      var a := Attempt(already, e.clock(t), tmp2);
      hide IsFatal, Is416, IsComplete, Left;
      if o.RangeNotSatisfiable? && !wiped {
        DriveFollowsAnswers(e, deadline, Some([]), k + 1, t + 1, backoff, true);
        NotBoth(answer);
        OneMoreFollows(e, deadline, tmp, k, t, wiped, a, Some([]), t + 1,
                       Drive(e, deadline, Some([]), k + 1, t + 1, backoff, true), r');
      } else if (o.Retry? || (o.Done? && Len(tmp2) != e.total)) && k < e.maxAttempts && e.clock(t + 1) < deadline {
        var b := Min(backoff * 2, e.maxBackoff);
        DriveFollowsAnswers(e, deadline, tmp2, k + 1, t + 2, b, wiped);
        OneMoreFollows(e, deadline, tmp, k, t, wiped, a, tmp2, t + 2,
                       Drive(e, deadline, tmp2, k + 1, t + 2, b, wiped), r');
      } else {
        LastAttemptFollows(e, deadline, tmp, k, t, wiped, a, r');
      }
    }
  }

  lemma NotBoth(r: Response)
    requires Is416(r)
    ensures !IsFatal(r) && !IsComplete(r)
  {
  }

  lemma NoAttemptFollows(e: Env, deadline: nat, tmp: File, k: nat, t: nat, wiped: bool, r: Trace)
    requires 1 <= k <= e.maxAttempts + 1 && r.attempts == [] && r.wipes == 0
    requires r.result == if k > e.maxAttempts then Exhausted else if Len(tmp) == e.total then Ok else DeadlineExceeded
    requires k > e.maxAttempts || Len(tmp) == e.total || e.clock(t) >= deadline
    ensures FollowsAnswers(e, deadline, tmp, k, t, wiped, r)
  {
  }

  lemma LastAttemptFollows(
    e: Env, deadline: nat, tmp: File, k: nat, t: nat, wiped: bool, a: Attempt, r: Trace)
    requires 1 <= k <= e.maxAttempts && r.attempts == [a] && r.wipes == 0 && AsksFromFile(e, tmp, k, [a], 0)
    requires
      var answer := e.server(k, a.offset);
      r.result == if IsFatal(answer) then FatalError
                  else if Is416(answer) then RefusedTwice
                  else if IsComplete(answer) && Len(a.left) == e.total then Ok
                  else if k == e.maxAttempts then Exhausted else DeadlineExceeded
    requires Is416(e.server(k, a.offset)) ==> wiped
    requires r.result.DeadlineExceeded? ==> e.clock(t + 1) >= deadline
    ensures FollowsAnswers(e, deadline, tmp, k, t, wiped, r)
  {
    var answer := e.server(k, a.offset);
    assert AnswerTo(e, k, r.attempts, 0) == answer;
    if Is416(answer) {
      NotBoth(answer);
      assert Refused(e, k, r.attempts, 1) by { assert Is416(AnswerTo(e, k, r.attempts, 0)); }
    }
    hide IsFatal, Is416, IsComplete, Left;
  }

  /** The loop does what the answers call for, whatever they are: each attempt asks from the end of the file as
      it then is (from 0 after a 416 or a restart), every answer but the last is one to go on after, and the
      result is the one the last answer, the attempts left and the clock call for. */
  lemma StreamFollowsAnswers(e: Env, tmp: File)
    ensures
      var start := if Len(tmp) > e.total then Some([]) else tmp;
      FollowsAnswers(e, e.clock(0) + e.totalTimeout, start, 1, 1, false, Stream(e, tmp))
  {
    hide FollowsAnswers;
    var start := if Len(tmp) > e.total then Some([]) else tmp;
    DriveFollowsAnswers(e, e.clock(0) + e.totalTimeout, start, 1, 1, e.initialBackoff, false);
  }

  function Doubled(n: nat, i: nat): nat {
    if i == 0 then n else 2 * Doubled(n, i - 1)
  }

  lemma {:induction false} DoubledOnce(n: nat, i: nat)
    ensures Doubled(2 * n, i) == Doubled(n, i + 1)
  {
    if i > 0 {
      DoubledOnce(n, i - 1);
    }
  }

  /** `backoff` after `i` pauses: doubled each time and, from the second on, no more than the maximum. */
  function BackoffAfter(initial: nat, max: nat, i: nat): nat {
    if i == 0 then initial else Min(Doubled(initial, i), max)
  }

  lemma {:induction false} CappingFirstIsTheSame(x: nat, max: nat, i: nat)
    ensures Min(Doubled(Min(x, max), i), max) == Min(Doubled(x, i), max)
  {
    if i > 0 {
      CappingFirstIsTheSame(x, max, i - 1);
    }
  }

  lemma BackoffShifts(initial: nat, max: nat, i: nat)
    ensures BackoffAfter(Min(initial * 2, max), max, i) == BackoffAfter(initial, max, i + 1)
  {
    DoubledOnce(initial, i);
    CappingFirstIsTheSame(2 * initial, max, i);
  }

  /** Pause `i` is the initial backoff doubled `i` times, capped from the second pause on by the maximum, and
      always by the time left. */
  lemma {:induction false} PausesDouble(
    e: Env, deadline: nat, tmp: File, k: nat, t: nat, backoff: nat, wiped: bool, i: nat)
    requires 1 <= k <= e.maxAttempts + 1
    requires i < |Drive(e, deadline, tmp, k, t, backoff, wiped).pauses|
    ensures
      var p := Drive(e, deadline, tmp, k, t, backoff, wiped).pauses[i];
      && p.from < deadline && (exists j: nat :: p.from == e.clock(j))
      && p.length == Min(BackoffAfter(backoff, e.maxBackoff, i), deadline - p.from)
    decreases e.maxAttempts + 1 - k
  {
    hide Streamed;
    var already := Len(tmp);
    var tmp1 := if already > e.total then Some([]) else tmp;
    var (o, tmp2) := Streamed(tmp1, already, e.server(k, already));
    if o.RangeNotSatisfiable? {
      PausesDouble(e, deadline, Some([]), k + 1, t + 1, backoff, true, i);
    } else if i > 0 {
      var b := Min(backoff * 2, e.maxBackoff);
      PausesDouble(e, deadline, tmp2, k + 1, t + 2, b, wiped, i - 1);
      BackoffShifts(backoff, e.maxBackoff, i - 1);
    }
  }

  /** How many of the first `n` answers were no 416. */
  function OtherAnswers(e: Env, k: nat, attempts: seq<Attempt>, n: nat): nat
    requires n <= |attempts|
  {
    if n == 0 then 0
    else OtherAnswers(e, k, attempts, n - 1) + (if Is416(AnswerTo(e, k, attempts, n - 1)) then 0 else 1)
  }

  lemma {:induction false} OtherAnswersShift(e: Env, k: nat, a: Attempt, rest: seq<Attempt>, n: nat)
    requires n <= |rest|
    ensures OtherAnswers(e, k, [a] + rest, n + 1)
         == (if Is416(e.server(k, a.offset)) then 0 else 1) + OtherAnswers(e, k + 1, rest, n)
  {
    hide Is416;
    if n == 0 {
      assert OtherAnswers(e, k, [a] + rest, 0) == 0;
    } else {
      OtherAnswersShift(e, k, a, rest, n - 1);
      assert AnswerTo(e, k, [a] + rest, n) == AnswerTo(e, k + 1, rest, n - 1);
    }
  }

  /** The loop pauses after every answer it goes on from, except a 416, and at no other time. */
  lemma {:induction false} PausesBetween(
    e: Env, deadline: nat, tmp: File, k: nat, t: nat, backoff: nat, wiped: bool)
    requires 1 <= k <= e.maxAttempts + 1
    ensures
      var r := Drive(e, deadline, tmp, k, t, backoff, wiped);
      var n := |r.attempts|;
      && (n == 0 ==> r.pauses == [])
      && (n > 0 ==> OtherAnswers(e, k, r.attempts, n - 1) <= |r.pauses| <= OtherAnswers(e, k, r.attempts, n))
    decreases e.maxAttempts + 1 - k
  {
    hide Streamed, Is416, IsFatal, IsComplete, Left, OtherAnswers;
    var already := Len(tmp);
    if k <= e.maxAttempts && already != e.total && e.clock(t) < deadline {
      var tmp1 := if already > e.total then Some([]) else tmp;
      var answer := e.server(k, already);
      StreamedMeans(tmp1, already, answer);
      var (o, tmp2) := Streamed(tmp1, already, answer);
      var a := Attempt(already, e.clock(t), tmp2);
      if o.RangeNotSatisfiable? && !wiped {
        PausesBetween(e, deadline, Some([]), k + 1, t + 1, backoff, true);
        PausesShift(e, k, a, Drive(e, deadline, Some([]), k + 1, t + 1, backoff, true).attempts);
      } else if (o.Retry? || (o.Done? && Len(tmp2) != e.total)) && k < e.maxAttempts && e.clock(t + 1) < deadline {
        var b := Min(backoff * 2, e.maxBackoff);
        PausesBetween(e, deadline, tmp2, k + 1, t + 2, b, wiped);
        PausesShift(e, k, a, Drive(e, deadline, tmp2, k + 1, t + 2, b, wiped).attempts);
      } else {
        PausesShift(e, k, a, []);
        NothingAfter([a], []);
        NoAnswersYet(e, k + 1);
      }
    }
  }

  lemma NoAnswersYet(e: Env, k: nat)
    ensures OtherAnswers(e, k, [], 0) == 0
  {
  }

  lemma PausesShift(e: Env, k: nat, a: Attempt, rest: seq<Attempt>)
    ensures
      var all, first := [a] + rest, if Is416(e.server(k, a.offset)) then 0 else 1;
      && OtherAnswers(e, k, all, |all|) == first + OtherAnswers(e, k + 1, rest, |rest|)
      && OtherAnswers(e, k, all, |all| - 1)
         == if rest == [] then 0 else first + OtherAnswers(e, k + 1, rest, |rest| - 1)
  {
    OtherAnswersShift(e, k, a, rest, |rest|);
    if rest != [] {
      OtherAnswersShift(e, k, a, rest, |rest| - 1);
    }
  }

  // ----- Against a truthful server --------------------------------------------------------

  /** An answer about an unchanging resource (sections 15.3.7, 14.2 and 15.5.17 of RFC 9110): a 206 carries
      bytes from the offset asked for, any other success bytes from the start; a body may stop anywhere.
      Nothing is asked of failures or of a 416. */
  predicate Truthful(resource: seq<Byte>, offset: nat, r: Response) {
    r.Http? && IsSuccess(r.status) ==>
      if r.status == 206 then offset <= |resource| && Flatten(r.chunks) <= resource[offset..]
      else Flatten(r.chunks) <= resource
  }

  ghost predicate TruthfulServer(e: Env, resource: seq<Byte>) {
    e.total == |resource| && forall k: nat, n: nat :: Truthful(resource, n, e.server(k, n))
  }

  lemma AttemptKeepsPrefix(resource: seq<Byte>, tmp: File, r: Response)
    requires Contents(tmp) <= resource && Truthful(resource, Len(tmp), r)
    ensures Contents(Streamed(tmp, Len(tmp), r).1) <= resource
  {
  }

  lemma {:induction false} DriveKeepsPrefix(
    e: Env, resource: seq<Byte>, deadline: nat, tmp: File, k: nat, t: nat, backoff: nat, wiped: bool)
    requires TruthfulServer(e, resource) && Contents(tmp) <= resource
    ensures
      var r := Drive(e, deadline, tmp, k, t, backoff, wiped);
      && Contents(r.tmp) <= resource
      && (r.result.Ok? ==> Contents(r.tmp) == resource)
      && (r.tmp.None? ==> tmp.None?)
      && (forall a :: a in r.attempts ==> a.offset < |resource|)
    decreases e.maxAttempts + 1 - k
  {
    hide Streamed;
    var already := Len(tmp);
    if k <= e.maxAttempts && already != e.total && e.clock(t) < deadline {
      assert Truthful(resource, already, e.server(k, already));
      AttemptKeepsPrefix(resource, tmp, e.server(k, already));
      StreamedKeepsFile(tmp, already, e.server(k, already));
      var (o, tmp2) := Streamed(tmp, already, e.server(k, already));
      if o.RangeNotSatisfiable? && !wiped {
        DriveKeepsPrefix(e, resource, deadline, Some([]), k + 1, t + 1, backoff, true);
      } else if (o.Done? || o.Retry?) && k < e.maxAttempts {
        DriveKeepsPrefix(e, resource, deadline, tmp2, k + 1, t + 2, Min(backoff * 2, e.maxBackoff), wiped);
      }
    }
  }

  lemma StreamedKeepsFile(tmp: File, already: nat, r: Response)
    ensures tmp.Some? ==> Streamed(tmp, already, r).1.Some?
  {
  }

  /** A temporary file the downloader can resume: a prefix of the resource, or too long and thrown away. */
  predicate Resumable(resource: seq<Byte>, tmp: File) {
    Contents(tmp) <= resource || Len(tmp) > |resource|
  }

  /** From a resumable file, and any mix of drops, stalls, failures, restarts and refusals, the file stays a
      prefix of the resource; success means it is the resource; and what gets installed is the resource. */
  lemma DownloadIsExact(e: Env, resource: seq<Byte>, tmp: File)
    requires TruthfulServer(e, resource) && Resumable(resource, tmp)
    ensures
      var r := Stream(e, tmp);
      && Contents(r.tmp) <= resource
      && (r.result.Ok? ==> Contents(r.tmp) == resource)
      && (Finalize(r.tmp, e.total).Some? ==> Finalize(r.tmp, e.total).value == resource)
      && (r.result.Ok? && Finalize(r.tmp, e.total).None? ==> resource == [] && tmp.None?)
  {
    var start := if Len(tmp) > e.total then Some([]) else tmp;
    DriveKeepsPrefix(e, resource, e.clock(0) + e.totalTimeout, start, 1, 1, e.initialBackoff, false);
  }

  /** Resumable files are exactly the starts from which success can be trusted against every truthful server. */
  lemma ResumableIsNeeded(resource: seq<Byte>, tmp: File)
    ensures Resumable(resource, tmp)
       <==> forall e: Env | TruthfulServer(e, resource) && Stream(e, tmp).result.Ok? ::
              Contents(Stream(e, tmp).tmp) == resource
  {
    if Resumable(resource, tmp) {
      forall e: Env | TruthfulServer(e, resource) && Stream(e, tmp).result.Ok?
        ensures Contents(Stream(e, tmp).tmp) == resource
      {
        DownloadIsExact(e, resource, tmp);
      }
    } else {
      var e := WrongStart(resource, tmp);
      assert TruthfulServer(e, resource) && Stream(e, tmp).result.Ok?;
    }
  }

  lemma WrongStart(resource: seq<Byte>, tmp: File) returns (e: Env)
    requires !Resumable(resource, tmp)
    ensures TruthfulServer(e, resource) && Stream(e, tmp).result.Ok? && Contents(Stream(e, tmp).tmp) != resource
  {
    var server := (k: nat, n: nat) =>
      if n <= |resource| then Http(206, [resource[n..]], CleanEof) else SendFailed(true);
    e := Env(server, (t: nat) => 0, |resource|, 1, 1, 0, 0);
    forall k: nat, n: nat ensures Truthful(resource, n, e.server(k, n)) {
      if n <= |resource| {
        OneChunk(resource[n..]);
      }
    }
    var n := Len(tmp);
    OneChunk(resource[n..]);
    if n < |resource| {
      var r := e.server(1, n);
      assert Streamed(tmp, n, r) == (Done, Some(Contents(tmp) + resource[n..]));
      assert (Contents(tmp) + resource[n..])[..n] == Contents(tmp);
    }
  }

  lemma OneChunk(chunk: seq<Byte>)
    ensures Flatten([chunk]) == chunk
  {
    assert [chunk][1..] == [];
    assert chunk + Flatten([]) == chunk;
  }
}
