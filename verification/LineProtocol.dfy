/**
  The broker socket: newline-delimited JSON with length-prefixed binary frames
  mixed in, from the broker's writer task to the client's reader loop.
 */
module LineProtocol {
  import opened Text
  import opened Codec

  const MAX_LINE_BYTES: nat := 16 * 1024 * 1024
  const MAGIC: Byte := 0x01
  const LF: Byte := 0x0A
  const CR: Byte := 0x0D
  const U32: nat := 0x1_0000_0000

  datatype Event<V, B> = JsonEvent(v: V) | Vision(b: B)

  datatype WireError = Empty | MalformedBinary | BadBincode | BadJson

  datatype Decoded<V, B> = Ok(event: Event<V, B>) | Err(error: WireError)

  // ----- Lengths -----------------------------------------------------------------

  /** `(n as u32).to_le_bytes()`. */
  function LeBytes(n: nat): seq<Byte> {
    var m := n % U32;
    [m % 256, m / 256 % 256, m / 65536 % 256, m / 16777216 % 256]
  }

  function FromLeBytes(b0: Byte, b1: Byte, b2: Byte, b3: Byte): nat {
    b0 + 256 * b1 + 65536 * b2 + 16777216 * b3
  }

  lemma LeRoundTrip(n: nat)
    ensures var b := LeBytes(n); FromLeBytes(b[0], b[1], b[2], b[3]) == n % U32
  {
    var m := n % U32;
    var q1 := m / 256;
    var q2 := q1 / 256;
    var q3 := q2 / 256;
    assert m / 65536 == q2 && m / 16777216 == q3 && q3 < 256;
    assert m == 256 * q1 + m % 256 && q1 == 256 * q2 + q1 % 256 && q2 == 256 * q3 + q2 % 256;
  }

  // ----- Writing ---------------------------------------------------------------------

  /** A binary line without its newline. */
  function VisionContent(payload: seq<Byte>): seq<Byte> {
    [MAGIC] + LeBytes(|payload|) + payload
  }

  function Content<V, B>(json: Json<V>, bin: Bincode<B>, e: Event<V, B>): seq<Byte> {
    match e
    case JsonEvent(v) => json.text(v)
    case Vision(b) => VisionContent(bin.encode(b))
  }

  /** `encode_vision_frame_into`: append, then patch the length over its placeholder. */
  method EncodeVisionFrameInto(scratch: seq<Byte>, payload: seq<Byte>) returns (scratch': seq<Byte>)
    ensures scratch' == scratch + VisionContent(payload) + [LF]
  {
    scratch' := scratch + [MAGIC];
    var lenPos := |scratch'|;
    scratch' := scratch' + [0, 0, 0, 0];
    var payloadStart := |scratch'|;
    scratch' := scratch' + payload;
    var payloadLen := |scratch'| - payloadStart;
    scratch' := scratch'[..lenPos] + LeBytes(payloadLen) + scratch'[lenPos + 4..];
    scratch' := scratch' + [LF];
  }

  /** What becomes of a queued event: its line is written; it cannot be encoded; or the socket fails after
      some bytes of its line. */
  datatype Fate = Sent | EncodeFailed | WriteFailed(written: nat)

  function Line<V, B>(json: Json<V>, bin: Bincode<B>, e: Event<V, B>): seq<Byte> {
    Content(json, bin, e) + [LF]
  }

  /** The events whose lines are written whole. */
  function SentEvents<V, B>(queue: seq<Event<V, B>>, fates: seq<Fate>): seq<Event<V, B>>
    requires |fates| == |queue|
  {
    if queue == [] || fates[0].WriteFailed? then []
    else (if fates[0].Sent? then [queue[0]] else []) + SentEvents(queue[1..], fates[1..])
  }

  /** The part of a line left on the wire by the first failed write. */
  function Torn<V, B>(json: Json<V>, bin: Bincode<B>, queue: seq<Event<V, B>>, fates: seq<Fate>): seq<Byte>
    requires |fates| == |queue|
  {
    if queue == [] then []
    else match fates[0]
         case WriteFailed(n) =>
           var line := Line(json, bin, queue[0]);
           if n < |line| then line[..n] else line
         case _ => Torn(json, bin, queue[1..], fates[1..])
  }

  function Written<V, B>(json: Json<V>, bin: Bincode<B>, queue: seq<Event<V, B>>): seq<Byte> {
    if queue == [] then [] else Line(json, bin, queue[0]) + Written(json, bin, queue[1..])
  }

  /** All that reaches the wire. */
  function Wire<V, B>(json: Json<V>, bin: Bincode<B>, queue: seq<Event<V, B>>, fates: seq<Fate>): seq<Byte>
    requires |fates| == |queue|
  {
    Written(json, bin, SentEvents(queue, fates)) + Torn(json, bin, queue, fates)
  }

  /** The writer task: one encoded line per queued event; an event that cannot be encoded is skipped, a
      failed write ends the task. */
  method WriteQueue<V, B>(json: Json<V>, bin: Bincode<B>, queue: seq<Event<V, B>>, fates: seq<Fate>)
    returns (wire: seq<Byte>)
    requires |fates| == |queue|
    ensures wire == Written(json, bin, SentEvents(queue, fates)) + Torn(json, bin, queue, fates)
  {
    hide VisionContent, LeBytes, Wire, Line, SentEvents, Torn, Written;
    wire := [];
    var i := 0;
    assert queue[i..] == queue && fates[i..] == fates;
    while i < |queue|
      invariant 0 <= i <= |queue|
      invariant Wire(json, bin, queue, fates) == wire + Wire(json, bin, queue[i..], fates[i..])
    {
      WireStep(json, bin, queue[i..], fates[i..]);
      assert queue[i..][1..] == queue[i + 1..] && fates[i..][1..] == fates[i + 1..];
      if !fates[i].EncodeFailed? {
        var scratch;
        match queue[i] {
          case JsonEvent(v) => scratch := json.text(v) + [LF];
          case Vision(b) => scratch := EncodeVisionFrameInto([], bin.encode(b));
        }
        LineIs(json, bin, queue[i], scratch);
        if fates[i].WriteFailed? {
          wire := wire + (if fates[i].written < |scratch| then scratch[..fates[i].written] else scratch);
          WireIs(json, bin, queue, fates);
          return;
        }
        wire := wire + scratch;
      }
      i := i + 1;
    }
    WireStep(json, bin, queue[i..], fates[i..]);
    WireIs(json, bin, queue, fates);
  }

  lemma LineIs<V, B>(json: Json<V>, bin: Bincode<B>, e: Event<V, B>, line: seq<Byte>)
    requires e.JsonEvent? ==> line == json.text(e.v) + [LF]
    requires e.Vision? ==> line == VisionContent(bin.encode(e.b)) + [LF]
    ensures line == Line(json, bin, e)
  {
  }

  lemma WireIs<V, B>(json: Json<V>, bin: Bincode<B>, queue: seq<Event<V, B>>, fates: seq<Fate>)
    requires |fates| == |queue|
    ensures Wire(json, bin, queue, fates)
         == Written(json, bin, SentEvents(queue, fates)) + Torn(json, bin, queue, fates)
  {
  }

  lemma WireStep<V, B>(json: Json<V>, bin: Bincode<B>, queue: seq<Event<V, B>>, fates: seq<Fate>)
    requires |fates| == |queue|
    ensures Wire(json, bin, queue, fates)
         == if queue == [] then []
            else
              var line := Line(json, bin, queue[0]);
              match fates[0]
              case Sent => line + Wire(json, bin, queue[1..], fates[1..])
              case EncodeFailed => Wire(json, bin, queue[1..], fates[1..])
              case WriteFailed(n) => if n < |line| then line[..n] else line
  {
    hide Line;
    if queue != [] && fates[0].EncodeFailed? {
      assert [] + SentEvents(queue[1..], fates[1..]) == SentEvents(queue[1..], fates[1..]);
    } else if queue != [] && fates[0].Sent? {
      var rest := SentEvents(queue[1..], fates[1..]);
      assert ([queue[0]] + rest)[1..] == rest;
      assert Line(json, bin, queue[0]) + Written(json, bin, rest) + Torn(json, bin, queue[1..], fates[1..])
          == Line(json, bin, queue[0]) + (Written(json, bin, rest) + Torn(json, bin, queue[1..], fates[1..]));
    }
  }

  // ----- Reading ---------------------------------------------------------------------

  /** `decode_line`, and the client's own reading of a line after its newline is off. */
  function DecodeLine<V, B>(json: Json<V>, bin: Bincode<B>, line: seq<Byte>): Decoded<V, B> {
    if line == [] then Err(Empty)
    else if line[0] == MAGIC then
      if |line| < 5 || |line| != 5 + FromLeBytes(line[1], line[2], line[3], line[4]) then Err(MalformedBinary)
      else match bin.decode(line[5..])
           case None => Err(BadBincode)
           case Some(b) => Ok(Vision(b))
    else match json.parse(line)
         case None => Err(BadJson)
         case Some(v) => Ok(JsonEvent(v))
  }

  /** The first line of a stream with its newline, if it has one. */
  function LineEnd(s: seq<Byte>): (n: nat)
    ensures n <= |s|
    ensures s != [] ==> n > 0
    ensures forall i :: 0 <= i < n - 1 ==> s[i] != LF
    ensures 0 < n < |s| ==> s[n - 1] == LF
  {
    if s == [] then 0 else if s[0] == LF then 1 else 1 + LineEnd(s[1..])
  }

  function Chop(s: seq<Byte>, b: Byte): seq<Byte> {
    if s != [] && s[|s| - 1] == b then s[..|s| - 1] else s
  }

  /** One turn of the client's reader loop: the event a line brings, if any. */
  function HandleLine<V, B>(json: Json<V>, bin: Bincode<B>, line: seq<Byte>): seq<Event<V, B>> {
    if |line| > MAX_LINE_BYTES then []
    else match DecodeLine(json, bin, Chop(Chop(line, LF), CR))
         case Ok(e) => [e]
         case Err(_) => []
  }

  function Received<V, B>(json: Json<V>, bin: Bincode<B>, s: seq<Byte>): seq<Event<V, B>>
    decreases |s|
  {
    if s == [] then []
    else HandleLine(json, bin, s[..LineEnd(s)]) + Received(json, bin, s[LineEnd(s)..])
  }

  /** The reader loop until end of file. */
  method ReadLoop<V, B>(json: Json<V>, bin: Bincode<B>, s: seq<Byte>) returns (events: seq<Event<V, B>>)
    ensures events == Received(json, bin, s)
  {
    hide HandleLine, Received;
    events := [];
    var pos := 0;
    assert s[pos..] == s;
    while pos < |s|
      invariant 0 <= pos <= |s|
      invariant Received(json, bin, s) == events + Received(json, bin, s[pos..])
    {
      var n := LineEnd(s[pos..]);
      var line := s[pos..pos + n];
      ReceivedStep(json, bin, s, pos);
      assert events + (HandleLine(json, bin, line) + Received(json, bin, s[pos + n..]))
          == (events + HandleLine(json, bin, line)) + Received(json, bin, s[pos + n..]);
      events := events + HandleLine(json, bin, line);
      pos := pos + n;
    }
    assert s[pos..] == [];
    NothingReceived(json, bin);
  }

  lemma NothingReceived<V, B>(json: Json<V>, bin: Bincode<B>)
    ensures Received(json, bin, []) == []
  {
  }

  lemma ReceivedStep<V, B>(json: Json<V>, bin: Bincode<B>, s: seq<Byte>, pos: nat)
    requires pos < |s|
    ensures
      var n := LineEnd(s[pos..]);
      && pos + n <= |s| && n > 0
      && Received(json, bin, s[pos..]) == HandleLine(json, bin, s[pos..pos + n]) + Received(json, bin, s[pos + n..])
  {
    hide HandleLine;
    var n := LineEnd(s[pos..]);
    assert s[pos..][..n] == s[pos..pos + n] && s[pos..][n..] == s[pos + n..];
  }

  // ----- Round trip -----------------------------------------------------------------------

  /** A line the reader can recover: within the cap, no newline inside, no carriage return at its end. */
  predicate Clean(content: seq<Byte>) {
    |content| + 1 <= MAX_LINE_BYTES && LF !in content && (content != [] ==> content[|content| - 1] != CR)
  }

  lemma {:induction false} LineEndAt(content: seq<Byte>, rest: seq<Byte>)
    requires LF !in content
    ensures LineEnd(content + [LF] + rest) == |content| + 1
  {
    if content != [] {
      assert (content + [LF] + rest)[1..] == content[1..] + [LF] + rest;
      LineEndAt(content[1..], rest);
    }
  }

  lemma VisionLayout(payload: seq<Byte>)
    ensures
      var line := VisionContent(payload);
      && |line| == 5 + |payload| && line[0] == MAGIC && line[5..] == payload
      && FromLeBytes(line[1], line[2], line[3], line[4]) == |payload| % U32
  {
    LeRoundTrip(|payload|);
    hide FromLeBytes;
    var b := LeBytes(|payload|);
    hide LeBytes;
    var line := VisionContent(payload);
    assert |b| == 4;
    assert line[1] == b[0] && line[2] == b[1] && line[3] == b[2] && line[4] == b[3];
  }

  lemma DecodeVision<V, B(!new)>(json: Json<V>, bin: Bincode<B>, b: B)
    requires BincodeLawful(bin) && |bin.encode(b)| < U32
    ensures DecodeLine(json, bin, VisionContent(bin.encode(b))) == Ok(Vision(b))
  {
    hide VisionContent, FromLeBytes;
    VisionLayout(bin.encode(b));
    assert bin.decode(bin.encode(b)) == Some(b);
  }

  lemma HandleClean<V(!new), B(!new)>(json: Json<V>, bin: Bincode<B>, e: Event<V, B>)
    requires JsonLawful(json) && BincodeLawful(bin) && Clean(Content(json, bin, e))
    ensures HandleLine(json, bin, Content(json, bin, e) + [LF]) == [e]
  {
    hide VisionContent;
    var c := Content(json, bin, e);
    assert Chop(c + [LF], LF) == c && Chop(c, CR) == c;
    match e {
      case JsonEvent(v) =>
        assert json.parse(json.text(v)) == Some(v) && json.text(v)[0] >= 0x20;
      case Vision(b) =>
        VisionLayout(bin.encode(b));
        DecodeVision(json, bin, b);
    }
  }

  lemma FirstLine<V, B>(json: Json<V>, bin: Bincode<B>, c: seq<Byte>, rest: seq<Byte>)
    requires LF !in c
    ensures Received(json, bin, c + [LF] + rest) == HandleLine(json, bin, c + [LF]) + Received(json, bin, rest)
  {
    hide HandleLine;
    var s := c + [LF] + rest;
    LineEndAt(c, rest);
    assert s[..|c| + 1] == c + [LF] && s[|c| + 1..] == rest;
  }

  lemma {:induction false} ReceivedAfter<V(!new), B(!new)>(
    json: Json<V>, bin: Bincode<B>, queue: seq<Event<V, B>>, rest: seq<Byte>)
    requires JsonLawful(json) && BincodeLawful(bin)
    requires forall i :: 0 <= i < |queue| ==> Clean(Content(json, bin, queue[i]))
    ensures Received(json, bin, Written(json, bin, queue) + rest) == queue + Received(json, bin, rest)
    decreases |queue|
  {
    hide HandleLine, Content, Received;
    if queue == [] {
      assert Written(json, bin, queue) + rest == rest;
    } else {
      var c := Content(json, bin, queue[0]);
      var tail := Written(json, bin, queue[1..]) + rest;
      assert Written(json, bin, queue) + rest == c + [LF] + tail;
      HandleClean(json, bin, queue[0]);
      FirstLine(json, bin, c, tail);
      ReceivedAfter(json, bin, queue[1..], rest);
      assert [queue[0]] + (queue[1..] + Received(json, bin, rest)) == queue + Received(json, bin, rest);
    }
  }

  /** Whatever fails on the writing side, the reader gets the events that were written whole, in order, and
      then at most what the torn last line happens to mean. */
  lemma FaultyStreamIsPrefix<V(!new), B(!new)>(
    json: Json<V>, bin: Bincode<B>, queue: seq<Event<V, B>>, fates: seq<Fate>)
    requires JsonLawful(json) && BincodeLawful(bin) && |fates| == |queue|
    requires forall i :: 0 <= i < |queue| ==> Clean(Content(json, bin, queue[i]))
    ensures Received(json, bin, Written(json, bin, SentEvents(queue, fates)) + Torn(json, bin, queue, fates))
         == SentEvents(queue, fates) + Received(json, bin, Torn(json, bin, queue, fates))
    ensures |Received(json, bin, Torn(json, bin, queue, fates))| <= 1
  {
    hide Received, Clean, Content;
    SentAreQueued(queue, fates);
    var sent := SentEvents(queue, fates);
    forall i | 0 <= i < |sent| ensures Clean(Content(json, bin, sent[i])) {
      assert sent[i] in queue;
    }
    ReceivedAfter(json, bin, sent, Torn(json, bin, queue, fates));
    TornIsOneLine(json, bin, queue, fates);
  }

  lemma {:induction false} SentAreQueued<V, B>(queue: seq<Event<V, B>>, fates: seq<Fate>)
    requires |fates| == |queue|
    ensures forall e :: e in SentEvents(queue, fates) ==> e in queue
  {
    if queue != [] {
      SentAreQueued(queue[1..], fates[1..]);
    }
  }

  lemma {:induction false} TornIsOneLine<V, B>(
    json: Json<V>, bin: Bincode<B>, queue: seq<Event<V, B>>, fates: seq<Fate>)
    requires |fates| == |queue|
    requires forall i :: 0 <= i < |queue| ==> Clean(Content(json, bin, queue[i]))
    ensures |Received(json, bin, Torn(json, bin, queue, fates))| <= 1
  {
    hide HandleLine, Received, Content;
    if queue == [] {
      NothingReceived(json, bin);
    } else if fates[0].WriteFailed? {
      var t := Torn(json, bin, queue, fates);
      assert forall i :: 0 <= i < |t| - 1 ==> t[i] == Content(json, bin, queue[0])[i];
      OneLineAtMost(json, bin, t);
    } else {
      TornIsOneLine(json, bin, queue[1..], fates[1..]);
    }
  }

  lemma OneLineAtMost<V, B>(json: Json<V>, bin: Bincode<B>, t: seq<Byte>)
    requires forall i :: 0 <= i < |t| - 1 ==> t[i] != LF
    ensures |Received(json, bin, t)| <= 1
  {
    if t != [] {
      assert LineEnd(t) == |t|;
      assert t[|t|..] == [];
    }
  }

  /** Any queue of clean events crosses the socket unchanged, in order, none misread. */
  lemma MixedStreamRoundTrip<V(!new), B(!new)>(json: Json<V>, bin: Bincode<B>, queue: seq<Event<V, B>>)
    requires JsonLawful(json) && BincodeLawful(bin)
    requires forall i :: 0 <= i < |queue| ==> Clean(Content(json, bin, queue[i]))
    ensures Received(json, bin, Written(json, bin, queue)) == queue
  {
    ReceivedAfter(json, bin, queue, []);
    assert Written(json, bin, queue) + [] == Written(json, bin, queue);
  }

  /** JSON lines are always clean within the cap: the only hypothesis is on binary frames. */
  lemma JsonIsClean<V(!new), B>(json: Json<V>, bin: Bincode<B>, v: V)
    requires JsonLawful(json)
    ensures Clean(Content(json, bin, JsonEvent(v))) <==> |json.text(v)| + 1 <= MAX_LINE_BYTES
  {
    assert json.parse(json.text(v)) == Some(v);
  }

  /** So a queue of JSON events whose lines fit the cap always crosses unchanged. */
  lemma JsonStreamRoundTrip<V(!new), B(!new)>(json: Json<V>, bin: Bincode<B>, queue: seq<Event<V, B>>)
    requires JsonLawful(json) && BincodeLawful(bin)
    requires forall i :: 0 <= i < |queue| ==> queue[i].JsonEvent? && |json.text(queue[i].v)| + 1 <= MAX_LINE_BYTES
    ensures Received(json, bin, Written(json, bin, queue)) == queue
  {
    hide Received, Clean;
    forall i | 0 <= i < |queue| ensures Clean(Content(json, bin, queue[i])) {
      JsonIsClean(json, bin, queue[i].v);
    }
    MixedStreamRoundTrip(json, bin, queue);
  }

  /** For a binary frame the hypothesis is exact: the first line the reader takes off the wire is the
      frame if and only if the frame is clean. From 4 GiB on the length field wraps, and it takes a decoder
      that rejects truncated input to keep a piece from passing for the whole. */
  lemma CleanIsNeeded<V, B(!new)>(json: Json<V>, bin: Bincode<B>, b: B, rest: seq<Byte>)
    requires BincodeLawful(bin) && (|bin.encode(b)| < U32 || RejectsTruncated(bin))
    ensures
      var content := VisionContent(bin.encode(b));
      var s := content + [LF] + rest;
      HandleLine(json, bin, s[..LineEnd(s)]) == [Vision(b)] <==> Clean(content)
  {
    hide VisionContent, FromLeBytes;
    var p := bin.encode(b);
    var content := VisionContent(p);
    VisionLayout(p);
    var s := content + [LF] + rest;
    if LF in content {
      CutFrameIsLost(json, bin, b, rest);
    } else {
      LineEndAt(content, rest);
      assert s[..|content| + 1] == content + [LF];
      assert Chop(content + [LF], LF) == content;
      if |content| + 1 <= MAX_LINE_BYTES {
        if content[|content| - 1] == CR {
          assert Chop(content, CR) == content[..|content| - 1];
        } else {
          DecodeVision(json, bin, b);
        }
      }
    }
  }

  lemma CutFrameIsLost<V, B(!new)>(json: Json<V>, bin: Bincode<B>, b: B, rest: seq<Byte>)
    requires LF in VisionContent(bin.encode(b)) && (|bin.encode(b)| < U32 || RejectsTruncated(bin))
    ensures
      var s := VisionContent(bin.encode(b)) + [LF] + rest;
      HandleLine(json, bin, s[..LineEnd(s)]) != [Vision(b)]
  {
    hide VisionContent, FromLeBytes;
    VisionLayout(bin.encode(b));
    var content := VisionContent(bin.encode(b));
    var k :| 0 <= k < |content| && content[k] == LF;
    var s := content + [LF] + rest;
    var n := LineEnd(s);
    assert s[k] == LF;
    assert n <= k + 1 && s[n - 1] == LF;
    var line := s[..n];
    assert Chop(line, LF) == s[..n - 1] == content[..n - 1];
    var cut := Chop(content[..n - 1], CR);
    assert cut == content[..|cut|] && |cut| < |content|;
    ShortFrameIsNotWhole(json, bin, b, |cut|);
  }

  lemma ShortFrameIsNotWhole<V, B(!new)>(json: Json<V>, bin: Bincode<B>, b: B, m: nat)
    requires m < |VisionContent(bin.encode(b))| && (|bin.encode(b)| < U32 || RejectsTruncated(bin))
    ensures DecodeLine(json, bin, VisionContent(bin.encode(b))[..m]) != Ok(Vision(b))
  {
    hide VisionContent, FromLeBytes;
    VisionLayout(bin.encode(b));
    var content := VisionContent(bin.encode(b));
    if m >= 5 {
      assert content[..m][5..] == bin.encode(b)[..m - 5];
    }
  }

  // ----- A frame that is not clean -----------------------------------------------------------

  /** A newline cuts the stream in two that are read independently. */
  lemma {:induction false} ReceivedSplits<V, B>(json: Json<V>, bin: Bincode<B>, x: seq<Byte>, y: seq<Byte>)
    ensures Received(json, bin, x + [LF] + y) == Received(json, bin, x + [LF]) + Received(json, bin, y)
    decreases |x|
  {
    hide HandleLine, Received;
    var n := LineEnd(x + [LF]);
    var k := n - 1;
    var a := x[..k];
    assert forall i :: 0 <= i < k ==> a[i] == (x + [LF])[i] != LF;
    if k == |x| {
      assert x == a && x + [LF] + [] == x + [LF];
      FirstLine(json, bin, x, y);
      FirstLine(json, bin, x, []);
      NothingReceived(json, bin);
    } else {
      var x' := x[k + 1..];
      assert x == a + [LF] + x';
      assert x + [LF] + y == a + [LF] + (x' + [LF] + y) && x + [LF] == a + [LF] + (x' + [LF]);
      FirstLine(json, bin, a, x' + [LF] + y);
      FirstLine(json, bin, a, x' + [LF]);
      ReceivedSplits(json, bin, x', y);
    }
  }

  /** Worse than lost: a line that a payload happens to hold is read as an event of its own, between what
      the bytes before and after it are read as. */
  lemma InnerLineIsForged<V(!new), B(!new)>(
    json: Json<V>, bin: Bincode<B>, b: B, before: seq<Byte>, v: V, after: seq<Byte>)
    requires JsonLawful(json) && |json.text(v)| < MAX_LINE_BYTES
    requires bin.encode(b) == before + [LF] + json.text(v) + [LF] + after
    ensures
      var head := [MAGIC] + LeBytes(|bin.encode(b)|) + before;
      Received(json, bin, Written(json, bin, [Vision(b)]))
      == Received(json, bin, head + [LF]) + [JsonEvent(v)] + Received(json, bin, after + [LF])
  {
    var head := [MAGIC] + LeBytes(|bin.encode(b)|) + before;
    var t := json.text(v);
    var tail := t + [LF] + (after + [LF]);
    hide HandleLine, Received, LeBytes, Written;
    OneLineWritten(json, bin, b);
    Regrouped([MAGIC] + LeBytes(|bin.encode(b)|), before, t, after);
    ReceivedSplits(json, bin, head, tail);
    assert LF !in t by {
      assert json.parse(t) == Some(v);
    }
    FirstLine(json, bin, t, after + [LF]);
    JsonLineIsRead(json, bin, v);
  }

  lemma Regrouped(a: seq<Byte>, before: seq<Byte>, t: seq<Byte>, after: seq<Byte>)
    ensures a + (before + [LF] + t + [LF] + after) + [LF] == a + before + [LF] + (t + [LF] + (after + [LF]))
  {
  }

  lemma OneLineWritten<V, B>(json: Json<V>, bin: Bincode<B>, b: B)
    ensures Written(json, bin, [Vision(b)]) == [MAGIC] + LeBytes(|bin.encode(b)|) + bin.encode(b) + [LF]
  {
    var queue: seq<Event<V, B>> := [Vision(b)];
    assert Written(json, bin, queue[1..]) == [];
  }

  lemma JsonLineIsRead<V(!new), B>(json: Json<V>, bin: Bincode<B>, v: V)
    requires JsonLawful(json) && |json.text(v)| < MAX_LINE_BYTES
    ensures HandleLine(json, bin, json.text(v) + [LF]) == [JsonEvent(v)]
  {
    var t := json.text(v);
    assert json.parse(t) == Some(v) && t[0] >= 0x20 && t[|t| - 1] >= 0x20;
    assert Chop(t + [LF], LF) == t && Chop(t, CR) == t;
  }

  /** One queued frame, and the client sees a JSON event nobody queued. */
  lemma ForgedEvent<V(!new)>(json: Json<V>, v: V) returns (bin: Bincode<seq<Byte>>, queue: seq<Event<V, seq<Byte>>>)
    requires JsonLawful(json) && |json.text(v)| < MAX_LINE_BYTES
    ensures BincodeLawful(bin) && |queue| == 1 && JsonEvent(v) !in queue
    ensures JsonEvent(v) in Received(json, bin, Written(json, bin, queue))
  {
    bin := Bincode((b: seq<Byte>) => b, (s: seq<Byte>) => Some(s));
    var b := [LF] + json.text(v) + [LF];
    queue := [Vision(b)];
    assert b == [] + [LF] + json.text(v) + [LF] + [];
    InnerLineIsForged(json, bin, b, [], v, []);
  }
}
