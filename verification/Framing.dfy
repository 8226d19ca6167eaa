/**
  NUL-delimited JSON framing on the DevTools pipe: the encoder and the
  streaming decoder with a cap on frame size.
 */
module Framing {
  import opened Text
  import opened Codec

  const NUL: Byte := 0

  datatype Fault = TooLarge | BadJson

  /** What the decoder has said about a stream: the values in order, then either the bytes of the
      frame still open, or the fault that stopped it. */
  datatype Verdict<V> = Open(values: seq<V>, residue: seq<Byte>) | Stopped(values: seq<V>, fault: Fault)

  function EncodeFrame<V>(json: Json<V>, v: V): seq<Byte> {
    json.text(v) + [NUL]
  }

  predicate NulFree(s: seq<Byte>) {
    forall i :: 0 <= i < |s| ==> s[i] != NUL
  }

  /** Position of the first NUL, or the length if there is none. */
  function FirstNul(s: seq<Byte>): (n: nat)
    ensures n <= |s| && NulFree(s[..n])
    ensures n < |s| ==> s[n] == NUL
  {
    if s == [] || s[0] == NUL then 0
    else
      var n := FirstNul(s[1..]);
      assert s[..n + 1] == [s[0]] + s[1..][..n];
      1 + n
  }

  /** One complete frame: skipped when empty. */
  function Frame<V>(json: Json<V>, max: nat, frame: seq<Byte>): Verdict<V> {
    if frame == [] then Open([], [])
    else if |frame| > max then Stopped([], TooLarge)
    else match json.parse(frame)
         case None => Stopped([], BadJson)
         case Some(v) => Open([v], [])
  }

  function Prefixed<V>(vs: seq<V>, r: Verdict<V>): Verdict<V> {
    match r
    case Open(ws, residue) => Open(vs + ws, residue)
    case Stopped(ws, fault) => Stopped(vs + ws, fault)
  }

  /** The verdict on a whole stream: cut at the NULs, judge the frames in order up to the first bad
      one; the bytes after the last NUL must fit the cap. */
  function Decode<V>(json: Json<V>, max: nat, s: seq<Byte>): (r: Verdict<V>)
    ensures r.Open? ==> NulFree(r.residue) && |r.residue| <= max
  {
    var n := FirstNul(s);
    if n == |s| then
      assert s[..n] == s;
      if |s| > max then Stopped([], TooLarge) else Open([], s)
    else
      var f := Frame(json, max, s[..n]);
      if f.Stopped? then f else Prefixed(f.values, Decode(json, max, s[n + 1..]))
  }

  // ----- The decoder, in place -----------------------------------------------------

  datatype FeedResult = Ok | Err(fault: Fault)

  class Decoder<!V> {
    var buf: seq<Byte>
    const max: nat
    const json: Json<V>

    constructor (json: Json<V>, max: nat)
      ensures this.json == json && this.max == max && buf == []
    {
      this.json := json;
      this.max := max;
      buf := [];
    }

    /** `feed_into`: `out` is appended to. */
    method FeedInto(chunk: seq<Byte>, out: seq<V>) returns (result: FeedResult, out': seq<V>)
      modifies this
      ensures var r := Decode(json, max, old(buf) + chunk);
              && out' == out + r.values
              && (if r.Open? then result == Ok && buf == r.residue else result == Err(r.fault))
    {
      hide Decode, Prefixed, Frame;
      out' := out;
      if |buf| + |chunk| > max && NUL !in chunk && NUL !in buf {
        DecodeTail(json, max, buf + chunk);
        return Err(TooLarge), out';
      }
      buf := buf + chunk;
      var start, i := 0, 0;
      ghost var whole := Decode(json, max, buf);
      PrefixedNone(whole);
      assert buf[start..] == buf && out'[|out|..] == [];
      while i < |buf|
        invariant 0 <= start <= i <= |buf|
        invariant NulFree(buf[start..i])
        invariant |out| <= |out'| && out'[..|out|] == out
        invariant whole == Prefixed(out'[|out|..], Decode(json, max, buf[start..]))
        invariant buf == old(buf) + chunk
      {
        if buf[i] == NUL {
          ghost var before := out'[|out|..];
          DecodeSlice(json, max, buf, start, i);
          var slice := buf[start..i];
          FrameFacts(json, max, slice);
          if i > start {
            if |slice| > max {
              PrefixedStop(before, TooLarge);
              return Err(TooLarge), out';
            }
            var parsed := json.parse(slice);
            if parsed.None? {
              PrefixedStop(before, BadJson);
              return Err(BadJson), out';
            }
            out' := out' + [parsed.value];
          }
          PrefixedTwice(before, Frame(json, max, slice).values, Decode(json, max, buf[i + 1..]));
          assert out'[|out|..] == before + Frame(json, max, slice).values;
          start := i + 1;
        } else {
          assert buf[start..i + 1] == buf[start..i] + [buf[i]];
        }
        i := i + 1;
      }
      assert buf[start..] == buf[start..i];
      DecodeTail(json, max, buf[start..]);
      PrefixedTail(out'[|out|..], json, max, buf[start..]);
      assert out' == out + out'[|out|..];
      if start > 0 {
        buf := buf[start..];
      }
      if |buf| > max {
        return Err(TooLarge), out';
      }
      result := Ok;
    }

    /** The connection's reader loop: feed what each read returns, hand on the frames it completed, and stop
        at end of file (an empty read) or at a bad frame, whose read hands on nothing. */
    method ReadPipe(pieces: seq<seq<Byte>>) returns (result: FeedResult, dispatched: seq<V>)
      requires NulFree(buf) && |buf| <= max
      modifies this
      ensures dispatched == Dispatched(json, max, old(buf), UntilEof(pieces))
      ensures var r := Decode(json, max, old(buf) + Flatten(UntilEof(pieces)));
              if r.Open? then result == Ok && buf == r.residue else result == Err(r.fault)
      ensures NoEof(pieces) ==>
                var r := Decode(json, max, old(buf) + Flatten(pieces));
                && dispatched <= r.values
                && (if r.Open? then result == Ok && buf == r.residue && dispatched == r.values
                    else result == Err(r.fault))
    {
      hide Decode;
      if NoEof(pieces) {
        AllIsRead(json, max, buf, pieces);
      }
      ChunkInvariance(json, max, buf, UntilEof(pieces));
      dispatched := [];
      ghost var whole, all := FeedAll(json, max, buf, UntilEof(pieces)), Dispatched(json, max, buf, UntilEof(pieces));
      ghost var fed: seq<V> := [];
      PrefixedNone(whole);
      var i := 0;
      assert pieces[i..] == pieces;
      while i < |pieces| && pieces[i] != []
        invariant 0 <= i <= |pieces|
        invariant whole == Prefixed(fed, FeedAll(json, max, buf, UntilEof(pieces[i..])))
        invariant all == dispatched + Dispatched(json, max, buf, UntilEof(pieces[i..]))
      {
        ghost var held, rest := buf, UntilEof(pieces[i + 1..]);
        assert pieces[i..][0] == pieces[i] && pieces[i..][1..] == pieces[i + 1..];
        assert UntilEof(pieces[i..]) == [pieces[i]] + rest && UntilEof(pieces[i..])[1..] == rest;
        ghost var r := Decode(json, max, held + pieces[i]);
        var frames: seq<V>;
        result, frames := FeedInto(pieces[i], []);
        if result.Err? {
          return;
        }
        assert frames == r.values;
        PrefixedTwice(fed, r.values, FeedAll(json, max, r.residue, rest));
        fed := fed + r.values;
        dispatched := dispatched + frames;
        i := i + 1;
      }
      assert UntilEof(pieces[i..]) == [];
      result := Ok;
    }

    /** `finish`: an open frame at end of file is an error. Whatever stream without faults has brought the
        decoder here, it was empty or ended in NUL exactly if there is none. */
    method Finish() returns (ok: bool)
      ensures ok <==> buf == []
      ensures forall s :: Decode(json, max, s) == Open(Decode(json, max, s).values, buf) ==>
                (ok <==> s == [] || s[|s| - 1] == NUL)
    {
      ok := buf == [];
      forall s | Decode(json, max, s).Open? && Decode(json, max, s).residue == buf
        ensures ok <==> s == [] || s[|s| - 1] == NUL
      {
        CleanEnd(json, max, s);
      }
    }
  }

  lemma {:induction false} FirstNulAt(s: seq<Byte>, n: nat)
    requires n <= |s| && NulFree(s[..n]) && (n < |s| ==> s[n] == NUL)
    ensures FirstNul(s) == n
  {
    if n > 0 {
      assert s[0] == s[..n][0];
      assert s[1..][..n - 1] == s[..n][1..];
      FirstNulAt(s[1..], n - 1);
    }
  }

  lemma DecodeTail<V>(json: Json<V>, max: nat, s: seq<Byte>)
    requires NUL !in s || NulFree(s)
    ensures Decode(json, max, s) == if |s| > max then Stopped([], TooLarge) else Open([], s)
  {
    assert s[..|s|] == s;
    FirstNulAt(s, |s|);
  }

  lemma DecodeSlice<V>(json: Json<V>, max: nat, s: seq<Byte>, start: nat, i: nat)
    requires start <= i < |s| && s[i] == NUL && NulFree(s[start..i])
    ensures
      var f := Frame(json, max, s[start..i]);
      Decode(json, max, s[start..])
      == if f.Stopped? then f else Prefixed(f.values, Decode(json, max, s[i + 1..]))
  {
    var t := s[start..];
    assert t[..i - start] == s[start..i] && t[i - start + 1..] == s[i + 1..];
    FirstNulAt(t, i - start);
  }

  lemma FrameFacts<V>(json: Json<V>, max: nat, frame: seq<Byte>)
    ensures
      Frame(json, max, frame)
      == if frame == [] then Open([], [])
         else if |frame| > max then Stopped([], TooLarge)
         else if json.parse(frame).None? then Stopped([], BadJson)
         else Open([json.parse(frame).value], [])
  {
  }

  lemma PrefixedNone<V>(r: Verdict<V>)
    ensures Prefixed([], r) == r
  {
  }

  lemma PrefixedStop<V>(vs: seq<V>, fault: Fault)
    ensures Prefixed(vs, Stopped([], fault)) == Stopped(vs, fault)
  {
  }

  lemma PrefixedTail<V>(vs: seq<V>, json: Json<V>, max: nat, s: seq<Byte>)
    requires Decode(json, max, s) == if |s| > max then Stopped([], TooLarge) else Open([], s)
    ensures Prefixed(vs, Decode(json, max, s)) == if |s| > max then Stopped(vs, TooLarge) else Open(vs, s)
  {
  }

  lemma PrefixedTwice<V>(a: seq<V>, b: seq<V>, r: Verdict<V>)
    ensures Prefixed(a, Prefixed(b, r)) == Prefixed(a + b, r)
  {
    assert a + (b + r.values) == (a + b) + r.values;
  }

  // ----- Cutting the stream does not matter ------------------------------------------

  /** Feed the pieces one by one to a decoder holding `held`, stopping at the first fault. */
  function FeedAll<V>(json: Json<V>, max: nat, held: seq<Byte>, chunks: seq<seq<Byte>>): Verdict<V>
    decreases |chunks|
  {
    if chunks == [] then Open([], held)
    else
      var r := Decode(json, max, held + chunks[0]);
      if r.Stopped? then r
      else Prefixed(r.values, FeedAll(json, max, r.residue, chunks[1..]))
  }

  /** What is read before end of file. */
  function UntilEof(pieces: seq<seq<Byte>>): (r: seq<seq<Byte>>)
    ensures r <= pieces && forall i :: 0 <= i < |r| ==> r[i] != []
    ensures |r| < |pieces| ==> pieces[|r|] == []
  {
    if pieces == [] || pieces[0] == [] then [] else [pieces[0]] + UntilEof(pieces[1..])
  }

  predicate NoEof(pieces: seq<seq<Byte>>) {
    forall i :: 0 <= i < |pieces| ==> pieces[i] != []
  }

  lemma AllIsRead<V>(json: Json<V>, max: nat, held: seq<Byte>, pieces: seq<seq<Byte>>)
    requires NoEof(pieces) && NulFree(held) && |held| <= max
    ensures UntilEof(pieces) == pieces
    ensures
      var r := Decode(json, max, held + Flatten(pieces));
      && Dispatched(json, max, held, pieces) <= r.values
      && (r.Open? ==> Dispatched(json, max, held, pieces) == r.values)
  {
    hide Decode, Dispatched;
    DispatchIsExact(json, max, held, pieces);
  }

  /** What the reader loop hands on: the values of every read that is fed without a fault. */
  function Dispatched<V>(json: Json<V>, max: nat, held: seq<Byte>, chunks: seq<seq<Byte>>): seq<V>
    decreases |chunks|
  {
    if chunks == [] then []
    else
      var r := Decode(json, max, held + chunks[0]);
      if r.Stopped? then [] else r.values + Dispatched(json, max, r.residue, chunks[1..])
  }

  /** The read that meets the first bad frame completes no frame before it. */
  predicate BareFault<V>(json: Json<V>, max: nat, held: seq<Byte>, chunks: seq<seq<Byte>>)
    decreases |chunks|
  {
    chunks == []
    || (var r := Decode(json, max, held + chunks[0]);
        if r.Stopped? then r.values == [] else BareFault(json, max, r.residue, chunks[1..]))
  }

  lemma {:induction false} DecodeInTwo<V>(json: Json<V>, max: nat, s: seq<Byte>, t: seq<Byte>)
    ensures
      var r := Decode(json, max, s);
      Decode(json, max, s + t)
      == if r.Stopped? then r else Prefixed(r.values, Decode(json, max, r.residue + t))
    decreases |s|
  {
    hide Frame, Decode;
    var n, u := FirstNul(s), s + t;
    if n < |s| {
      assert u[..n] == s[..n] && u[n + 1..] == s[n + 1..] + t;
      DecodeFirst(json, max, s, n);
      DecodeFirst(json, max, u, n);
      DecodeInTwo(json, max, s[n + 1..], t);
      var f := Frame(json, max, s[..n]);
      var r := Decode(json, max, s[n + 1..]);
      if f.Open? && r.Open? {
        PrefixedTwice(f.values, r.values, Decode(json, max, r.residue + t));
      }
    } else {
      assert s[..n] == s;
      DecodeTail(json, max, s);
      if |s| <= max {
        PrefixedNone(Decode(json, max, u));
      } else {
        DecodeOversize(json, max, s, t);
      }
    }
  }

  /** Peel off the first frame. */
  lemma DecodeFirst<V>(json: Json<V>, max: nat, s: seq<Byte>, n: nat)
    requires n < |s| && s[n] == NUL && NulFree(s[..n])
    ensures
      var f := Frame(json, max, s[..n]);
      Decode(json, max, s) == if f.Stopped? then f else Prefixed(f.values, Decode(json, max, s[n + 1..]))
  {
    hide Frame, Decode;
    assert s[0..] == s && s[0..n] == s[..n];
    DecodeSlice(json, max, s, 0, n);
  }

  /** An open frame over the cap stays a fault whatever follows. */
  lemma DecodeOversize<V>(json: Json<V>, max: nat, s: seq<Byte>, t: seq<Byte>)
    requires NulFree(s) && |s| > max
    ensures Decode(json, max, s + t) == Stopped([], TooLarge)
  {
    hide Decode;
    var u := s + t;
    var m := FirstNul(u);
    assert forall i :: 0 <= i < |s| ==> u[i] == s[i] != NUL;
    assert m >= |s|;
    if m < |u| {
      DecodeFirst(json, max, u, m);
    } else {
      assert u[..m] == u;
      DecodeTail(json, max, u);
    }
  }

  /** Every way to cut a stream gives the verdict of the whole: the same values in the same order, and
      either the same open frame or the same fault. */
  lemma {:induction false} ChunkInvariance<V>(json: Json<V>, max: nat, held: seq<Byte>, chunks: seq<seq<Byte>>)
    requires NulFree(held) && |held| <= max
    ensures FeedAll(json, max, held, chunks) == Decode(json, max, held + Flatten(chunks))
    decreases |chunks|
  {
    hide Decode, Frame;
    if chunks == [] {
      assert held + Flatten(chunks) == held;
      DecodeTail(json, max, held);
    } else {
      var s, t := held + chunks[0], Flatten(chunks[1..]);
      assert held + Flatten(chunks) == s + t;
      DecodeInTwo(json, max, s, t);
      var r := Decode(json, max, s);
      if r.Open? {
        ChunkInvariance(json, max, r.residue, chunks[1..]);
      }
    }
  }

  /** The reader hands on a prefix of what the stream decodes to, and all of it if and only if the read
      with the first bad frame, if there is one, completed no frame before it. */
  lemma {:induction false} DispatchIsExact<V>(json: Json<V>, max: nat, held: seq<Byte>, chunks: seq<seq<Byte>>)
    requires NulFree(held) && |held| <= max
    ensures Dispatched(json, max, held, chunks) <= Decode(json, max, held + Flatten(chunks)).values
    ensures Dispatched(json, max, held, chunks) == Decode(json, max, held + Flatten(chunks)).values
       <==> BareFault(json, max, held, chunks)
    ensures Decode(json, max, held + Flatten(chunks)).Open? ==> BareFault(json, max, held, chunks)
    decreases |chunks|
  {
    hide Decode;
    ChunkInvariance(json, max, held, chunks);
    if chunks != [] {
      var r := Decode(json, max, held + chunks[0]);
      if r.Open? {
        ChunkInvariance(json, max, r.residue, chunks[1..]);
        DispatchIsExact(json, max, r.residue, chunks[1..]);
        var vs, ws := Dispatched(json, max, r.residue, chunks[1..]), FeedAll(json, max, r.residue, chunks[1..]).values;
        assert r.values + vs == r.values + ws ==> vs == ws by {
          assert (r.values + vs)[|r.values|..] == vs && (r.values + ws)[|r.values|..] == ws;
        }
      }
    }
  }

  /** If the fault comes with the read after the first `k`, exactly what those `k` decode to is handed on. */
  lemma {:induction false} DispatchedBefore<V>(
    json: Json<V>, max: nat, held: seq<Byte>, chunks: seq<seq<Byte>>, k: nat)
    requires NulFree(held) && |held| <= max && k < |chunks|
    requires Decode(json, max, held + Flatten(chunks[..k])).Open?
    requires Decode(json, max, held + Flatten(chunks[..k + 1])).Stopped?
    ensures Dispatched(json, max, held, chunks) == Decode(json, max, held + Flatten(chunks[..k])).values
    decreases |chunks|
  {
    hide Decode;
    ChunkInvariance(json, max, held, chunks[..k]);
    ChunkInvariance(json, max, held, chunks[..k + 1]);
    var r := Decode(json, max, held + chunks[0]);
    assert chunks[..k + 1][1..] == chunks[1..][..k] && chunks[..k + 1][0] == chunks[0];
    if k > 0 {
      assert chunks[..k][1..] == chunks[1..][..k - 1] && chunks[..k][0] == chunks[0];
      ChunkInvariance(json, max, r.residue, chunks[1..][..k - 1]);
      ChunkInvariance(json, max, r.residue, chunks[1..][..k]);
      DispatchedBefore(json, max, r.residue, chunks[1..], k - 1);
    } else {
      assert chunks[..k + 1][1..] == [];
    }
  }

  /** So the cut matters to the connection after all: a good frame and a bad one in one read lose the good
      one, in two reads they do not. */
  lemma CutDecidesDelivery<V>(json: Json<V>, max: nat, good: seq<Byte>, bad: seq<Byte>)
    requires NulFree(good) && NulFree(bad) && good != [] && bad != [] && |good| <= max && |bad| <= max
    requires json.parse(good).Some? && json.parse(bad).None?
    ensures Dispatched(json, max, [], [good + [NUL] + (bad + [NUL])]) == []
    ensures Dispatched(json, max, [], [good + [NUL], bad + [NUL]]) == [json.parse(good).value]
  {
    hide Decode;
    var v := json.parse(good).value;
    OneFrame(json, max, good, bad + [NUL]);
    OneFrame(json, max, good, []);
    OneFrame(json, max, bad, []);
    DecodeTail(json, max, []);
    var both := good + [NUL] + (bad + [NUL]);
    assert [] + both == both && good + [NUL] + [] == good + [NUL] && bad + [NUL] + [] == bad + [NUL];
    assert [] + (good + [NUL]) == good + [NUL] && [] + (bad + [NUL]) == bad + [NUL];
    var two := [good + [NUL], bad + [NUL]];
    assert two[1..] == [bad + [NUL]];
  }

  lemma OneFrame<V>(json: Json<V>, max: nat, frame: seq<Byte>, rest: seq<Byte>)
    requires NulFree(frame)
    ensures
      var f := Frame(json, max, frame);
      Decode(json, max, frame + [NUL] + rest)
      == if f.Stopped? then f else Prefixed(f.values, Decode(json, max, rest))
  {
    hide Decode, Frame;
    var s := frame + [NUL] + rest;
    assert s[..|frame|] == frame && s[|frame| + 1..] == rest;
    DecodeFirst(json, max, s, |frame|);
  }

  /** What `finish` tells about the stream: no frame is open at its end if and only if it is empty or ends
      in NUL. */
  lemma {:induction false} CleanEnd<V>(json: Json<V>, max: nat, s: seq<Byte>)
    requires Decode(json, max, s).Open?
    ensures Decode(json, max, s).residue == [] <==> s == [] || s[|s| - 1] == NUL
    decreases |s|
  {
    hide Decode, Frame;
    var n := FirstNul(s);
    if n < |s| {
      DecodeFirst(json, max, s, n);
      var rest := s[n + 1..];
      CleanEnd(json, max, rest);
      assert rest != [] ==> rest[|rest| - 1] == s[|s| - 1];
    } else {
      assert s[..n] == s;
      DecodeTail(json, max, s);
    }
  }

  function EncodeAll<V>(json: Json<V>, vs: seq<V>): seq<Byte> {
    if vs == [] then [] else EncodeFrame(json, vs[0]) + EncodeAll(json, vs[1..])
  }

  /** Whatever is sent within the cap arrives, however the pipe cuts it. */
  lemma {:induction false} FramesRoundTrip<V(!new)>(json: Json<V>, max: nat, vs: seq<V>, chunks: seq<seq<Byte>>)
    requires JsonLawful(json)
    requires forall i :: 0 <= i < |vs| ==> |json.text(vs[i])| <= max
    requires Flatten(chunks) == EncodeAll(json, vs)
    ensures FeedAll(json, max, [], chunks) == Open(vs, [])
  {
    ChunkInvariance(json, max, [], chunks);
    assert [] + Flatten(chunks) == EncodeAll(json, vs);
    EncodedDecodes(json, max, vs);
  }

  lemma {:induction false} EncodedDecodes<V(!new)>(json: Json<V>, max: nat, vs: seq<V>)
    requires JsonLawful(json)
    requires forall i :: 0 <= i < |vs| ==> |json.text(vs[i])| <= max
    ensures Decode(json, max, EncodeAll(json, vs)) == Open(vs, [])
  {
    hide Decode;
    if vs == [] {
      DecodeTail(json, max, []);
    } else {
      var v, rest := vs[0], EncodeAll(json, vs[1..]);
      var s := EncodeAll(json, vs);
      var n := |json.text(v)|;
      assert json.parse(json.text(v)) == Some(v);
      assert s[..n] == json.text(v) && s[n + 1..] == rest && s[n] == NUL;
      EncodedDecodes(json, max, vs[1..]);
      DecodeSlice(json, max, s, 0, n);
      assert s[0..] == s;
      assert vs == [v] + vs[1..];
    }
  }
}
