/**
  Content-Length framing of the MCP stdio layer (the "Base Protocol" header part
  of the Language Server Protocol).
 */
module Lsp {
  import opened Text
  import opened Codec

  const MAX_BODY_BYTES: nat := 16 * 1024 * 1024
  const MAX_HEADER_BYTES: nat := 8 * 1024
  const USIZE_MAX: nat := 0xFFFF_FFFF_FFFF_FFFF
  const CR: Byte := 13
  const LF: Byte := 10
  const CRLF := "\r\n"

  datatype ReadError = HeaderTooLong | NotUtf8 | BadLength | MissingLength | BodyTooLong | BodyCut

  datatype ReadResult = Eof | Body(bytes: seq<Byte>) | Failed(error: ReadError)

  // ----- Header text ---------------------------------------------------------------

  /** Unicode White_Space, what `str::trim` removes. */
  predicate IsWhite(c: char) {
    || '\t' <= c <= '\r' || c == ' ' || c == '\U{0085}' || c == '\U{00A0}' || c == '\U{1680}'
    || '\U{2000}' <= c <= '\U{200A}' || c == '\U{2028}' || c == '\U{2029}' || c == '\U{202F}'
    || c == '\U{205F}' || c == '\U{3000}'
  }

  function TrimStart(s: string): string {
    if s != [] && IsWhite(s[0]) then TrimStart(s[1..]) else s
  }

  function TrimEnd(s: string): string {
    if s != [] && IsWhite(s[|s| - 1]) then TrimEnd(s[..|s| - 1]) else s
  }

  function Trim(s: string): string {
    TrimEnd(TrimStart(s))
  }

  function Lower(c: char): char {
    if 'A' <= c <= 'Z' then (c as int + 32) as char else c
  }

  predicate EqIgnoreCase(a: string, b: string) {
    |a| == |b| && forall i :: 0 <= i < |a| ==> Lower(a[i]) == Lower(b[i])
  }

  /** `text.split("\r\n")`. */
  function SplitLines(text: string, from: nat): seq<string>
    requires from <= |text|
    decreases |text| - from
  {
    if from + 2 > |text| then [text]
    else if text[from..from + 2] == CRLF then [text[..from]] + SplitLines(text[from + 2..], 0)
    else SplitLines(text, from + 1)
  }

  datatype Length = Absent | Known(n: nat) | Malformed

  /** The effect of one header line on the content length found so far. */
  function ScanLine(line: string, found: Length): Length {
    var t := Trim(line);
    var colon := Find(t, ':');
    if t == [] || colon == |t| || !EqIgnoreCase(Trim(t[..colon]), "content-length") then found
    else match ParseUnsigned(Trim(t[colon + 1..]), USIZE_MAX)
         case None => Malformed
         case Some(n) => Known(n)
  }

  /** All lines in order; a malformed length ends the scan, a later length replaces an earlier one. */
  function ScanLines(lines: seq<string>, found: Length): Length {
    if lines == [] || found.Malformed? then found
    else ScanLines(lines[1..], ScanLine(lines[0], found))
  }

  // ----- One frame -------------------------------------------------------------------

  predicate EndsHeader(s: seq<Byte>, n: nat)
    requires n <= |s|
  {
    n >= 4 && s[n - 4..n] == [CR, LF, CR, LF]
  }

  /** The end of the first blank-line terminator at or after `n`. */
  function FindEnd(s: seq<Byte>, n: nat): (end: Option<nat>)
    requires n <= |s|
    ensures end.Some? ==> n <= end.value <= |s| && EndsHeader(s, end.value)
    decreases |s| - n
  {
    if EndsHeader(s, n) then Some(n) else if n == |s| then None else FindEnd(s, n + 1)
  }

  /** What one read returns and what it leaves in the stream. */
  function ReadFrame(utf8: Utf8, s: seq<Byte>): (r: (ReadResult, seq<Byte>))
    ensures r.0.Body? ==> |r.1| + |r.0.bytes| < |s|
  {
    var end := FindEnd(s, 0);
    if end.None? && |s| <= MAX_HEADER_BYTES then (Eof, [])
    else if end.None? || end.value > MAX_HEADER_BYTES + 1 then (Failed(HeaderTooLong), s[MAX_HEADER_BYTES + 1..])
    else AfterHeader(utf8, s[..end.value], s[end.value..])
  }

  function AfterHeader(utf8: Utf8, header: seq<Byte>, s: seq<Byte>): (ReadResult, seq<Byte>) {
    match utf8(header)
    case None => (Failed(NotUtf8), s)
    case Some(text) =>
      match ScanLines(SplitLines(text, 0), Absent)
      case Malformed => (Failed(BadLength), s)
      case Absent => (Failed(MissingLength), s)
      case Known(n) =>
        if n > MAX_BODY_BYTES then (Failed(BodyTooLong), s)
        else if n > |s| then (Failed(BodyCut), [])
        else (Body(s[..n]), s[n..])
  }

  lemma {:induction false} FindEndIsFirst(s: seq<Byte>, m: nat, n: nat)
    requires m <= n <= |s| && EndsHeader(s, n)
    requires forall k :: m <= k < n ==> !EndsHeader(s, k)
    ensures FindEnd(s, m) == Some(n)
    decreases n - m
  {
    if m < n {
      FindEndIsFirst(s, m + 1, n);
    }
  }

  lemma {:induction false} FindEndIsBeyond(s: seq<Byte>, m: nat, n: nat)
    requires m <= n <= |s|
    requires forall k :: m <= k <= n ==> !EndsHeader(s, k)
    ensures FindEnd(s, m).None? || FindEnd(s, m).value > n
    ensures n == |s| ==> FindEnd(s, m).None?
    decreases n - m
  {
    if m < n {
      FindEndIsBeyond(s, m + 1, n);
    }
  }

  /** `read_lsp_frame`: a byte at a time to the blank line, then the headers, then the body. */
  method ReadLspFrame(utf8: Utf8, s: seq<Byte>) returns (r: ReadResult, rest: seq<Byte>)
    ensures (r, rest) == ReadFrame(utf8, s)
  {
    hide ScanLine, SplitLines;
    var n := 0;
    while true
      invariant 0 <= n <= |s| && n <= MAX_HEADER_BYTES
      invariant forall k :: 0 <= k <= n ==> !EndsHeader(s, k)
      decreases |s| - n
    {
      if n == |s| {
        FindEndIsBeyond(s, 0, n);
        return Eof, [];
      }
      n := n + 1;
      if n >= 4 && s[n - 4..n] == [CR, LF, CR, LF] {
        break;
      }
      if n > MAX_HEADER_BYTES {
        FindEndIsBeyond(s, 0, n);
        return Failed(HeaderTooLong), s[n..];
      }
    }
    FindEndIsFirst(s, 0, n);
    var header := s[..n];
    rest := s[n..];
    var text := utf8(header);
    if text.None? {
      return Failed(NotUtf8), rest;
    }
    var lines := SplitLines(text.value, 0);
    var length := Absent;
    var i := 0;
    assert lines[i..] == lines;
    while i < |lines|
      invariant 0 <= i <= |lines| && !length.Malformed?
      invariant ScanLines(lines, Absent) == ScanLines(lines[i..], length)
    {
      assert lines[i..][0] == lines[i] && lines[i..][1..] == lines[i + 1..];
      length := ScanLine(lines[i], length);
      if length.Malformed? {
        return Failed(BadLength), rest;
      }
      i := i + 1;
    }
    if length.Absent? {
      return Failed(MissingLength), rest;
    }
    if length.n > MAX_BODY_BYTES {
      return Failed(BodyTooLong), rest;
    }
    if length.n > |rest| {
      return Failed(BodyCut), [];
    }
    r, rest := Body(rest[..length.n]), rest[length.n..];
  }

  // ----- Round trip ---------------------------------------------------------------------

  function HeaderLine(n: nat): string {
    "Content-Length: " + Decimal(n)
  }

  lemma HeaderIsAscii(n: nat)
    ensures IsAscii(HeaderLine(n)) && IsAscii(HeaderLine(n) + "\r\n\r\n")
    ensures forall i :: 0 <= i < |HeaderLine(n)| ==> HeaderLine(n)[i] != '\r'
  {
    DecimalValue(n);
    assert forall i :: 0 <= i < |Decimal(n)| ==> IsDigit(Decimal(n)[i]);
  }

  /** The frame writer: header, blank line, body. */
  function FrameBytes(body: seq<Byte>): seq<Byte> {
    HeaderIsAscii(|body|);
    Ascii(HeaderLine(|body|) + "\r\n\r\n") + body
  }

  lemma HeaderEndsFirst(n: nat, rest: seq<Byte>)
    ensures IsAscii(HeaderLine(n) + "\r\n\r\n")
    ensures FindEnd(Ascii(HeaderLine(n) + "\r\n\r\n") + rest, 0) == Some(|HeaderLine(n)| + 4)
  {
    HeaderIsAscii(n);
    var line := HeaderLine(n);
    var header := Ascii(line + "\r\n\r\n");
    var s := header + rest;
    var end := |line| + 4;
    assert s[end - 4..end] == [CR, LF, CR, LF];
    forall k | 0 <= k < end ensures !EndsHeader(s, k) {
      if k >= 4 {
        assert s[k - 4] == line[k - 4] as int != CR;
        assert s[k - 4..k][0] == s[k - 4];
      }
    }
    FindEndIsFirst(s, 0, end);
  }

  lemma {:induction false} SplitAtFirst(text: string, from: nat, at: nat)
    requires from <= at && at + 2 <= |text| && text[at..at + 2] == CRLF
    requires forall i :: from <= i < at ==> text[i] != '\r'
    ensures SplitLines(text, from) == [text[..at]] + SplitLines(text[at + 2..], 0)
    decreases at - from
  {
    if from < at {
      assert text[from..from + 2][0] == text[from];
      SplitAtFirst(text, from + 1, at);
    }
  }

  lemma TrimmedAlready(s: string)
    requires s == [] || (!IsWhite(s[0]) && !IsWhite(s[|s| - 1]))
    ensures Trim(s) == s
  {
  }

  lemma HeaderScans(n: nat)
    requires n <= USIZE_MAX
    ensures ScanLine(HeaderLine(n), Absent) == Known(n)
  {
    var d := Decimal(n);
    DecimalValue(n);
    assert IsDigit(d[0]) && IsDigit(d[|d| - 1]);
    HeaderParts(d);
    ParseOfDigits(d, USIZE_MAX);
    hide Trim, Find, EqIgnoreCase, Decimal, ParseUnsigned;
  }

  lemma HeaderParts(d: string)
    requires d != [] && IsDigit(d[0]) && IsDigit(d[|d| - 1])
    ensures
      var line := "Content-Length: " + d;
      && Trim(line) == line && Find(line, ':') == 14
      && EqIgnoreCase(Trim(line[..14]), "content-length") && Trim(line[15..]) == d
  {
    var line := "Content-Length: " + d;
    assert line[|line| - 1] == d[|d| - 1];
    TrimmedAlready(line);
    TrimmedAlready(d);
    assert line[15..] == " " + d && (" " + d)[1..] == d;
    assert Trim(" " + d) == d;
    hide Trim;
    assert line[14] == ':';
    assert Find(line, ':') == 14;
    assert line[..14] == "Content-Length";
    TrimmedAlready("Content-Length");
  }

  lemma HeaderTextScans(n: nat)
    requires n <= USIZE_MAX
    ensures ScanLines(SplitLines(HeaderLine(n) + "\r\n\r\n", 0), Absent) == Known(n)
  {
    hide HeaderLine;
    HeaderIsAscii(n);
    var line := HeaderLine(n);
    var text := line + "\r\n\r\n";
    assert text[|line|..|line| + 2] == CRLF && text[|line| + 2..] == CRLF && text[..|line|] == line;
    SplitAtFirst(text, 0, |line|);
    SplitAtFirst(CRLF, 0, 0);
    assert SplitLines(CRLF, 0) == [CRLF[..0]] + SplitLines(CRLF[2..], 0) == ["", ""];
    HeaderScans(n);
    assert ScanLine("", Known(n)) == Known(n);
    var lines := SplitLines(text, 0);
    assert lines == [line, "", ""];
    assert lines[1..] == ["", ""] && lines[1..][1..] == [""] && [""][1..] == [];
    assert ScanLines([""], Known(n)) == Known(n);
    assert ScanLines(["", ""], Known(n)) == Known(n);
  }

  /** One written frame is read back whatever the body holds and whatever follows it. */
  lemma FrameRoundTrip(utf8: Utf8, body: seq<Byte>, rest: seq<Byte>)
    requires DecodesAscii(utf8) && |body| <= MAX_BODY_BYTES
    ensures ReadFrame(utf8, FrameBytes(body) + rest) == (Body(body), rest)
  {
    hide HeaderLine, ScanLines, SplitLines, FindEnd;
    HeaderIsAscii(|body|);
    var text := HeaderLine(|body|) + "\r\n\r\n";
    var header := Ascii(text);
    var s := FrameBytes(body) + rest;
    assert s == header + (body + rest);
    HeaderEndsFirst(|body|, body + rest);
    HeaderIsShort(|body|);
    assert s[..|header|] == header && s[|header|..] == body + rest;
    HeaderTextScans(|body|);
    assert (body + rest)[..|body|] == body && (body + rest)[|body|..] == rest;
  }

  lemma HeaderIsShort(n: nat)
    requires n <= MAX_BODY_BYTES
    ensures |HeaderLine(n)| + 4 <= MAX_HEADER_BYTES
  {
    assert Pow10(4) == 10000 && Pow10(8) == 10000 * Pow10(4);
    DecimalWidth(n, 8);
  }

  function WriteAll(bodies: seq<seq<Byte>>): seq<Byte> {
    if bodies == [] then [] else FrameBytes(bodies[0]) + WriteAll(bodies[1..])
  }

  /** The server loop: bodies until end of stream; `None` if a frame fails. */
  function ReadAll(utf8: Utf8, s: seq<Byte>): Option<seq<seq<Byte>>>
    decreases |s|
  {
    var (r, rest) := ReadFrame(utf8, s);
    match r
    case Eof => Some([])
    case Failed(_) => None
    case Body(b) =>
      match ReadAll(utf8, rest)
      case None => None
      case Some(bs) => Some([b] + bs)
  }

  /** Every list of bodies within the cap comes back in order and then the stream ends, also when the
      writer stopped inside the next header. */
  lemma {:induction false} StreamRoundTrip(utf8: Utf8, bodies: seq<seq<Byte>>, cut: seq<Byte>)
    requires DecodesAscii(utf8)
    requires forall i :: 0 <= i < |bodies| ==> |bodies[i]| <= MAX_BODY_BYTES
    requires FindEnd(cut, 0).None? && |cut| <= MAX_HEADER_BYTES
    ensures ReadAll(utf8, WriteAll(bodies) + cut) == Some(bodies)
  {
    hide ReadFrame, FrameBytes, FindEnd;
    if bodies == [] {
      assert WriteAll(bodies) + cut == cut;
      CutIsEof(utf8, cut);
    } else {
      var rest := WriteAll(bodies[1..]) + cut;
      assert WriteAll(bodies) + cut == FrameBytes(bodies[0]) + rest;
      FrameRoundTrip(utf8, bodies[0], rest);
      StreamRoundTrip(utf8, bodies[1..], cut);
      assert bodies == [bodies[0]] + bodies[1..];
    }
  }

  lemma CutIsEof(utf8: Utf8, cut: seq<Byte>)
    requires FindEnd(cut, 0).None? && |cut| <= MAX_HEADER_BYTES
    ensures ReadFrame(utf8, cut) == (Eof, [])
  {
  }

  // ----- Any header block ----------------------------------------------------------------

  predicate AllWhite(s: string) {
    forall i :: 0 <= i < |s| ==> IsWhite(s[i])
  }

  predicate Trimmed(s: string) {
    s != [] && !IsWhite(s[0]) && !IsWhite(s[|s| - 1])
  }

  lemma {:induction false} TrimStartPadded(a: string, s: string)
    requires AllWhite(a) && (s == [] || !IsWhite(s[0]))
    ensures TrimStart(a + s) == s
  {
    if a == [] {
      assert a + s == s;
    } else {
      assert (a + s)[1..] == a[1..] + s;
      TrimStartPadded(a[1..], s);
    }
  }

  lemma {:induction false} TrimEndPadded(s: string, b: string)
    requires AllWhite(b) && (s == [] || !IsWhite(s[|s| - 1]))
    ensures TrimEnd(s + b) == s
  {
    if b == [] {
      assert s + b == s;
    } else {
      var t := s + b;
      assert t[..|t| - 1] == s + b[..|b| - 1] && t[|t| - 1] == b[|b| - 1];
      TrimEndPadded(s, b[..|b| - 1]);
    }
  }

  lemma TrimPadded(a: string, s: string, b: string)
    requires AllWhite(a) && AllWhite(b) && Trimmed(s)
    ensures Trim(a + s + b) == s
  {
    assert a + s + b == a + (s + b);
    TrimStartPadded(a, s + b);
    TrimEndPadded(s, b);
  }

  /** A header field with any padding: only the key decides, without regard to case, whether its value counts,
      and only the value whether the length is known or malformed. */
  lemma FieldScans(a: string, key: string, b: string, c: string, value: string, d: string, found: Length)
    requires AllWhite(a) && AllWhite(b) && AllWhite(c) && AllWhite(d)
    requires Trimmed(key) && ':' !in key && Trimmed(value)
    ensures
      ScanLine(a + key + b + ":" + c + value + d, found)
      == if !EqIgnoreCase(key, "content-length") then found
         else match ParseUnsigned(value, USIZE_MAX)
              case None => Malformed
              case Some(n) => Known(n)
  {
    hide Trim, EqIgnoreCase, ParseUnsigned, Find, AllWhite, Trimmed;
    var field := key + b + ":" + c + value;
    assert a + key + b + ":" + c + value + d == a + field + d;
    FieldParts(key, b, c, value);
    TrimPadded(a, field, d);
  }

  lemma FieldParts(key: string, b: string, c: string, value: string)
    requires AllWhite(b) && AllWhite(c) && Trimmed(key) && ':' !in key && Trimmed(value)
    ensures
      var field := key + b + ":" + c + value;
      var n := |key| + |b|;
      && Trimmed(field) && Find(field, ':') == n
      && Trim(field[..n]) == key && Trim(field[n + 1..]) == value
  {
    hide Trim, Find;
    var field := key + b + ":" + c + value;
    var n := |key| + |b|;
    assert field[0] == key[0] && field[|field| - 1] == value[|value| - 1];
    ColonIsFirst(key + b, c + value);
    assert field == (key + b) + ":" + (c + value);
    assert field[..n] == [] + key + b && field[n + 1..] == c + value + [];
    TrimPadded([], key, b);
    TrimPadded(c, value, []);
  }

  lemma ColonIsFirst(x: string, y: string)
    requires forall i :: 0 <= i < |x| ==> x[i] != ':'
    ensures Find(x + ":" + y, ':') == |x|
  {
    var s := x + ":" + y;
    assert s[|x|] == ':';
    assert forall i :: 0 <= i < |x| ==> s[i] == x[i];
  }

  /** A line without a colon says nothing. */
  lemma OtherLineIsIgnored(line: string, found: Length)
    requires ':' !in Trim(line)
    ensures ScanLine(line, found) == found
  {
  }

  function HeaderText(lines: seq<string>): string {
    if lines == [] then CRLF else lines[0] + CRLF + HeaderText(lines[1..])
  }

  /** Lines that stay what they are in a header block. */
  predicate Plain(line: string) {
    line != [] && IsAscii(line) && '\r' !in line
  }

  predicate AllPlain(lines: seq<string>) {
    forall i :: 0 <= i < |lines| ==> Plain(lines[i])
  }

  lemma FirstLineSplits(l: string, rest: string)
    requires Plain(l) && IsAscii(rest)
    ensures SplitLines(l + CRLF + rest, 0) == [l] + SplitLines(rest, 0) && IsAscii(l + CRLF + rest)
  {
    hide SplitLines;
    var text := l + CRLF + rest;
    assert text[|l|..|l| + 2] == CRLF && text[..|l|] == l && text[|l| + 2..] == rest;
    assert forall i :: 0 <= i < |l| ==> text[i] == l[i];
    SplitAtFirst(text, 0, |l|);
  }

  lemma {:induction false} SplitHeaderText(lines: seq<string>)
    requires AllPlain(lines)
    ensures SplitLines(HeaderText(lines), 0) == lines + ["", ""]
    ensures IsAscii(HeaderText(lines))
  {
    if lines == [] {
      SplitAtFirst(CRLF, 0, 0);
      assert SplitLines(CRLF, 0) == [CRLF[..0]] + SplitLines(CRLF[2..], 0);
    } else {
      var l, rest := lines[0], HeaderText(lines[1..]);
      assert Plain(l) && AllPlain(lines[1..]);
      hide SplitLines, AllPlain, Plain, IsAscii;
      SplitHeaderText(lines[1..]);
      FirstLineSplits(l, rest);
      assert lines + ["", ""] == [l] + (lines[1..] + ["", ""]);
    }
  }

  lemma {:induction false} BlankLinesAreIgnored(lines: seq<string>, found: Length)
    ensures ScanLines(lines + ["", ""], found) == ScanLines(lines, found)
  {
    if found.Malformed? {
    } else if lines == [] {
      OtherLineIsIgnored("", found);
      assert ["", ""][1..] == [""] && [""][1..] == [];
      assert lines + ["", ""] == ["", ""];
      hide ScanLine;
      assert ScanLines([""], found) == found;
    } else {
      hide ScanLine;
      assert (lines + ["", ""])[1..] == lines[1..] + ["", ""];
      BlankLinesAreIgnored(lines[1..], ScanLine(lines[0], found));
    }
  }

  predicate EndsAt(text: string, k: nat) {
    4 <= k <= |text| && text[k - 4] == '\r' && text[k - 3] == '\n' && text[k - 2] == '\r' && text[k - 1] == '\n'
  }

  lemma {:induction false} BlankLineIsLast(lines: seq<string>, k: nat)
    requires lines != [] && AllPlain(lines)
    ensures EndsAt(HeaderText(lines), k) <==> k == |HeaderText(lines)|
    decreases |lines|
  {
    var l, rest := lines[0], HeaderText(lines[1..]);
    var text := HeaderText(lines);
    assert text == l + CRLF + rest;
    var n := |l| + 2;
    assert Plain(l);
    assert forall i :: 0 <= i < |l| ==> text[i] == l[i] != '\r';
    assert text[n - 2] == '\r' && text[n - 1] == '\n';
    assert forall i :: n <= i < |text| ==> text[i] == rest[i - n];
    if lines[1..] == [] {
      assert rest == CRLF;
    } else {
      assert Plain(lines[1]) && lines[1..][0] == lines[1] && rest[0] == lines[1][0];
      if k >= n {
        BlankLineIsLast(lines[1..], k - n);
      } else {
        BlankLineIsLast(lines[1..], 0);
      }
    }
  }

  lemma HeaderBlockEnds(lines: seq<string>, s: seq<Byte>)
    requires lines != [] && AllPlain(lines)
    ensures IsAscii(HeaderText(lines))
    ensures FindEnd(Ascii(HeaderText(lines)) + s, 0) == Some(|HeaderText(lines)|)
  {
    hide HeaderText, SplitLines, FindEnd, AllPlain, EndsHeader;
    SplitHeaderText(lines);
    var text := HeaderText(lines);
    var all := Ascii(text) + s;
    forall k | 0 <= k <= |text| ensures EndsHeader(all, k) <==> k == |text| {
      BlankLineIsLast(lines, k);
      EndsAlike(text, s, k);
    }
    FindEndIsFirst(all, 0, |text|);
  }

  lemma EndsAlike(text: string, s: seq<Byte>, k: nat)
    requires IsAscii(text) && k <= |text|
    ensures EndsHeader(Ascii(text) + s, k) <==> EndsAt(text, k)
  {
    var all := Ascii(text) + s;
    if k >= 4 {
      assert all[k - 4] == text[k - 4] as int && all[k - 3] == text[k - 3] as int;
      assert all[k - 2] == text[k - 2] as int && all[k - 1] == text[k - 1] as int;
      assert all[k - 4..k] == [all[k - 4], all[k - 3], all[k - 2], all[k - 1]];
    }
  }

  /** Whatever lines a header block has, they alone decide what the read returns, and what it leaves: an error
      without a usable length, or with one over the cap or past the end of the stream; else that many bytes. */
  lemma HeaderBlockDecides(utf8: Utf8, lines: seq<string>, s: seq<Byte>)
    requires DecodesAscii(utf8) && lines != [] && AllPlain(lines)
    requires |HeaderText(lines)| <= MAX_HEADER_BYTES + 1
    ensures IsAscii(HeaderText(lines))
    ensures
      ReadFrame(utf8, Ascii(HeaderText(lines)) + s)
      == match ScanLines(lines, Absent)
         case Malformed => (Failed(BadLength), s)
         case Absent => (Failed(MissingLength), s)
         case Known(n) =>
           if n > MAX_BODY_BYTES then (Failed(BodyTooLong), s)
           else if n > |s| then (Failed(BodyCut), [])
           else (Body(s[..n]), s[n..])
  {
    hide HeaderText, ScanLines, SplitLines, FindEnd;
    SplitHeaderText(lines);
    BlankLinesAreIgnored(lines, Absent);
    HeaderBlockEnds(lines, s);
    var header := Ascii(HeaderText(lines));
    assert (header + s)[..|header|] == header && (header + s)[|header|..] == s;
  }

  /** Without a blank line in its first 8 KiB and one byte the stream is at its end or its header too long. */
  lemma NoHeaderEnd(utf8: Utf8, s: seq<Byte>)
    requires forall k :: 0 <= k <= |s| && k <= MAX_HEADER_BYTES + 1 ==> !EndsHeader(s, k)
    ensures ReadFrame(utf8, s)
         == if |s| <= MAX_HEADER_BYTES then (Eof, []) else (Failed(HeaderTooLong), s[MAX_HEADER_BYTES + 1..])
  {
    hide FindEnd;
    FindEndIsBeyond(s, 0, if |s| <= MAX_HEADER_BYTES then |s| else MAX_HEADER_BYTES + 1);
  }
}
