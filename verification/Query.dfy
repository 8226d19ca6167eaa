/**
  The query string of a HAR request, read off its URL.
 */
module Query {
  import opened Text

  datatype NameValue = NameValue(name: string, value: string)

  function PairOf(kv: string): NameValue {
    var n := Find(kv, '=');
    NameValue(kv[..n], if n < |kv| then kv[n + 1..] else "")
  }

  /** Cut at every `&`, skip what is empty, and cut the rest at its first `=`. */
  function Pairs(q: string): seq<NameValue> {
    var n := Find(q, '&');
    var first := if n == 0 then [] else [PairOf(q[..n])];
    if n == |q| then first else first + Pairs(q[n + 1..])
  }

  /** `parse_query_pairs`: what lies between the first `?` and the first `#`, if that comes later. */
  function QueryPairs(url: string): seq<NameValue> {
    var start := Find(url, '?') + 1;
    var end := Find(url, '#');
    if end <= start then [] else Pairs(url[start..end])
  }

  // ----- Reading back what was written --------------------------------------------------

  /** What stands between two `&`: nothing, a name alone, or a name and a value. */
  datatype Piece = Blank | Bare(name: string) | Pair(name: string, value: string)

  function PieceText(p: Piece): string {
    match p
    case Blank => ""
    case Bare(name) => name
    case Pair(name, value) => name + "=" + value
  }

  /** What a piece means: nothing at all, or one pair, whose value is empty when there is no `=`. */
  function Meaning(p: Piece): seq<NameValue> {
    match p
    case Blank => []
    case Bare(name) => [NameValue(name, "")]
    case Pair(name, value) => [NameValue(name, value)]
  }

  function QueryText(ps: seq<Piece>): string {
    if ps == [] then ""
    else if |ps| == 1 then PieceText(ps[0])
    else PieceText(ps[0]) + "&" + QueryText(ps[1..])
  }

  function Meanings(ps: seq<Piece>): seq<NameValue> {
    if ps == [] then [] else Meaning(ps[0]) + Meanings(ps[1..])
  }

  predicate Writable(p: Piece) {
    match p
    case Blank => true
    case Bare(name) => name != "" && '=' !in name && '&' !in name && '#' !in name
    case Pair(name, value) => '=' !in name && '&' !in name && '#' !in name && '&' !in value && '#' !in value
  }

  lemma {:induction false} FindAt(s: string, c: char, n: nat)
    requires n <= |s| && (forall i :: 0 <= i < n ==> s[i] != c) && (n < |s| ==> s[n] == c)
    ensures Find(s, c) == n
  {
  }

  lemma PieceReadsBack(p: Piece)
    requires Writable(p)
    ensures (if PieceText(p) == [] then [] else [PairOf(PieceText(p))]) == Meaning(p)
    ensures '&' !in PieceText(p) && '#' !in PieceText(p)
  {
    var t := PieceText(p);
    match p {
      case Blank =>
      case Bare(name) =>
        FindAt(t, '=', |t|);
        assert t[..|t|] == t;
      case Pair(name, value) =>
        FindAt(t, '=', |name|);
        assert t[..|name|] == name && t[|name| + 1..] == value;
    }
  }

  lemma OnePiece(t: string, rest: string)
    requires '&' !in t
    ensures
      var first := if t == [] then [] else [PairOf(t)];
      Pairs(t) == first && Pairs(t + "&" + rest) == first + Pairs(rest)
  {
    hide PairOf;
    FindAt(t, '&', |t|);
    assert t[..|t|] == t;
    var q := t + "&" + rest;
    FindAt(q, '&', |t|);
    assert q[..|t|] == t && q[|t| + 1..] == rest;
  }

  lemma {:induction false} PiecesReadBack(ps: seq<Piece>)
    requires forall p :: p in ps ==> Writable(p)
    ensures Pairs(QueryText(ps)) == Meanings(ps) && '#' !in QueryText(ps)
  {
    if ps == [] {
      OnePiece("", "");
    } else {
      var first, rest := ps[0], ps[1..];
      var t := PieceText(first);
      PieceReadsBack(first);
      hide Pairs, PairOf, PieceText, Writable, Meaning;
      PiecesReadBack(rest);
      OnePiece(t, QueryText(rest));
      if rest == [] {
        assert QueryText(ps) == t && Meanings(ps) == Meaning(first) + [];
      } else {
        assert QueryText(ps) == t + "&" + QueryText(rest);
      }
    }
  }

  /** Whatever query a URL is written with, blanks and bare names included, is read back piece by piece, with
      or without a fragment behind it. */
  lemma QueryRoundTrip(base: string, ps: seq<Piece>, fragment: string)
    requires '?' !in base && '#' !in base && forall p :: p in ps ==> Writable(p)
    requires fragment == [] || fragment[0] == '#'
    ensures QueryPairs(base + "?" + QueryText(ps) + fragment) == Meanings(ps)
  {
    PiecesReadBack(ps);
    hide QueryPairs, Writable, QueryText, Meanings;
    QueryOfParts(base, QueryText(ps), fragment);
  }

  lemma QueryOfParts(base: string, q: string, fragment: string)
    requires '?' !in base && '#' !in base && '#' !in q && (fragment == [] || fragment[0] == '#')
    ensures QueryPairs(base + "?" + q + fragment) == Pairs(q)
  {
    if q == [] {
      OnePiece("", "");
    }
    hide Pairs, Find;
    QuestionAt(base, q, fragment);
    HashAt(base, q, fragment);
    Middle(base, q, fragment);
  }

  lemma QuestionAt(base: string, q: string, fragment: string)
    requires '?' !in base
    ensures Find(base + "?" + q + fragment, '?') == |base|
  {
    hide Find;
    var tail := "?" + (q + fragment);
    assert base + "?" + q + fragment == base + tail;
    FindBehind(base, tail, '?');
  }

  lemma HashAt(base: string, q: string, fragment: string)
    requires '#' !in base && '#' !in q && (fragment == [] || fragment[0] == '#')
    ensures Find(base + "?" + q + fragment, '#') == |base| + 1 + |q|
  {
    hide Find;
    FindBehind(base + "?" + q, fragment, '#');
  }

  lemma Middle(base: string, q: string, fragment: string)
    ensures (base + "?" + q + fragment)[|base| + 1..|base| + 1 + |q|] == q
  {
  }

  lemma FindBehind(x: string, y: string, c: char)
    requires (forall i :: 0 <= i < |x| ==> x[i] != c) && (y != [] ==> y[0] == c)
    ensures Find(x + y, c) == |x|
  {
    FindAt(x + y, c, |x|);
  }

  /** A URL without `?`, or with its first `?` behind a `#`, has no query. */
  lemma NoQuery(base: string, fragment: string)
    requires '?' !in base && '#' !in base && (fragment == [] || fragment[0] == '#')
    ensures QueryPairs(base + fragment) == []
  {
    var url := base + fragment;
    assert forall i :: 0 <= i < |base| ==> url[i] == base[i];
    FindAt(url, '#', |base|);
    assert Find(url, '?') >= |base|;
  }
}
