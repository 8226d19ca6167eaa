/**
  URL globs compiled to regular-expression text, and the regex subset that
  text is written in.
 */
module Glob {
  import opened Text

  // ----- What a glob means --------------------------------------------------------

  predicate NewlineFree(u: string) {
    '\n' !in u
  }

  /** `*` is any run of non-newline characters; every other character is itself. */
  ghost predicate Accepts(pattern: string, u: string)
    decreases |pattern|
  {
    if pattern == [] then u == []
    else if pattern[0] == '*' then
      exists k :: 0 <= k <= |u| && NewlineFree(u[..k]) && Accepts(pattern[1..], u[k..])
    else
      u != [] && u[0] == pattern[0] && Accepts(pattern[1..], u[1..])
  }

  // ----- What a regex means -------------------------------------------------------

  datatype Atom = Begin | End | Dot | Lit(c: char)

  /** An atom, repeated any number of times when `star`. */
  datatype Item = Item(atom: Atom, star: bool)

  /** The characters that mean something in a regex outside a class: escape, any character, repetition,
      grouping, alternation, classes, counted repetition and the two anchors. */
  predicate IsSyntax(c: char) {
    c in {'\\', '.', '*', '+', '?', '(', ')', '|', '[', ']', '{', '}', '^', '$'}
  }

  /** The text of the subset: atoms, each with an optional `*`. `None` for anything outside it. */
  function Parse(re: string): Option<seq<Item>>
    decreases |re|
  {
    if re == [] then Some([])
    else
      var escaped := re[0] == '\\';
      if escaped && (|re| == 1 || !IsSyntax(re[1])) then None
      else if !escaped && IsSyntax(re[0]) && re[0] != '.' && re[0] != '^' && re[0] != '$' then None
      else
        var atom :=
          if escaped then Lit(re[1])
          else if re[0] == '.' then Dot
          else if re[0] == '^' then Begin
          else if re[0] == '$' then End
          else Lit(re[0]);
        var rest := if escaped then re[2..] else re[1..];
        var star := rest != [] && rest[0] == '*';
        match Parse(if star then rest[1..] else rest)
        case None => None
        case Some(items) => Some([Item(atom, star)] + items)
  }

  /** The atom matches `u` from position `i` to position `j`. */
  predicate AtomMatches(a: Atom, u: string, i: nat, j: nat)
    requires i <= j <= |u|
  {
    match a
    case Begin => i == j == 0
    case End => i == j == |u|
    case Dot => j == i + 1 && u[i] != '\n'
    case Lit(c) => j == i + 1 && u[i] == c
  }

  /** `n` matches of the atom in a row. */
  ghost predicate Repeats(a: Atom, u: string, i: nat, j: nat, n: nat)
    requires i <= j <= |u|
    decreases n
  {
    if n == 0 then i == j
    else exists m :: i <= m <= j && AtomMatches(a, u, i, m) && Repeats(a, u, m, j, n - 1)
  }

  ghost predicate ItemMatches(it: Item, u: string, i: nat, j: nat)
    requires i <= j <= |u|
  {
    if it.star then exists n: nat :: Repeats(it.atom, u, i, j, n) else AtomMatches(it.atom, u, i, j)
  }

  ghost predicate Matches(items: seq<Item>, u: string, i: nat, j: nat)
    requires i <= j <= |u|
    decreases |items|
  {
    if items == [] then i == j
    else exists m :: i <= m <= j && ItemMatches(items[0], u, i, m) && Matches(items[1..], u, m, j)
  }

  /** `Regex::is_match`: an unanchored search. */
  ghost predicate IsMatch(items: seq<Item>, u: string) {
    exists i: nat, j: nat :: i <= j <= |u| && Matches(items, u, i, j)
  }

  // ----- The compiler --------------------------------------------------------------

  /** The characters the compiler escapes. */
  predicate IsMeta(c: char) {
    || c == '.' || c == '+' || c == '*' || c == '?' || c == '(' || c == ')' || c == '|' || c == '['
    || c == ']' || c == '{' || c == '}' || c == '^' || c == '$' || c == '\\'
  }

  /** It escapes what a regex would read as syntax, and nothing else. */
  lemma EscapesExactlySyntax(c: char)
    ensures IsMeta(c) <==> IsSyntax(c)
  {
  }

  function Emit(c: char): string {
    if c == '*' then ".*" else if IsMeta(c) then ['\\', c] else [c]
  }

  function EmitAll(pattern: string): string {
    if pattern == [] then [] else EmitAll(pattern[..|pattern| - 1]) + Emit(pattern[|pattern| - 1])
  }

  /** `glob_to_regex`, up to the regex text. */
  method GlobToRegex(pattern: string) returns (re: string)
    ensures re == "^" + EmitAll(pattern) + "$"
    ensures Parse(re).Some?
    ensures forall u :: IsMatch(Parse(re).value, u) <==> Accepts(pattern, u)
  {
    hide Parse, IsMatch, Accepts, ItemsOf;
    re := "^";
    var i := 0;
    while i < |pattern|
      invariant 0 <= i <= |pattern|
      invariant re == "^" + EmitAll(pattern[..i])
    {
      assert pattern[..i + 1][..i] == pattern[..i] && pattern[..i + 1][i] == pattern[i];
      var ch := pattern[i];
      if ch == '*' {
        re := re + ".*";
      } else if IsMeta(ch) {
        re := re + ['\\'] + [ch];
      } else {
        re := re + [ch];
      }
      i := i + 1;
    }
    assert pattern[..i] == pattern;
    re := re + "$";
    CompiledParses(pattern);
    forall u ensures IsMatch(Parse(re).value, u) <==> Accepts(pattern, u) {
      CompiledMeansTheSame(pattern, u);
    }
  }

  // ----- The text parses to the items the glob asks for -------------------------------

  function ItemOf(c: char): Item {
    if c == '*' then Item(Dot, true) else Item(Lit(c), false)
  }

  function ItemsOf(pattern: string): seq<Item> {
    seq(|pattern|, i requires 0 <= i < |pattern| => ItemOf(pattern[i]))
  }

  lemma {:induction false} EmitFromFront(pattern: string)
    requires pattern != []
    ensures EmitAll(pattern) == Emit(pattern[0]) + EmitAll(pattern[1..])
  {
    hide Emit;
    var n := |pattern| - 1;
    if n == 0 {
      assert pattern[..0] == [] && pattern[1..] == [];
      assert EmitAll(pattern) == EmitAll([]) + Emit(pattern[0]);
      assert [] + Emit(pattern[0]) == Emit(pattern[0]) == Emit(pattern[0]) + [];
    } else {
      EmitFromFront(pattern[..n]);
      var mid := pattern[1..n];
      assert pattern[..n][1..] == mid && pattern[1..][..n - 1] == mid && pattern[1..][n - 1] == pattern[n];
      assert EmitAll(pattern[1..]) == EmitAll(mid) + Emit(pattern[n]);
      assert Emit(pattern[0]) + EmitAll(mid) + Emit(pattern[n]) == Emit(pattern[0]) + (EmitAll(mid) + Emit(pattern[n]));
    }
  }

  lemma ItemsStep(pattern: string)
    requires pattern != []
    ensures ItemsOf(pattern) + [Item(End, false)]
         == [ItemOf(pattern[0])] + (ItemsOf(pattern[1..]) + [Item(End, false)])
  {
    hide ItemOf;
  }

  lemma {:induction false} BodyParses(pattern: string)
    ensures Parse(EmitAll(pattern) + "$") == Some(ItemsOf(pattern) + [Item(End, false)])
  {
    if pattern == [] {
      assert EmitAll(pattern) + "$" == "$";
      DollarParses();
      assert ItemsOf(pattern) + [Item(End, false)] == [Item(End, false)];
    } else {
      hide Parse, EmitAll, Emit, ItemsOf;
      EmitFromFront(pattern);
      BodyParses(pattern[1..]);
      var tail := EmitAll(pattern[1..]) + "$";
      assert EmitAll(pattern) + "$" == Emit(pattern[0]) + tail;
      NotAStar(pattern[1..]);
      ParseEmitted(pattern[0], tail);
      ItemsStep(pattern);
    }
  }

  lemma DollarParses()
    ensures Parse("$") == Some([Item(End, false)])
  {
    var re := "$";
    assert re[1..] == [];
    assert Parse([]) == Some([]);
    assert [Item(End, false)] + [] == [Item(End, false)];
  }

  /** Emitted text never starts with a bare `*`, so a literal is never starred by what follows. */
  lemma NotAStar(pattern: string)
    ensures (EmitAll(pattern) + "$")[0] != '*'
  {
    if pattern != [] {
      EmitFromFront(pattern);
    }
  }

  lemma StarIsSyntax()
    ensures IsMeta('*') && IsMeta('\\') && IsMeta('.') && IsMeta('^') && IsMeta('$')
  {
  }

  lemma ParseEmitted(c: char, tail: string)
    requires tail != [] && tail[0] != '*' && Parse(tail).Some?
    ensures Parse(Emit(c) + tail) == Some([ItemOf(c)] + Parse(tail).value)
  {
    var re := Emit(c) + tail;
    EscapesExactlySyntax(c);
    StarIsSyntax();
    hide IsSyntax, IsMeta;
    if c == '*' {
      assert re[1..] == "*" + tail && re[1..][1..] == tail;
    } else if IsMeta(c) {
      assert re[0] == '\\' && re[1] == c && re[2..] == tail;
    } else {
      assert re[0] == c && re[1..] == tail;
    }
  }

  lemma ParseCaret(tail: string)
    requires tail != [] && tail[0] != '*' && Parse(tail).Some?
    ensures Parse("^" + tail) == Some([Item(Begin, false)] + Parse(tail).value)
  {
    assert ("^" + tail)[1..] == tail;
  }

  lemma CompiledParses(pattern: string)
    ensures Parse("^" + EmitAll(pattern) + "$")
         == Some([Item(Begin, false)] + ItemsOf(pattern) + [Item(End, false)])
  {
    hide Parse, EmitAll, ItemsOf;
    BodyParses(pattern);
    NotAStar(pattern);
    var tail := EmitAll(pattern) + "$";
    assert "^" + EmitAll(pattern) + "$" == "^" + tail;
    ParseCaret(tail);
    assert [Item(Begin, false)] + ItemsOf(pattern) + [Item(End, false)]
        == [Item(Begin, false)] + (ItemsOf(pattern) + [Item(End, false)]);
  }

  // ----- The items mean what the glob means ----------------------------------------------

  lemma {:induction false} DotsAreNewlineFree(u: string, i: nat, j: nat, n: nat)
    requires i <= j <= |u| && Repeats(Dot, u, i, j, n)
    ensures NewlineFree(u[i..j])
    decreases n
  {
    if n > 0 {
      var m :| i <= m <= j && AtomMatches(Dot, u, i, m) && Repeats(Dot, u, m, j, n - 1);
      DotsAreNewlineFree(u, m, j, n - 1);
      assert u[i..j] == [u[i]] + u[m..j];
    }
  }

  lemma {:induction false} NewlineFreeIsDots(u: string, i: nat, j: nat)
    requires i <= j <= |u| && NewlineFree(u[i..j])
    ensures Repeats(Dot, u, i, j, j - i)
    decreases j - i
  {
    if i < j {
      assert u[i] == u[i..j][0];
      assert u[i + 1..j] == u[i..j][1..];
      NewlineFreeIsDots(u, i + 1, j);
      assert AtomMatches(Dot, u, i, i + 1);
    }
  }

  lemma StarItem(u: string, i: nat, j: nat)
    requires i <= j <= |u|
    ensures ItemMatches(ItemOf('*'), u, i, j) <==> NewlineFree(u[i..j])
  {
    if NewlineFree(u[i..j]) {
      NewlineFreeIsDots(u, i, j);
    }
    if ItemMatches(ItemOf('*'), u, i, j) {
      var n: nat :| Repeats(Dot, u, i, j, n);
      DotsAreNewlineFree(u, i, j, n);
    }
  }

  ghost predicate MatchesTail(pattern: string, u: string, i: nat, j: nat)
    requires i <= j <= |u|
  {
    Matches(ItemsOf(pattern) + [Item(End, false)], u, i, j)
  }

  lemma MatchesTailStep(pattern: string, u: string, i: nat, j: nat)
    requires i <= j <= |u| && pattern != []
    ensures MatchesTail(pattern, u, i, j)
       <==> exists m :: i <= m <= j && ItemMatches(ItemOf(pattern[0]), u, i, m) && MatchesTail(pattern[1..], u, m, j)
  {
    var items := ItemsOf(pattern) + [Item(End, false)];
    assert items[0] == ItemOf(pattern[0]);
    assert items[1..] == ItemsOf(pattern[1..]) + [Item(End, false)];
  }

  lemma {:induction false} TailMeansTheSame(pattern: string, u: string, i: nat, j: nat)
    requires i <= j <= |u|
    ensures MatchesTail(pattern, u, i, j) <==> j == |u| && Accepts(pattern, u[i..])
    decreases |pattern|
  {
    hide ItemMatches;
    if pattern == [] {
      EndOnly(u, i, j);
    } else {
      hide MatchesTail;
      MatchesTailStep(pattern, u, i, j);
      forall m | i <= m <= j
        ensures MatchesTail(pattern[1..], u, m, j) <==> j == |u| && Accepts(pattern[1..], u[m..])
      {
        TailMeansTheSame(pattern[1..], u, m, j);
      }
      if pattern[0] == '*' {
        StarTail(pattern, u, i, j);
      } else {
        LiteralTail(pattern, u, i, j);
      }
    }
  }

  lemma EndOnly(u: string, i: nat, j: nat)
    requires i <= j <= |u|
    ensures MatchesTail([], u, i, j) <==> j == |u| && Accepts([], u[i..])
  {
    var items := ItemsOf([]) + [Item(End, false)];
    assert items == [Item(End, false)] && items[1..] == [];
    if i == j == |u| {
      assert ItemMatches(items[0], u, i, j) && Matches(items[1..], u, j, j);
    }
  }

  lemma StarTail(pattern: string, u: string, i: nat, j: nat)
    requires i <= j <= |u| && pattern != [] && pattern[0] == '*'
    requires forall m :: i <= m <= j ==>
               (MatchesTail(pattern[1..], u, m, j) <==> j == |u| && Accepts(pattern[1..], u[m..]))
    ensures (exists m :: i <= m <= j && ItemMatches(ItemOf('*'), u, i, m) && MatchesTail(pattern[1..], u, m, j))
       <==> j == |u| && Accepts(pattern, u[i..])
  {
    hide ItemMatches, MatchesTail;
    var rest := u[i..];
    forall m | i <= m <= j
      ensures ItemMatches(ItemOf('*'), u, i, m) <==> NewlineFree(rest[..m - i])
    {
      StarItem(u, i, m);
      assert rest[..m - i] == u[i..m];
    }
    assert forall k :: 0 <= k <= |rest| ==> rest[k..] == u[i + k..];
    if j == |u| && Accepts(pattern, rest) {
      var k :| 0 <= k <= |rest| && NewlineFree(rest[..k]) && Accepts(pattern[1..], rest[k..]);
      assert ItemMatches(ItemOf('*'), u, i, i + k) && MatchesTail(pattern[1..], u, i + k, j);
    }
    if exists m :: i <= m <= j && ItemMatches(ItemOf('*'), u, i, m) && MatchesTail(pattern[1..], u, m, j) {
      var m :| i <= m <= j && ItemMatches(ItemOf('*'), u, i, m) && MatchesTail(pattern[1..], u, m, j);
      assert rest[m - i..] == u[m..];
      assert NewlineFree(rest[..m - i]) && Accepts(pattern[1..], rest[m - i..]);
    }
  }

  lemma LiteralTail(pattern: string, u: string, i: nat, j: nat)
    requires i <= j <= |u| && pattern != [] && pattern[0] != '*'
    requires forall m :: i <= m <= j ==>
               (MatchesTail(pattern[1..], u, m, j) <==> j == |u| && Accepts(pattern[1..], u[m..]))
    ensures (exists m :: i <= m <= j && ItemMatches(ItemOf(pattern[0]), u, i, m) && MatchesTail(pattern[1..], u, m, j))
       <==> j == |u| && Accepts(pattern, u[i..])
  {
    hide MatchesTail;
    var rest := u[i..];
    if rest != [] {
      assert rest[1..] == u[i + 1..] && rest[0] == u[i];
    }
    if j == |u| && Accepts(pattern, rest) {
      assert ItemMatches(ItemOf(pattern[0]), u, i, i + 1) && MatchesTail(pattern[1..], u, i + 1, j);
    }
  }

  /** The regex a glob compiles to accepts exactly what the glob accepts, on every string. */
  lemma CompiledMeansTheSame(pattern: string, u: string)
    ensures IsMatch([Item(Begin, false)] + ItemsOf(pattern) + [Item(End, false)], u) <==> Accepts(pattern, u)
  {
    hide Accepts;
    var items := [Item(Begin, false)] + ItemsOf(pattern) + [Item(End, false)];
    assert items[0] == Item(Begin, false) && items[1..] == ItemsOf(pattern) + [Item(End, false)];
    assert u[0..] == u;
    forall j: nat | j <= |u| ensures MatchesTail(pattern, u, 0, j) <==> j == |u| && Accepts(pattern, u) {
      TailMeansTheSame(pattern, u, 0, j);
    }
    if Accepts(pattern, u) {
      assert MatchesTail(pattern, u, 0, |u|);
      assert ItemMatches(items[0], u, 0, 0) && Matches(items[1..], u, 0, |u|);
      assert Matches(items, u, 0, |u|);
    }
    if IsMatch(items, u) {
      var i: nat, j: nat :| i <= j <= |u| && Matches(items, u, i, j);
      var m :| i <= m <= j && ItemMatches(items[0], u, i, m) && Matches(items[1..], u, m, j);
      assert MatchesTail(pattern, u, 0, j);
    }
  }
}
