/**
  Bytes, decimal text and the number parsing of Rust's `str::parse`.
 */
module Text {

  type Byte = b: int | 0 <= b < 256

  datatype Option<+T> = None | Some(value: T)

  // ----- Decimal text ---------------------------------------------------------

  predicate IsDigit(c: char) {
    '0' <= c <= '9'
  }

  predicate AllDigits(s: string) {
    forall i :: 0 <= i < |s| ==> IsDigit(s[i])
  }

  function Digit(d: int): char
    requires 0 <= d < 10
  {
    (d + '0' as int) as char
  }

  /** `n.to_string()`. */
  function Decimal(n: nat): string {
    if n < 10 then [Digit(n)] else Decimal(n / 10) + [Digit(n % 10)]
  }

  /** The number a digit string denotes. */
  function Value(s: string): nat
    requires AllDigits(s)
  {
    if s == [] then 0
    else 10 * Value(s[..|s| - 1]) + (s[|s| - 1] as int - '0' as int)
  }

  lemma {:induction false} DecimalValue(n: nat)
    ensures AllDigits(Decimal(n)) && Decimal(n) != []
    ensures Value(Decimal(n)) == n
  {
    if n >= 10 {
      DecimalValue(n / 10);
      var s := Decimal(n);
      assert s[..|s| - 1] == Decimal(n / 10);
    } else {
      assert Value([Digit(n)]) == 10 * Value([]) + n;
    }
  }

  function Zeros(k: nat): string {
    seq(k, i => '0')
  }

  /** `format!("{n:0w}")` for a non-negative number. */
  function ZeroPadded(n: nat, w: nat): string {
    var s := Decimal(n);
    if |s| >= w then s else Zeros(w - |s|) + s
  }

  function Pow10(w: nat): nat {
    if w == 0 then 1 else 10 * Pow10(w - 1)
  }

  lemma {:induction false} ZerosValue(k: nat, s: string)
    requires AllDigits(s)
    ensures AllDigits(Zeros(k) + s)
    ensures Value(Zeros(k) + s) == Value(s)
  {
    var t := Zeros(k) + s;
    if s == [] {
      if k > 0 {
        assert t[..|t| - 1] == Zeros(k - 1) + s;
        ZerosValue(k - 1, s);
      }
    } else {
      assert t[..|t| - 1] == Zeros(k) + s[..|s| - 1];
      ZerosValue(k, s[..|s| - 1]);
    }
  }

  lemma {:induction false} DecimalWidth(n: nat, w: nat)
    requires n < Pow10(w) && w > 0
    ensures |Decimal(n)| <= w
  {
    if n >= 10 {
      DecimalWidth(n / 10, w - 1);
    }
  }

  lemma PaddedValue(n: nat, w: nat)
    requires n < Pow10(w) && w > 0
    ensures |ZeroPadded(n, w)| == w && AllDigits(ZeroPadded(n, w))
    ensures Value(ZeroPadded(n, w)) == n
  {
    DecimalValue(n);
    DecimalWidth(n, w);
    ZerosValue(if |Decimal(n)| >= w then 0 else w - |Decimal(n)|, Decimal(n));
  }

  // ----- Number parsing -----------------------------------------------------------

  /** `str::parse` for an unsigned type with the given largest value: one optional `+`,
      at least one digit, no overflow. */
  function ParseUnsigned(s: string, max: nat): Option<nat> {
    var body := if |s| > 1 && s[0] == '+' then s[1..] else s;
    if body == [] || !AllDigits(body) || Value(body) > max then None else Some(Value(body))
  }

  /** `str::parse` for a signed type. */
  function ParseSigned(s: string, min: int, max: nat): Option<int>
    requires min <= 0
  {
    if |s| > 1 && s[0] == '-' then
      (if !AllDigits(s[1..]) || Value(s[1..]) > 0 - min then None else Some(0 - Value(s[1..])))
    else
      match ParseUnsigned(s, max)
      case None => None
      case Some(n) => Some(n)
  }

  lemma ParseOfDigits(s: string, max: nat)
    requires AllDigits(s) && s != [] && Value(s) <= max
    ensures ParseUnsigned(s, max) == Some(Value(s))
    ensures forall min :: min <= 0 ==> ParseSigned(s, min, max) == Some(Value(s))
  {
    assert IsDigit(s[0]);
  }

  /** Signs and limits: one plus is allowed, a minus only for a signed type, and a value past the limit fails. */
  lemma ParseOfSign(d: string, min: int, max: nat)
    requires AllDigits(d) && d != [] && min <= 0
    ensures ParseUnsigned("+" + d, max) == ParseUnsigned(d, max) == if Value(d) <= max then Some(Value(d)) else None
    ensures ParseUnsigned("-" + d, max) == None
    ensures ParseSigned("-" + d, min, max) == if Value(d) <= -min then Some(0 - Value(d)) else None
    ensures ParseSigned("+" + d, min, max) == ParseSigned(d, min, max)
            == if Value(d) <= max then Some(Value(d)) else None
  {
    assert IsDigit(d[0]);
    assert ("+" + d)[1..] == d && ("-" + d)[1..] == d;
    assert !AllDigits("-" + d) by { assert !IsDigit(("-" + d)[0]); }
  }

  /** Nothing but digits behind an optional sign is a number. */
  lemma ParsedIsDigits(s: string, max: nat)
    requires ParseUnsigned(s, max).Some?
    ensures s != [] && AllDigits(s[1..]) && (IsDigit(s[0]) || (s[0] == '+' && |s| > 1))
  {
  }

  // ----- Lexicographic order ----------------------------------------------------

  /** Strict lexicographic order of strings by character. */
  predicate LexLess(a: string, b: string) {
    if b == [] then false
    else if a == [] then true
    else a[0] < b[0] || (a[0] == b[0] && LexLess(a[1..], b[1..]))
  }

  lemma {:induction false} LexLessPrefix(p: string, a: string, b: string)
    requires LexLess(a, b)
    ensures LexLess(p + a, p + b)
  {
    if p == [] {
      assert p + a == a && p + b == b;
    } else {
      LexLessPrefix(p[1..], a, b);
      assert (p + a)[1..] == p[1..] + a && (p + b)[1..] == p[1..] + b;
    }
  }

  lemma {:induction false} LexLessSuffix(a: string, b: string, s: string, t: string)
    requires |a| == |b| && LexLess(a, b)
    ensures LexLess(a + s, b + t)
  {
    if a[0] == b[0] {
      LexLessSuffix(a[1..], b[1..], s, t);
      assert (a + s)[1..] == a[1..] + s && (b + t)[1..] == b[1..] + t;
    }
  }

  lemma {:induction false} LexLessIsStrict(a: string)
    ensures !LexLess(a, a)
  {
    if a != [] {
      LexLessIsStrict(a[1..]);
    }
  }

  lemma {:induction false} LexLessIsAsymmetric(a: string, b: string)
    requires LexLess(a, b)
    ensures !LexLess(b, a)
  {
    if a != [] && a[0] == b[0] {
      LexLessIsAsymmetric(a[1..], b[1..]);
    }
  }

  /** Digit strings of one length compare as the numbers they denote. */
  lemma {:induction false} LexLessOfValues(a: string, b: string)
    requires |a| == |b| && AllDigits(a) && AllDigits(b) && Value(a) < Value(b)
    ensures LexLess(a, b)
  {
    var n := |a| - 1;
    assert a == a[..n] + [a[n]] && b == b[..n] + [b[n]];
    if Value(a[..n]) < Value(b[..n]) {
      LexLessOfValues(a[..n], b[..n]);
      LexLessSuffix(a[..n], b[..n], [a[n]], [b[n]]);
    } else {
      SameValueSameDigits(a[..n], b[..n]);
      LexLessPrefix(a[..n], [a[n]], [b[n]]);
    }
  }

  lemma {:induction false} SameValueSameDigits(a: string, b: string)
    requires |a| == |b| && AllDigits(a) && AllDigits(b) && Value(a) == Value(b)
    ensures a == b
  {
    if a != [] {
      var n := |a| - 1;
      SameValueSameDigits(a[..n], b[..n]);
      assert a == a[..n] + [a[n]] && b == b[..n] + [b[n]];
    }
  }

  // ----- Sequences of bytes -------------------------------------------------------

  /** The bytes of ASCII text. */
  function Ascii(s: string): seq<Byte>
    requires IsAscii(s)
  {
    seq(|s|, i requires 0 <= i < |s| => s[i] as int)
  }

  predicate IsAscii(s: string) {
    forall i :: 0 <= i < |s| ==> s[i] < 128 as char
  }

  function Flatten<T>(parts: seq<seq<T>>): seq<T> {
    if parts == [] then [] else parts[0] + Flatten(parts[1..])
  }

  /** Position of the first `c`, or the length if there is none. */
  function Find(s: string, c: char): (n: nat)
    ensures n <= |s| && (n < |s| ==> s[n] == c)
    ensures forall i :: 0 <= i < n ==> s[i] != c
  {
    if s == [] || s[0] == c then 0 else 1 + Find(s[1..], c)
  }
}
