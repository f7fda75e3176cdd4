/**
 * The Python string built-ins the chatbot's decision logic relies on:
 * `str.isspace`, `str.lower`, `str.strip`, `str.split()`, `re.findall(r'\b\w+\b', ...)`,
 * the substring test `sub in s`, `sep.join(parts)`, `str(int)` and `sorted(set(ints))`.
 * Strings are sequences of code points.
 */
module Text {

  /** Python's `str.isspace()` for one code point (the full Unicode whitespace set). */
  predicate IsSpace(c: char) {
    || ('\t' <= c <= '\r')
    || ('\U{1C}' <= c <= '\U{1F}')
    || c == ' ' || c == '\U{85}' || c == '\U{A0}' || c == '\U{1680}'
    || ('\U{2000}' <= c <= '\U{200A}')
    || c == '\U{2028}' || c == '\U{2029}' || c == '\U{202F}' || c == '\U{205F}' || c == '\U{3000}'
  }

  /** The regex class `\w`, restricted to ASCII: letters, digits and the underscore. */
  predicate IsWordChar(c: char) {
    ('a' <= c <= 'z') || ('A' <= c <= 'Z') || ('0' <= c <= '9') || c == '_'
  }

  predicate IsUpper(c: char) {
    'A' <= c <= 'Z'
  }

  function LowerChar(c: char): (d: char)
    ensures !IsUpper(d)
    ensures IsSpace(d) <==> IsSpace(c)
    ensures IsWordChar(d) <==> IsWordChar(c)
    ensures !IsUpper(c) ==> d == c
  {
    if IsUpper(c) then (c as int + 32) as char else c
  }

  /** `str.lower()` on ASCII letters; every other code point is kept. */
  function Lower(s: string): (r: string)
    ensures |r| == |s|
    ensures forall i :: 0 <= i < |r| ==> r[i] == LowerChar(s[i])
  {
    seq(|s|, i requires 0 <= i < |s| => LowerChar(s[i]))
  }

  predicate IsLowerCase(s: string) {
    forall i :: 0 <= i < |s| ==> !IsUpper(s[i])
  }

  /** Lower-casing yields lower-case text and is idempotent. */
  lemma LowerIsLowerCase(s: string)
    ensures IsLowerCase(Lower(s))
    ensures Lower(Lower(s)) == Lower(s)
  {
  }

  /** Lower-casing works code point by code point, so it distributes over concatenation. */
  lemma LowerAppend(a: string, b: string, c: string)
    ensures Lower(a + b + c) == Lower(a) + Lower(b) + Lower(c)
  {
  }

  /** Number of leading whitespace code points. */
  function LeadingSpaces(s: string): (n: nat)
    ensures n <= |s|
    ensures forall i :: 0 <= i < n ==> IsSpace(s[i])
    ensures n < |s| ==> !IsSpace(s[n])
  {
    if s != [] && IsSpace(s[0]) then 1 + LeadingSpaces(s[1..]) else 0
  }

  /** Number of trailing whitespace code points. */
  function TrailingSpaces(s: string): (n: nat)
    ensures n <= |s|
    ensures forall i :: |s| - n <= i < |s| ==> IsSpace(s[i])
    ensures n < |s| ==> !IsSpace(s[|s| - n - 1])
  {
    if s != [] && IsSpace(s[|s| - 1]) then 1 + TrailingSpaces(s[..|s| - 1]) else 0
  }

  predicate IsStripped(s: string) {
    s == [] || (!IsSpace(s[0]) && !IsSpace(s[|s| - 1]))
  }

  predicate AllSpace(s: string) {
    forall i :: 0 <= i < |s| ==> IsSpace(s[i])
  }

  /** `str.strip()` with no argument: drop leading and trailing whitespace. */
  function Strip(s: string): (r: string)
    ensures |r| <= |s|
    ensures IsStripped(r)
    ensures r == [] <==> AllSpace(s)
    ensures IsStripped(s) ==> r == s
    ensures exists a, b :: s == a + r + b && AllSpace(a) && AllSpace(b)
  {
    var t := s[LeadingSpaces(s)..];
    var r := t[..|t| - TrailingSpaces(t)];
    assert s == s[..LeadingSpaces(s)] + r + t[|t| - TrailingSpaces(t)..];
    assert AllSpace(s[..LeadingSpaces(s)]);
    assert AllSpace(t[|t| - TrailingSpaces(t)..]);
    r
  }

  /** Trimming only removes code points: whatever is left occurs in the text. */
  lemma StripTakesFrom(s: string)
    ensures forall c :: c in Strip(s) ==> c in s
  {
    var r := Strip(s);
    var a, b :| s == a + r + b && AllSpace(a) && AllSpace(b);
    forall j | 0 <= j < |r| ensures r[j] in s {
      assert s[|a| + j] == r[j];
    }
  }

  /** The length of the run of code points satisfying `p` at the start of `s`. */
  function RunLength(s: string, p: char -> bool): (n: nat)
    ensures n <= |s|
    ensures forall i :: 0 <= i < n ==> p(s[i])
    ensures n < |s| ==> !p(s[n])
  {
    if s != [] && p(s[0]) then 1 + RunLength(s[1..], p) else 0
  }

  /**
   * The maximal runs of code points satisfying `p`, left to right. With `p` the complement
   * of whitespace this is `str.split()`; with `p` the class `\w` it is
   * `re.findall(r'\b\w+\b', s)`, since a greedy `\w+` match is exactly a maximal run and
   * the word boundaries at its two ends then always hold.
   */
  function Runs(s: string, p: char -> bool): (r: seq<string>)
    ensures forall k :: 0 <= k < |r| ==> r[k] != [] && forall i :: 0 <= i < |r[k]| ==> p(r[k][i])
    decreases |s|
  {
    if s == [] then []
    else if !p(s[0]) then Runs(s[1..], p)
    else
      var n := RunLength(s, p);
      [s[..n]] + Runs(s[n..], p)
  }

  /** The code points of `s` that satisfy `p`, in order. */
  function Filter(s: string, p: char -> bool): string {
    if s == [] then [] else (if p(s[0]) then [s[0]] else []) + Filter(s[1..], p)
  }

  function Concat(ss: seq<string>): string {
    if ss == [] then [] else ss[0] + Concat(ss[1..])
  }

  lemma {:induction false} FilterAppend(a: string, b: string, p: char -> bool)
    ensures Filter(a + b, p) == Filter(a, p) + Filter(b, p)
  {
    if a != [] {
      var head := if p(a[0]) then [a[0]] else [];
      assert (a + b)[0] == a[0];
      assert (a + b)[1..] == a[1..] + b;
      FilterAppend(a[1..], b, p);
      calc {
        Filter(a + b, p);
        head + Filter(a[1..] + b, p);
        head + (Filter(a[1..], p) + Filter(b, p));
        (head + Filter(a[1..], p)) + Filter(b, p);
      }
    } else {
      assert a + b == b;
    }
  }

  lemma {:induction false} FilterAll(s: string, p: char -> bool)
    requires forall i :: 0 <= i < |s| ==> p(s[i])
    ensures Filter(s, p) == s
  {
    if s != [] {
      FilterAll(s[1..], p);
    }
  }

  /**
   * The runs partition the selected code points: concatenated, they give back exactly
   * the code points of `s` that satisfy `p`, in their original order.
   */
  lemma {:induction false} RunsCoverSelected(s: string, p: char -> bool)
    ensures Concat(Runs(s, p)) == Filter(s, p)
    decreases |s|
  {
    if s == [] {
    } else if !p(s[0]) {
      RunsCoverSelected(s[1..], p);
    } else {
      var n := RunLength(s, p);
      assert s == s[..n] + s[n..];
      FilterAppend(s[..n], s[n..], p);
      FilterAll(s[..n], p);
      RunsCoverSelected(s[n..], p);
      var r := Runs(s, p);
      assert r == [s[..n]] + Runs(s[n..], p);
      assert r[1..] == Runs(s[n..], p);
    }
  }

  /** Every code point of a run is a code point of the text it was taken from. */
  lemma {:induction false} RunsTakeFrom(s: string, p: char -> bool, k: nat)
    requires k < |Runs(s, p)|
    ensures forall i :: 0 <= i < |Runs(s, p)[k]| ==> Runs(s, p)[k][i] in s
    decreases |s|
  {
    if !p(s[0]) {
      RunsTakeFrom(s[1..], p, k);
    } else {
      var n := RunLength(s, p);
      if k > 0 {
        RunsTakeFrom(s[n..], p, k - 1);
        forall c | c in s[n..] ensures c in s { }
      } else {
        forall c | c in s[..n] ensures c in s { }
      }
    }
  }

  /** A run followed by a code point outside the class is the first of the runs. */
  lemma RunsAfterRun(w: string, c: char, rest: string, p: char -> bool)
    requires w != [] && (forall i :: 0 <= i < |w| ==> p(w[i])) && !p(c)
    ensures Runs(w + [c] + rest, p) == [w] + Runs(rest, p)
  {
    var s := w + [c] + rest;
    var n := RunLength(s, p);
    assert s[|w|] == c;
    assert forall i :: 0 <= i < |w| ==> s[i] == w[i];
    assert n == |w|;
    assert s[..n] == w;
    assert s[n..] == [c] + rest;
    assert ([c] + rest)[1..] == rest;
  }

  /** A run stops at the end of `a` when what follows `a` starts outside the class. */
  lemma {:induction false} RunLengthStops(a: string, rest: string, p: char -> bool)
    requires rest == [] || !p(rest[0])
    ensures RunLength(a + rest, p) == RunLength(a, p)
    decreases |a|
  {
    if a == [] {
      assert a + rest == rest;
    } else {
      assert (a + rest)[0] == a[0];
      if p(a[0]) {
        assert (a + rest)[1..] == a[1..] + rest;
        RunLengthStops(a[1..], rest, p);
      }
    }
  }

  /**
   * Tokens never span a code point outside the class: splitting the text there splits the
   * tokens there. With `RunsWhole`, this fixes the tokens as the maximal runs.
   */
  lemma {:induction false} RunsSplitAtSeparator(a: string, c: char, b: string, p: char -> bool)
    requires !p(c)
    ensures Runs(a + [c] + b, p) == Runs(a, p) + Runs(b, p)
    decreases |a|
  {
    var s := a + [c] + b;
    if a == [] {
      assert s == [c] + b && s[1..] == b;
    } else if !p(a[0]) {
      assert s[0] == a[0];
      assert s[1..] == a[1..] + [c] + b;
      RunsSplitAtSeparator(a[1..], c, b, p);
    } else {
      var m := RunLength(a, p);
      assert s == a + ([c] + b);
      RunLengthStops(a, [c] + b, p);
      assert s[0] == a[0];
      assert s[..m] == a[..m];
      assert s[m..] == a[m..] + [c] + b;
      RunsSplitAtSeparator(a[m..], c, b, p);
    }
  }

  /** A text entirely inside the class is a single run. */
  lemma RunsWhole(w: string, p: char -> bool)
    requires w != [] && forall i :: 0 <= i < |w| ==> p(w[i])
    ensures Runs(w, p) == [w]
  {
    RunLengthAll(w, p);
    assert w[..|w|] == w && w[|w|..] == [];
  }

  lemma {:induction false} RunLengthAll(w: string, p: char -> bool)
    requires forall i :: 0 <= i < |w| ==> p(w[i])
    ensures RunLength(w, p) == |w|
    decreases |w|
  {
    if w != [] {
      assert p(w[0]);
      RunLengthAll(w[1..], p);
    }
  }

  predicate NotSpace(c: char) {
    !IsSpace(c)
  }

  /** `s.split()` */
  function Words(s: string): seq<string> {
    Runs(s, NotSpace)
  }

  /** `re.findall(r'\b\w+\b', s)` */
  function WordTokens(s: string): seq<string> {
    Runs(s, IsWordChar)
  }

  predicate OccursAt(s: string, sub: string, i: int) {
    0 <= i && i + |sub| <= |s| && s[i..i + |sub|] == sub
  }

  /** Python's `sub in s` on strings. */
  function Contains(s: string, sub: string): (b: bool)
    ensures b <==> exists i :: OccursAt(s, sub, i)
    decreases |s|
  {
    if |sub| > |s| then false
    else if s[..|sub|] == sub then assert OccursAt(s, sub, 0); true
    else
      var b := Contains(s[1..], sub);
      assert forall i :: OccursAt(s[1..], sub, i) <==> OccursAt(s, sub, i + 1);
      assert forall i :: OccursAt(s, sub, i) && i > 0 ==> OccursAt(s[1..], sub, i - 1);
      b
  }

  /** A substring cannot occur in a text lacking one of its code points. */
  lemma ContainsNeedsChar(s: string, sub: string, c: char)
    requires c in sub && c !in s
    ensures !Contains(s, sub)
  {
    var j :| 0 <= j < |sub| && sub[j] == c;
    forall i ensures !OccursAt(s, sub, i) {
      if 0 <= i && i + |sub| <= |s| {
        assert s[i..i + |sub|][j] == s[i + j] != c;
      }
    }
  }

  /** `any(p in s for p in phrases)` */
  predicate ContainsAny(s: string, phrases: seq<string>) {
    exists p :: p in phrases && Contains(s, p)
  }

  lemma ContainsInfix(a: string, b: string, c: string)
    ensures Contains(a + b + c, b)
  {
    assert OccursAt(a + b + c, b, |a|);
  }

  /** `sep.join(parts)` */
  function Join(parts: seq<string>, sep: string): string {
    if parts == [] then []
    else if |parts| == 1 then parts[0]
    else parts[0] + sep + Join(parts[1..], sep)
  }

  /** Every joined part occurs in the joined text. */
  lemma {:induction false} JoinContainsParts(parts: seq<string>, sep: string, k: nat)
    requires k < |parts|
    ensures Contains(Join(parts, sep), parts[k])
  {
    if |parts| == 1 {
      ContainsInfix([], parts[0], []);
      assert [] + parts[0] + [] == parts[0];
    } else if k == 0 {
      ContainsInfix([], parts[0], sep + Join(parts[1..], sep));
      assert [] + parts[0] + (sep + Join(parts[1..], sep)) == Join(parts, sep);
    } else {
      JoinContainsParts(parts[1..], sep, k - 1);
      var rest := Join(parts[1..], sep);
      var i :| OccursAt(rest, parts[k], i);
      assert OccursAt(Join(parts, sep), parts[k], |parts[0] + sep| + i) by {
        assert Join(parts, sep) == parts[0] + sep + rest;
      }
    }
  }

  function DigitChar(d: nat): (c: char)
    requires d < 10
    ensures '0' <= c <= '9'
  {
    ('0' as int + d) as char
  }

  function DigitValue(c: char): (d: nat)
    requires '0' <= c <= '9'
    ensures d < 10 && DigitChar(d) == c
  {
    c as int - '0' as int
  }

  predicate IsDigits(s: string) {
    forall i :: 0 <= i < |s| ==> '0' <= s[i] <= '9'
  }

  /** `str(n)` for a non-negative integer: its decimal digits, most significant first. */
  function NatToString(n: nat): (r: string)
    ensures r != [] && IsDigits(r)
  {
    if n < 10 then [DigitChar(n)] else NatToString(n / 10) + [DigitChar(n % 10)]
  }

  /** Reads a string of decimal digits back as a number. */
  function ParseNat(s: string): nat
    requires IsDigits(s)
  {
    if s == [] then 0 else 10 * ParseNat(s[..|s| - 1]) + DigitValue(s[|s| - 1])
  }

  /** Printing a page number loses nothing: parsing the digits gives the number back. */
  lemma {:induction false} NatToStringRoundTrip(n: nat)
    ensures ParseNat(NatToString(n)) == n
  {
    if n >= 10 {
      NatToStringRoundTrip(n / 10);
      var r := NatToString(n);
      assert r[..|r| - 1] == NatToString(n / 10);
    }
  }

  /** `str(i)` for any integer. */
  function IntToString(i: int): (r: string)
    ensures r != []
  {
    if i < 0 then "-" + NatToString(-i) else NatToString(i)
  }

  predicate StrictlyAscending(s: seq<int>) {
    forall i, j :: 0 <= i < j < |s| ==> s[i] < s[j]
  }

  predicate IsMin(m: int, s: set<int>) {
    m in s && forall x :: x in s ==> m <= x
  }

  /** `sorted(pages)` for a set of integers: its members, strictly ascending. */
  function SortedSet(s: set<int>): (r: seq<int>)
    ensures StrictlyAscending(r)
    ensures forall x :: x in r <==> x in s
    ensures |r| == |s|
    decreases |s|
  {
    if s == {} then []
    else
      MinExists(s);
      var m :| IsMin(m, s);
      var rest := SortedSet(s - {m});
      assert forall x :: x in rest ==> m < x;
      [m] + rest
  }

  lemma {:induction false} MinExists(s: set<int>)
    requires s != {}
    ensures exists m :: IsMin(m, s)
    decreases |s|
  {
    if forall y :: y !in s {
      assert false;
    }
    var y :| y in s;
    if s != {y} {
      MinExists(s - {y});
      var m :| IsMin(m, s - {y});
      var k := if y < m then y else m;
      forall x | x in s ensures k <= x {
        if x != y { assert x in s - {y}; }
      }
      assert IsMin(k, s);
    } else {
      assert IsMin(y, s);
    }
  }

  lemma SortedSetUnfold(e: set<int>, m: int)
    requires IsMin(m, e)
    ensures SortedSet(e) == [m] + SortedSet(e - {m})
  {
  }

  /** A strictly ascending list is the sorted listing of its own elements. */
  lemma {:induction false} SortedSetOfAscending(s: seq<int>)
    requires StrictlyAscending(s)
    ensures SortedSet(set x | x in s) == s
  {
    if s != [] {
      var e := set x | x in s;
      assert IsMin(s[0], e);
      assert e - {s[0]} == set x | x in s[1..];
      SortedSetOfAscending(s[1..]);
      SortedSetUnfold(e, s[0]);
    }
  }
}
