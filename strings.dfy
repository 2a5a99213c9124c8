/**
 * String operations of the JavaScript runtime that the site relies on:
 * `trim`, `endsWith`, `includes`, `toLowerCase`, `Number.prototype.toString`
 * for integers, and the code-point order used by `sort` and `localeCompare`.
 */
module Strings {

  /** WhiteSpace and LineTerminator code points of ECMAScript, the ones `trim` removes. */
  predicate IsJsWhitespace(c: char) {
    c == '\t' || c == '\n' || c == '\U{B}' || c == '\U{C}' || c == '\r' || c == ' '
    || c == '\U{A0}' || c == '\U{1680}' || ('\U{2000}' <= c <= '\U{200A}')
    || c == '\U{2028}' || c == '\U{2029}' || c == '\U{202F}' || c == '\U{205F}'
    || c == '\U{3000}' || c == '\U{FEFF}'
  }

  predicate AllWhitespace(s: string) {
    forall i :: 0 <= i < |s| ==> IsJsWhitespace(s[i])
  }

  /** Drops the longest whitespace prefix. */
  function TrimStart(s: string): (r: string)
    ensures |r| <= |s|
  {
    if s != [] && IsJsWhitespace(s[0]) then TrimStart(s[1..]) else s
  }

  /** What TrimStart drops is whitespace, and what it keeps does not start with whitespace. */
  lemma {:induction false} TrimStartShape(s: string)
    ensures var r := TrimStart(s);
      r == s[|s| - |r|..]
      && (r == [] || !IsJsWhitespace(r[0]))
      && forall i :: 0 <= i < |s| - |r| ==> IsJsWhitespace(s[i])
  {
    if s != [] && IsJsWhitespace(s[0]) {
      TrimStartShape(s[1..]);
    }
  }

  /** Drops the longest whitespace suffix. */
  function TrimEnd(s: string): (r: string)
    ensures |r| <= |s|
  {
    if s != [] && IsJsWhitespace(s[|s| - 1]) then TrimEnd(s[..|s| - 1]) else s
  }

  /** What TrimEnd drops is whitespace, and what it keeps does not end with whitespace. */
  lemma {:induction false} TrimEndShape(s: string)
    ensures var r := TrimEnd(s);
      r == s[..|r|]
      && (r == [] || !IsJsWhitespace(r[|r| - 1]))
      && forall i :: |r| <= i < |s| ==> IsJsWhitespace(s[i])
  {
    if s != [] && IsJsWhitespace(s[|s| - 1]) {
      TrimEndShape(s[..|s| - 1]);
    }
  }

  /** Number of whitespace code points at the start of `s`. */
  function LeadingSpace(s: string): (n: nat)
    ensures n <= |s|
  {
    |s| - |TrimStart(s)|
  }

  /** `String.prototype.trim`: drops leading and trailing whitespace. */
  function Trim(s: string): string {
    TrimEnd(TrimStart(s))
  }

  /**
   * The trimmed string is the slice of `s` that starts after the leading
   * whitespace and leaves only whitespace behind it; its ends are not whitespace.
   */
  lemma TrimIsSlice(s: string)
    ensures var r := Trim(s); var a := LeadingSpace(s);
      a + |r| <= |s|
      && r == s[a..a + |r|]
      && AllWhitespace(s[..a])
      && AllWhitespace(s[a + |r|..])
      && (r == [] || (!IsJsWhitespace(r[0]) && !IsJsWhitespace(r[|r| - 1])))
  {
    var t := TrimStart(s);
    var r := TrimEnd(t);
    var a := |s| - |t|;
    TrimStartShape(s);
    TrimEndShape(t);
    assert t == s[a..];
    SliceOfSlice(s, t, r, a);
    assert r == [] || r[0] == t[0];
    assert s[a + |r|..] == t[|r|..];
  }

  /** A prefix `r` of the suffix `t` of `s` that starts at `a` sits in `s` at `a`. */
  lemma SliceOfSlice(s: string, t: string, r: string, a: nat)
    requires a <= |s| && t == s[a..] && |r| <= |t| && r == t[..|r|]
    ensures r == s[a..a + |r|]
  {
  }

  /** A trimmed string is empty exactly when the input is all whitespace (the `!x.trim()` test). */
  lemma TrimEmptyIff(s: string)
    ensures Trim(s) == [] <==> AllWhitespace(s)
  {
    var r := Trim(s);
    var a := LeadingSpace(s);
    TrimIsSlice(s);
    if r == [] {
      assert s == s[..a] + s[a..];
    } else {
      assert s[a] == r[0];
    }
  }

  predicate EndsWith(s: string, suffix: string) {
    |suffix| <= |s| && s[|s| - |suffix|..] == suffix
  }

  /** `sub` occurs in `s` at position `i`. */
  predicate OccursAt(s: string, sub: string, i: int) {
    0 <= i <= |s| - |sub| && s[i..i + |sub|] == sub
  }

  /** `s.includes(sub)`, searched from the left. */
  function Includes(s: string, sub: string): (b: bool)
    ensures b <==> exists i :: OccursAt(s, sub, i)
  {
    if |sub| > |s| then false
    else if s[..|sub|] == sub then assert OccursAt(s, sub, 0); true
    else IncludesStep(s, sub); Includes(s[1..], sub)
  }

  /** An occurrence past the first position is an occurrence in the tail. */
  lemma IncludesStep(s: string, sub: string)
    requires |sub| <= |s| && s[..|sub|] != sub
    ensures (exists i :: OccursAt(s, sub, i)) <==> (exists i :: OccursAt(s[1..], sub, i))
  {
    if i :| OccursAt(s, sub, i) {
      assert i != 0;
      forall k | 0 <= k < |sub| ensures s[1..][i - 1 + k] == sub[k] {
        assert s[i..i + |sub|][k] == sub[k];
      }
      assert s[1..][i - 1..i - 1 + |sub|] == sub;
      assert OccursAt(s[1..], sub, i - 1);
    }
    if i :| OccursAt(s[1..], sub, i) {
      assert s[i + 1..i + 1 + |sub|] == s[1..][i..i + |sub|];
      assert OccursAt(s, sub, i + 1);
    }
  }

  /** Lower-case of one character; only the ASCII letters are mapped. */
  function LowerChar(c: char): char {
    if 'A' <= c <= 'Z' then (c as int + 32) as char else c
  }

  /** `s.toLowerCase()` restricted to ASCII letters. */
  function ToLower(s: string): (r: string)
    ensures |r| == |s|
    ensures forall i :: 0 <= i < |s| ==> r[i] == LowerChar(s[i])
  {
    seq(|s|, i requires 0 <= i < |s| => LowerChar(s[i]))
  }

  // ---------------------------------------------------------------------------
  // Decimal rendering of integers (`Date.now().toString()`, `${minutes}`)
  // ---------------------------------------------------------------------------

  predicate IsDigit(c: char) { '0' <= c <= '9' }

  predicate AllDigits(s: string) { forall i :: 0 <= i < |s| ==> IsDigit(s[i]) }

  function DigitChar(d: nat): (c: char)
    requires d < 10
    ensures IsDigit(c) && c as int - '0' as int == d
  {
    ('0' as int + d) as char
  }

  /** Decimal digits of `n`, most significant first, without leading zeros. */
  function NatToString(n: nat): (r: string)
    ensures |r| >= 1 && AllDigits(r)
    ensures |r| > 1 ==> r[0] != '0'
  {
    if n < 10 then [DigitChar(n)] else NatToString(n / 10) + [DigitChar(n % 10)]
  }

  /** The value of a string of decimal digits. */
  function DigitsValue(s: string): nat
    requires AllDigits(s)
  {
    if s == [] then 0 else DigitsValue(s[..|s| - 1]) * 10 + (s[|s| - 1] as int - '0' as int)
  }

  /** Reading back the decimal rendering gives the number again. */
  lemma {:induction false} NatToStringRoundTrip(n: nat)
    ensures DigitsValue(NatToString(n)) == n
  {
    if n >= 10 {
      NatToStringRoundTrip(n / 10);
      var s := NatToString(n);
      assert s[..|s| - 1] == NatToString(n / 10);
    }
  }

  /** `Number.prototype.toString()` of an integer: an optional minus sign and the digits. */
  function IntToString(i: int): (r: string)
    ensures |r| >= 1
    ensures forall k :: 1 <= k < |r| ==> IsDigit(r[k])
    ensures r[0] == '-' <==> i < 0
    ensures IsDigit(r[0]) <==> i >= 0
  {
    if i < 0 then "-" + NatToString(-i) else NatToString(i)
  }

  /** Inverse of IntToString on its image. */
  function ParseInt(s: string): (r: int)
    requires |s| >= 1 && forall k :: 1 <= k < |s| ==> IsDigit(s[k])
    requires s[0] == '-' || IsDigit(s[0])
  {
    if s[0] == '-' then 0 - DigitsValue(s[1..]) else DigitsValue(s)
  }

  /** Decimal rendering round-trips, so distinct clock values give distinct strings. */
  lemma IntToStringRoundTrip(i: int)
    ensures ParseInt(IntToString(i)) == i
  {
    if i < 0 {
      NatToStringRoundTrip(-i);
      assert IntToString(i)[1..] == NatToString(-i);
    } else {
      NatToStringRoundTrip(i);
    }
  }

  lemma IntToStringInjective(i: int, j: int)
    ensures IntToString(i) == IntToString(j) ==> i == j
  {
    IntToStringRoundTrip(i);
    IntToStringRoundTrip(j);
  }

  // ---------------------------------------------------------------------------
  // Code-point lexicographic order (`Array.prototype.sort` default, `localeCompare`)
  // ---------------------------------------------------------------------------

  /** `a` is at most `b` in lexicographic order of code points. */
  predicate LessEq(a: string, b: string) {
    a == [] || (b != [] && (a[0] < b[0] || (a[0] == b[0] && LessEq(a[1..], b[1..]))))
  }

  lemma {:induction false} LessEqTotal(a: string, b: string)
    ensures LessEq(a, b) || LessEq(b, a)
  {
    if a != [] && b != [] && a[0] == b[0] { LessEqTotal(a[1..], b[1..]); }
  }

  lemma {:induction false} LessEqTransitive(a: string, b: string, c: string)
    requires LessEq(a, b) && LessEq(b, c)
    ensures LessEq(a, c)
  {
    if a != [] && a[0] == b[0] && b[0] == c[0] { LessEqTransitive(a[1..], b[1..], c[1..]); }
  }

  lemma {:induction false} LessEqAntisymmetric(a: string, b: string)
    requires LessEq(a, b) && LessEq(b, a)
    ensures a == b
  {
    if a != [] && b != [] { LessEqAntisymmetric(a[1..], b[1..]); }
  }

  predicate SortedAsc(s: seq<string>) {
    forall i, j :: 0 <= i < j < |s| ==> LessEq(s[i], s[j])
  }

  /** Inserts `x` before the first element it does not follow. */
  function Insert(x: string, s: seq<string>): (r: seq<string>)
    requires SortedAsc(s)
    ensures SortedAsc(r)
    ensures multiset(r) == multiset(s) + multiset{x}
    ensures |r| == |s| + 1
  {
    if s == [] then [x]
    else if LessEq(x, s[0]) then InsertFront(x, s); [x] + s
    else
      var t := Insert(x, s[1..]);
      InsertBehind(x, s, t);
      [s[0]] + t
  }

  lemma InsertFront(x: string, s: seq<string>)
    requires SortedAsc(s) && s != [] && LessEq(x, s[0])
    ensures SortedAsc([x] + s) && multiset([x] + s) == multiset(s) + multiset{x}
  {
    forall j | 0 <= j < |s| ensures LessEq(x, s[j]) {
      if j > 0 { LessEqTransitive(x, s[0], s[j]); }
    }
  }

  lemma InsertBehind(x: string, s: seq<string>, t: seq<string>)
    requires SortedAsc(s) && s != [] && !LessEq(x, s[0])
    requires SortedAsc(t) && multiset(t) == multiset(s[1..]) + multiset{x}
    ensures SortedAsc([s[0]] + t) && multiset([s[0]] + t) == multiset(s) + multiset{x}
  {
    LessEqTotal(x, s[0]);
    forall k | 0 <= k < |t| ensures LessEq(s[0], t[k]) {
      assert t[k] in multiset(t);
      if t[k] != x {
        assert t[k] in s[1..];
      }
    }
    assert s == [s[0]] + s[1..];
  }

  /** Insertion sort into ascending code-point order (`Array.prototype.sort()` on strings). */
  function SortStrings(s: seq<string>): (r: seq<string>)
    ensures SortedAsc(r)
    ensures multiset(r) == multiset(s)
    ensures |r| == |s|
  {
    if s == [] then []
    else
      assert s == [s[0]] + s[1..];
      Insert(s[0], SortStrings(s[1..]))
  }

  /** No element occurs twice. */
  predicate Distinct<T(==)>(s: seq<T>) {
    forall i, j :: 0 <= i < j < |s| ==> s[i] != s[j]
  }

  /** In a sequence without repeats every value occurs at most once. */
  lemma {:induction false} DistinctCountAtMostOne<T>(s: seq<T>, x: T)
    requires Distinct(s)
    ensures multiset(s)[x] <= 1
  {
    if s != [] {
      assert s == [s[0]] + s[1..];
      DistinctCountAtMostOne(s[1..], x);
      if s[0] == x {
        assert x !in s[1..];
      }
    }
  }

  /** Two equal entries at different positions make a value occur twice. */
  lemma RepeatCountsTwice<T>(s: seq<T>, i: int, j: int)
    requires 0 <= i < j < |s|
    ensures s[i] == s[j] ==> multiset(s)[s[i]] >= 2
  {
    assert s == s[..i] + [s[i]] + s[i + 1..j] + [s[j]] + s[j + 1..];
  }

  /** Putting a value in front keeps a sequence repeat-free exactly when the value is new. */
  lemma DistinctCons<T>(x: T, s: seq<T>)
    ensures Distinct([x] + s) <==> x !in s && Distinct(s)
  {
    var t := [x] + s;
    if x !in s && Distinct(s) {
      forall i, j | 0 <= i < j < |t| ensures t[i] != t[j] {
        if i == 0 { assert t[j] == s[j - 1]; } else { assert t[i] == s[i - 1] && t[j] == s[j - 1]; }
      }
    }
    if Distinct(t) {
      forall i, j | 0 <= i < j < |s| ensures s[i] != s[j] {
        assert s[i] == t[i + 1] && s[j] == t[j + 1];
      }
      forall k | 0 <= k < |s| ensures s[k] != x {
        assert t[0] == x && t[k + 1] == s[k];
      }
    }
  }

  /** A sequence whose values occur at most once has no repeats. */
  lemma CountAtMostOneDistinct<T>(s: seq<T>)
    requires forall x :: multiset(s)[x] <= 1
    ensures Distinct(s)
  {
    forall i, j | 0 <= i < j < |s| ensures s[i] != s[j] {
      RepeatCountsTwice(s, i, j);
    }
  }

  /** Reordering keeps a repeat-free sequence repeat-free, with the same members. */
  lemma PermutationKeepsDistinct<T>(a: seq<T>, b: seq<T>)
    requires Distinct(a) && multiset(a) == multiset(b)
    ensures Distinct(b)
    ensures forall x :: x in a <==> x in b
  {
    forall x ensures multiset(b)[x] <= 1 {
      DistinctCountAtMostOne(a, x);
    }
    CountAtMostOneDistinct(b);
    forall x ensures x in a <==> x in b {
      assert x in a <==> x in multiset(a);
      assert x in b <==> x in multiset(b);
    }
  }

  /**
   * The keys of a record filled by assigning the values of `s` in turn, in the
   * order they were first assigned (integer-like keys aside, the order of
   * `Object.keys`).
   */
  function InsertionOrder<T(==)>(s: seq<T>): seq<T> {
    if s == [] then []
    else
      var k := InsertionOrder(s[..|s| - 1]);
      if s[|s| - 1] in k then k else k + [s[|s| - 1]]
  }

  /** Those keys are repeat-free and are exactly the values assigned. */
  lemma {:induction false} InsertionOrderShape<T>(s: seq<T>)
    ensures Distinct(InsertionOrder(s))
    ensures forall x :: x in InsertionOrder(s) <==> x in s
  {
    if s != [] {
      var init := s[..|s| - 1];
      var k := InsertionOrder(init);
      InsertionOrderShape(init);
      assert s == init + [s[|s| - 1]];
      if s[|s| - 1] !in k {
        assert forall i :: 0 <= i < |k| ==> k[i] != s[|s| - 1];
      }
    }
  }

  /** Assigning one more key appends it exactly when it is new. */
  lemma InsertionOrderStep<T>(s: seq<T>, x: T)
    ensures InsertionOrder(s + [x]) == if x in s then InsertionOrder(s) else InsertionOrder(s) + [x]
  {
    assert (s + [x])[..|s|] == s;
    InsertionOrderShape(s);
  }

  /** A repeat-free sequence has as many elements as its set. */
  lemma {:induction false} DistinctCard<T>(s: seq<T>)
    requires Distinct(s)
    ensures |set x | x in s| == |s|
  {
    if s != [] {
      var t := s[1..];
      DistinctCard(t);
      assert s[0] !in t by {
        forall k | 0 <= k < |t| ensures t[k] != s[0] { assert t[k] == s[k + 1]; }
      }
      assert (set x | x in s) == (set x | x in t) + {s[0]};
    }
  }

  /**
   * A sorted repeat-free sequence is determined by its set: the displayed list
   * does not depend on the order in which the keys were enumerated.
   */
  lemma {:induction false} SortedDistinctUnique(a: seq<string>, b: seq<string>)
    requires SortedAsc(a) && SortedAsc(b) && Distinct(a) && Distinct(b)
    requires forall x :: x in a <==> x in b
    ensures a == b
  {
    DistinctCard(a);
    DistinctCard(b);
    assert (set x | x in a) == (set x | x in b);
    if a != [] {
      assert a[0] in b;
      var j :| 0 <= j < |b| && b[j] == a[0];
      assert b[0] in b;
      var i :| 0 <= i < |a| && a[i] == b[0];
      LessEqTotal(a[0], a[0]);
      if i > 0 { assert LessEq(a[0], a[i]); }
      if j > 0 { assert LessEq(b[0], b[j]); }
      LessEqAntisymmetric(a[0], b[0]);
      forall x ensures x in a[1..] <==> x in b[1..] {
        if x in a[1..] {
          var k :| 0 <= k < |a[1..]| && a[1..][k] == x;
          assert a[k + 1] == x && a[0] != x;
        }
        if x in b[1..] {
          var k :| 0 <= k < |b[1..]| && b[1..][k] == x;
          assert b[k + 1] == x && b[0] != x;
        }
        assert x in a <==> x == a[0] || x in a[1..] by { assert a == [a[0]] + a[1..]; }
        assert x in b <==> x == b[0] || x in b[1..] by { assert b == [b[0]] + b[1..]; }
      }
      SortedDistinctUnique(a[1..], b[1..]);
      assert a == [a[0]] + a[1..] && b == [b[0]] + b[1..];
    }
  }
  // ---------------------------------------------------------------------------
  // Property order of a record (`Object.keys`, `Object.entries`)
  // ---------------------------------------------------------------------------

  /**
   * A canonical array index (section 6.1.7 of ECMA-262): "0" or decimal digits
   * without a leading zero, below 2^32 - 1.
   */
  predicate IsArrayIndex(s: string) {
    |s| >= 1 && AllDigits(s) && (s[0] != '0' || |s| == 1) && DigitsValue(s) < 0xFFFF_FFFF
  }

  /** The numeric value of a key that is all digits, else 0. */
  function IndexValue(s: string): nat {
    if AllDigits(s) then DigitsValue(s) else 0
  }

  predicate ValueSorted(s: seq<string>) {
    forall i, j :: 0 <= i < j < |s| ==> IndexValue(s[i]) <= IndexValue(s[j])
  }

  function InsertByValue(x: string, s: seq<string>): (r: seq<string>)
    requires ValueSorted(s)
    ensures ValueSorted(r)
    ensures multiset(r) == multiset(s) + multiset{x}
  {
    if s == [] then [x]
    else if IndexValue(x) <= IndexValue(s[0]) then [x] + s
    else
      var t := InsertByValue(x, s[1..]);
      InsertByValueBehind(x, s, t);
      [s[0]] + t
  }

  lemma InsertByValueBehind(x: string, s: seq<string>, t: seq<string>)
    requires ValueSorted(s) && s != [] && IndexValue(s[0]) < IndexValue(x)
    requires ValueSorted(t) && multiset(t) == multiset(s[1..]) + multiset{x}
    ensures ValueSorted([s[0]] + t) && multiset([s[0]] + t) == multiset(s) + multiset{x}
  {
    forall k | 0 <= k < |t| ensures IndexValue(s[0]) <= IndexValue(t[k]) {
      assert t[k] in multiset(t);
      if t[k] != x {
        assert t[k] in s[1..];
      }
    }
    assert s == [s[0]] + s[1..];
  }

  /** Array-index keys in ascending numeric order. */
  function SortByValue(s: seq<string>): (r: seq<string>)
    ensures ValueSorted(r)
    ensures multiset(r) == multiset(s)
  {
    if s == [] then []
    else
      assert s == [s[0]] + s[1..];
      InsertByValue(s[0], SortByValue(s[1..]))
  }

  /** The elements of `s` that are (or are not) array indices, in order. */
  function FilterIndex(s: seq<string>, index: bool): (r: seq<string>)
    ensures forall i :: 0 <= i < |r| ==> IsArrayIndex(r[i]) == index
  {
    if s == [] then []
    else (if IsArrayIndex(s[0]) == index then [s[0]] else []) + FilterIndex(s[1..], index)
  }

  lemma {:induction false} FilterIndexSplits(s: seq<string>)
    ensures multiset(FilterIndex(s, true)) + multiset(FilterIndex(s, false)) == multiset(s)
  {
    if s != [] {
      FilterIndexSplits(s[1..]);
      assert s == [s[0]] + s[1..];
    }
  }

  lemma {:induction false} FilterIndexNone(s: seq<string>)
    requires forall i :: 0 <= i < |s| ==> !IsArrayIndex(s[i])
    ensures FilterIndex(s, true) == [] && FilterIndex(s, false) == s
  {
    if s != [] {
      FilterIndexNone(s[1..]);
      assert s == [s[0]] + s[1..];
    }
  }

  /**
   * The order in which a record enumerates keys that were created in the order
   * `keys` (OrdinaryOwnPropertyKeys, section 10.1.11.1 of ECMA-262): array
   * indices first in ascending numeric order, then the other strings in
   * creation order.
   */
  function PropertyOrder(keys: seq<string>): (r: seq<string>)
    ensures multiset(r) == multiset(keys)
  {
    FilterIndexSplits(keys);
    SortByValue(FilterIndex(keys, true)) + FilterIndex(keys, false)
  }

  /** The array-index keys come first, ascending by value, then the others in creation order. */
  lemma PropertyOrderShape(keys: seq<string>)
    ensures var r, n := PropertyOrder(keys), |FilterIndex(keys, true)|;
      n <= |r| && ValueSorted(r[..n]) && r[n..] == FilterIndex(keys, false)
      && (forall i :: 0 <= i < n ==> IsArrayIndex(r[i]))
  {
    var idx := SortByValue(FilterIndex(keys, true));
    var r := PropertyOrder(keys);
    assert |idx| == |FilterIndex(keys, true)| by {
      assert |multiset(idx)| == |idx|;
    }
    assert r[..|idx|] == idx;
    assert forall i :: 0 <= i < |idx| ==> idx[i] in multiset(FilterIndex(keys, true));
  }

  /** Without array-index keys, a record enumerates its keys in creation order. */
  lemma PropertyOrderPlain(keys: seq<string>)
    requires forall i :: 0 <= i < |keys| ==> !IsArrayIndex(keys[i])
    ensures PropertyOrder(keys) == keys
  {
    FilterIndexNone(keys);
  }
}
