/** Python `str` operations the engine relies on: ordering, `sorted`,
    `str.replace`, `str.endswith`, and the two version-name patterns. */
module Strings {

  /** Python's `a < b` on `str`: lexicographic by code point, a proper
      prefix is smaller. */
  predicate Less(a: string, b: string)
    decreases |a|
  {
    if |a| == 0 then |b| > 0
    else |b| > 0 && (a[0] < b[0] || (a[0] == b[0] && Less(a[1..], b[1..])))
  }

  predicate LessEq(a: string, b: string) {
    a == b || Less(a, b)
  }

  lemma {:induction false} LessIrreflexive(a: string)
    ensures !Less(a, a)
    decreases |a|
  {
    if |a| > 0 { LessIrreflexive(a[1..]); }
  }

  lemma {:induction false} LessTransitive(a: string, b: string, c: string)
    requires Less(a, b) && Less(b, c)
    ensures Less(a, c)
    decreases |a|
  {
    if |a| > 0 && a[0] == b[0] && b[0] == c[0] {
      LessTransitive(a[1..], b[1..], c[1..]);
    }
  }

  lemma {:induction false} LessTrichotomy(a: string, b: string)
    ensures Less(a, b) || a == b || Less(b, a)
    decreases |a|
  {
    if |a| > 0 && |b| > 0 && a[0] == b[0] {
      LessTrichotomy(a[1..], b[1..]);
      if a[1..] == b[1..] {
        assert a == [a[0]] + a[1..] && b == [b[0]] + b[1..];
      }
    }
  }

  lemma LessAsymmetric(a: string, b: string)
    requires Less(a, b)
    ensures !Less(b, a) && a != b
  {
    LessIrreflexive(a);
    if Less(b, a) { LessTransitive(a, b, a); }
  }

  /** Ascending order as Python's `sorted` produces it. */
  predicate Sorted(s: seq<string>) {
    forall i, j :: 0 <= i < j < |s| ==> LessEq(s[i], s[j])
  }

  function Insert(x: string, s: seq<string>): (r: seq<string>)
    requires Sorted(s)
    ensures Sorted(r) && multiset(r) == multiset(s) + multiset{x}
  {
    if s == [] then [x]
    else if LessEq(x, s[0]) then
      InsertFront(x, s);
      [x] + s
    else
      LessTrichotomy(x, s[0]);
      var t := Insert(x, s[1..]);
      assert s == [s[0]] + s[1..];
      InsertBehind(x, s, t);
      [s[0]] + t
  }

  lemma InsertFront(x: string, s: seq<string>)
    requires Sorted(s) && s != [] && LessEq(x, s[0])
    ensures Sorted([x] + s)
  {
    var r := [x] + s;
    forall i, j | 0 <= i < j < |r| ensures LessEq(r[i], r[j]) {
      if i == 0 && j > 1 {
        assert LessEq(s[0], s[j - 1]);
        if x != s[0] && s[0] != s[j - 1] { LessTransitive(x, s[0], s[j - 1]); }
      }
    }
  }

  lemma InsertBehind(x: string, s: seq<string>, t: seq<string>)
    requires Sorted(s) && s != [] && Less(s[0], x)
    requires Sorted(t) && multiset(t) == multiset(s[1..]) + multiset{x}
    ensures Sorted([s[0]] + t)
  {
    var r := [s[0]] + t;
    forall j | 1 <= j < |r| ensures LessEq(s[0], r[j]) {
      assert r[j] == t[j - 1];
      assert t[j - 1] in multiset(t);
      if t[j - 1] != x {
        assert t[j - 1] in multiset(s[1..]);
        var k :| 0 <= k < |s[1..]| && s[1..][k] == t[j - 1];
        assert s[k + 1] == t[j - 1];
      }
    }
  }

  /** Python's `sorted` on a list of `str` (insertion sort; for strings the
      result depends only on the multiset, see SortUnique). */
  function Sort(s: seq<string>): (r: seq<string>)
    ensures Sorted(r) && multiset(r) == multiset(s)
  {
    if s == [] then []
    else
      assert s == [s[0]] + s[1..];
      Insert(s[0], Sort(s[1..]))
  }

  lemma SortedMinimum(s: seq<string>, x: string)
    requires Sorted(s) && x in multiset(s)
    ensures LessEq(s[0], x)
  {
    var k :| 0 <= k < |s| && s[k] == x;
    if k > 0 { assert LessEq(s[0], s[k]); }
  }

  /** Two ascending sequences with the same elements are equal, so any
      sorting routine gives the result `Sort` gives. */
  lemma {:induction false} SortUnique(a: seq<string>, b: seq<string>)
    requires Sorted(a) && Sorted(b) && multiset(a) == multiset(b)
    ensures a == b
    decreases |a|
  {
    if a != [] {
      SameHead(a, b);
      TailOf(a);
      TailOf(b);
      SortUnique(a[1..], b[1..]);
      assert a == [a[0]] + a[1..] && b == [b[0]] + b[1..];
    } else {
      assert |multiset(b)| == 0;
    }
  }

  lemma SameHead(a: seq<string>, b: seq<string>)
    requires Sorted(a) && Sorted(b) && multiset(a) == multiset(b) && a != []
    ensures b != [] && a[0] == b[0]
  {
    assert a[0] in multiset(a);
    assert b[0] in multiset(b);
    SortedMinimum(a, b[0]);
    SortedMinimum(b, a[0]);
    if a[0] != b[0] { LessAsymmetric(a[0], b[0]); }
  }

  lemma TailOf(a: seq<string>)
    requires Sorted(a) && a != []
    ensures Sorted(a[1..]) && multiset(a[1..]) == multiset(a) - multiset{a[0]}
  {
    assert a == [a[0]] + a[1..];
  }

  /** Python's `s.endswith(suffix)`. */
  predicate EndsWith(s: string, suffix: string) {
    |suffix| <= |s| && s[|s| - |suffix|..] == suffix
  }

  /** Python's `s.replace(pat, rep)`: every non-overlapping occurrence of
      `pat`, scanned left to right; an empty `pat` inserts `rep` around
      every character. */
  function ReplaceAll(s: string, pat: string, rep: string): (r: string)
    ensures pat != [] && |rep| <= |pat| ==> |r| <= |s|
    ensures pat != [] && |s| < |pat| ==> r == s
    decreases |s|
  {
    if pat == [] then
      if s == [] then rep else rep + [s[0]] + ReplaceAll(s[1..], pat, rep)
    else if |s| < |pat| then s
    else if s[..|pat|] == pat then rep + ReplaceAll(s[|pat|..], pat, rep)
    else [s[0]] + ReplaceAll(s[1..], pat, rep)
  }

  /** A string that starts with `pat` has that occurrence replaced;
      `str.replace` then carries on through the rest of the string. */
  lemma ReplaceAllPrefix(pat: string, rest: string, rep: string)
    requires pat != []
    ensures ReplaceAll(pat + rest, pat, rep) == rep + ReplaceAll(rest, pat, rep)
  {
    assert (pat + rest)[..|pat|] == pat;
    assert (pat + rest)[|pat|..] == rest;
  }

  /** `pat` occurs in `s` starting at index `k`. */
  predicate OccursAt(s: string, pat: string, k: int) {
    0 <= k && k + |pat| <= |s| && s[k..k + |pat|] == pat
  }

  /** A string without any occurrence of a non-empty `pat` is unchanged. */
  lemma {:induction false} ReplaceAllAbsent(s: string, pat: string, rep: string)
    requires pat != []
    requires forall k :: !OccursAt(s, pat, k)
    ensures ReplaceAll(s, pat, rep) == s
    decreases |s|
  {
    if |s| >= |pat| {
      assert !OccursAt(s, pat, 0);
      assert s[0..|pat|] == s[..|pat|];
      forall k ensures !OccursAt(s[1..], pat, k) {
        if OccursAt(s[1..], pat, k) {
          assert s[1..][k..k + |pat|] == s[k + 1..k + 1 + |pat|];
          assert OccursAt(s, pat, k + 1);
        }
      }
      ReplaceAllAbsent(s[1..], pat, rep);
      assert s == [s[0]] + s[1..];
    }
  }

  predicate IsDigit(c: char) {
    '0' <= c <= '9'
  }

  /** The glob `v????????`: a `v` followed by exactly eight characters of
      any kind (a directory entry never contains `/`). */
  predicate GlobVersion(name: string) {
    |name| == 9 && name[0] == 'v'
  }

  /** `re.match(r"v\d{8}", name)`: the name STARTS with `v` and eight
      digits; anything may follow. */
  predicate RegexVersion(name: string) {
    |name| >= 9 && name[0] == 'v' && forall k :: 1 <= k < 9 ==> IsDigit(name[k])
  }

  /** A well-formed version identifier: `v` and exactly eight digits. */
  predicate VersionId(name: string) {
    |name| == 9 && RegexVersion(name)
  }

  /** The two patterns agree on well-formed identifiers, the glob also
      accepts non-digits and the regex also accepts longer names. */
  lemma PatternsAgreeOnVersionIds(name: string)
    ensures VersionId(name) <==> GlobVersion(name) && RegexVersion(name)
  {
  }

  lemma PatternsDiffer()
    ensures GlobVersion("vABCDEFGH") && !RegexVersion("vABCDEFGH")
    ensures RegexVersion("v20200101-old") && !GlobVersion("v20200101-old")
  {
    assert !IsDigit("vABCDEFGH"[1]);
  }

  function DigitValue(c: char): nat
    requires IsDigit(c)
  {
    (c as int - '0' as int) as nat
  }

  function Pow10(n: nat): (r: nat)
    ensures r >= 1
  {
    if n == 0 then 1 else 10 * Pow10(n - 1)
  }

  predicate AllDigits(s: string) {
    forall k :: 0 <= k < |s| ==> IsDigit(s[k])
  }

  /** The number a digit string denotes, most significant digit first. */
  function Value(s: string): (r: nat)
    requires AllDigits(s)
    ensures r < Pow10(|s|)
  {
    if s == [] then 0
    else
      TailDigits(s);
      var rest := Value(s[1..]);
      DigitBound(DigitValue(s[0]), rest, Pow10(|s| - 1));
      DigitValue(s[0]) * Pow10(|s| - 1) + rest
  }

  lemma LeadingDigitDominates(x: string, y: string)
    requires AllDigits(x) && AllDigits(y) && |x| == |y| > 0 && x[0] < y[0]
    ensures Value(x) < Value(y)
  {
    TailDigits(x);
    TailDigits(y);
    var p := Pow10(|x| - 1);
    var rx, ry := Value(x[1..]), Value(y[1..]);
    assert Value(x) == DigitValue(x[0]) * p + rx;
    assert Value(y) == DigitValue(y[0]) * p + ry;
    Dominates(DigitValue(x[0]), DigitValue(y[0]), rx, ry, p);
  }

  lemma TailDigits(s: string)
    requires AllDigits(s) && s != []
    ensures AllDigits(s[1..])
  {
    forall k | 0 <= k < |s[1..]| ensures IsDigit(s[1..][k]) { assert s[1..][k] == s[k + 1]; }
  }

  /** A smaller leading digit outweighs any lower-order remainder. */
  lemma Dominates(dx: nat, dy: nat, rx: nat, ry: nat, p: nat)
    requires dx < dy && rx < p
    ensures dx * p + rx < dy * p + ry
  {
    ScaleMonotone(dx + 1, dy, p);
    assert (dx + 1) * p == dx * p + p;
  }

  lemma DigitBound(d: nat, rest: nat, p: nat)
    requires d <= 9 && rest < p
    ensures d * p + rest < 10 * p
  {
    ScaleMonotone(d, 9, p);
  }

  lemma ScaleMonotone(a: nat, b: nat, p: nat)
    requires a <= b
    ensures a * p <= b * p
  {
  }

  /** On digit strings of one length, string order is numeric order. */
  lemma {:induction false} DigitOrder(x: string, y: string)
    requires AllDigits(x) && AllDigits(y) && |x| == |y|
    ensures Less(x, y) <==> Value(x) < Value(y)
    decreases |x|
  {
    if |x| > 0 {
      if x[0] < y[0] {
        LeadingDigitDominates(x, y);
      } else if y[0] < x[0] {
        LeadingDigitDominates(y, x);
      } else {
        assert AllDigits(x[1..]) && AllDigits(y[1..]) by {
          forall k | 0 <= k < |x| - 1 ensures IsDigit(x[1..][k]) && IsDigit(y[1..][k]) {
            assert x[1..][k] == x[k + 1] && y[1..][k] == y[k + 1];
          }
        }
        DigitOrder(x[1..], y[1..]);
      }
    }
  }

  /** For two well-formed version identifiers, the engine's string `<`
      and `==` agree with the numeric order of their eight digits. */
  lemma VersionOrderIsNumeric(a: string, b: string)
    requires VersionId(a) && VersionId(b)
    ensures AllDigits(a[1..]) && AllDigits(b[1..])
    ensures Less(a, b) <==> Value(a[1..]) < Value(b[1..])
    ensures a == b <==> Value(a[1..]) == Value(b[1..])
  {
    assert AllDigits(a[1..]) && AllDigits(b[1..]) by {
      forall k | 0 <= k < 8 ensures IsDigit(a[1..][k]) && IsDigit(b[1..][k]) {
        assert a[1..][k] == a[k + 1] && b[1..][k] == b[k + 1];
      }
    }
    DigitOrder(a[1..], b[1..]);
    DigitOrder(b[1..], a[1..]);
    LessTrichotomy(a[1..], b[1..]);
    assert a == [a[0]] + a[1..] && b == [b[0]] + b[1..];
    if a[1..] == b[1..] { LessIrreflexive(a[1..]); }
  }
}
