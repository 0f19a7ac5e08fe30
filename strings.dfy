/** ASCII models of the Python string operations the maintenance scripts use:
    whitespace tests, lower-casing, stripping, prefix/suffix/substring tests,
    `str.replace` (all occurrences or the first one) and `<` on strings. */
module Strings {

  datatype Option<T> = None | Some(value: T)

  /** Python's `str.isspace` restricted to the Latin-1 range: the ASCII
      whitespace characters, the four separator characters U+001C..U+001F,
      NEXT LINE and NO-BREAK SPACE. The same set is what `\s` matches. */
  predicate IsSpace(c: char) {
    c == ' ' || ('\t' <= c <= '\r') || ('\U{1C}' <= c <= '\U{1F}') || c == '\U{85}' || c == '\U{A0}'
  }

  predicate AllSpace(s: string) {
    forall i :: 0 <= i < |s| ==> IsSpace(s[i])
  }

  predicate IsUpper(c: char) { 'A' <= c <= 'Z' }

  /** `str.lower` on one ASCII character. */
  function LowerChar(c: char): (r: char)
    ensures !IsUpper(r)
    ensures IsUpper(c) ==> r as int == c as int + 32
    ensures !IsUpper(c) ==> r == c
  {
    if IsUpper(c) then (c as int + 32) as char else c
  }

  /** `str.lower`, ASCII letters only. */
  function Lower(s: string): (r: string)
    ensures |r| == |s|
    ensures forall i :: 0 <= i < |s| ==> r[i] == LowerChar(s[i])
  {
    if s == [] then [] else [LowerChar(s[0])] + Lower(s[1..])
  }

  predicate NoUpper(s: string) {
    forall i :: 0 <= i < |s| ==> !IsUpper(s[i])
  }

  /** `str.rstrip()`: the longest prefix that does not end in whitespace. */
  function RStrip(s: string): (r: string)
    ensures |r| <= |s| && r == s[..|r|]
    ensures AllSpace(s[|r|..])
    ensures r == [] || !IsSpace(r[|r| - 1])
  {
    if s == [] then []
    else if IsSpace(s[|s| - 1]) then RStrip(s[..|s| - 1])
    else s
  }

  /** `str.lstrip()`: the longest suffix that does not start with whitespace. */
  function LStrip(s: string): (r: string)
    ensures |r| <= |s| && r == s[|s| - |r|..]
    ensures AllSpace(s[..|s| - |r|])
    ensures r == [] || !IsSpace(r[0])
  {
    if s == [] then []
    else if IsSpace(s[0]) then LStrip(s[1..])
    else s
  }

  /** `str.strip()`. */
  function Strip(s: string): (r: string)
    ensures r == [] || (!IsSpace(r[0]) && !IsSpace(r[|r| - 1]))
    ensures |r| <= |s|
  {
    RStrip(LStrip(s))
  }

  lemma {:induction false} RStripOfClean(s: string)
    requires s == [] || !IsSpace(s[|s| - 1])
    ensures RStrip(s) == s
  {
  }

  lemma {:induction false} LStripOfClean(s: string)
    requires s == [] || !IsSpace(s[0])
    ensures LStrip(s) == s
  {
  }

  /** A string that neither starts nor ends with whitespace is its own strip. */
  lemma StripOfClean(s: string)
    requires s == [] || (!IsSpace(s[0]) && !IsSpace(s[|s| - 1]))
    ensures Strip(s) == s
  {
    LStripOfClean(s);
    RStripOfClean(s);
  }

  /** Stripping adds no character. */
  lemma StripKeepsChars(s: string, c: char)
    ensures c in Strip(s) ==> c in s
  {
    var l := LStrip(s);
    var r := RStrip(l);
    if c in r {
      var i :| 0 <= i < |r| && r[i] == c;
      assert l[i] == c;
      assert s[|s| - |l| + i] == c;
    }
  }

  lemma {:induction false} RStripAllSpace(s: string)
    ensures RStrip(s) == [] <==> AllSpace(s)
  {
    var r := RStrip(s);
    if r == [] {
      assert s[|r|..] == s;
    } else {
      assert s[|r| - 1] == r[|r| - 1];
    }
  }

  lemma {:induction false} StripEmptyIffAllSpace(s: string)
    ensures Strip(s) == [] <==> AllSpace(s)
  {
    var l := LStrip(s);
    RStripAllSpace(l);
    if l == [] {
      assert s[..|s| - |l|] == s;
    } else {
      assert !IsSpace(l[0]);
      assert s[|s| - |l|] == l[0];
      assert !AllSpace(s);
    }
  }

  /** `s.startswith(p)`. */
  predicate StartsWith(s: string, p: string) {
    |p| <= |s| && s[..|p|] == p
  }

  /** `s.endswith(p)`. */
  predicate EndsWith(s: string, p: string) {
    |p| <= |s| && s[|s| - |p|..] == p
  }

  /** `a in s` for strings: some suffix of `s` starts with `a`. */
  predicate Contains(s: string, a: string)
    decreases |s|
  {
    StartsWith(s, a) || (s != [] && Contains(s[1..], a))
  }

  /** `a` occurs in `s` at position `i`. */
  predicate OccursAt(s: string, a: string, i: int) {
    0 <= i && i + |a| <= |s| && s[i..i + |a|] == a
  }

  lemma {:induction false} ContainsIffOccurs(s: string, a: string)
    ensures Contains(s, a) <==> exists i :: OccursAt(s, a, i)
    decreases |s|
  {
    if StartsWith(s, a) {
      assert OccursAt(s, a, 0);
    } else if s != [] {
      ContainsIffOccurs(s[1..], a);
      if exists i :: OccursAt(s[1..], a, i) {
        var i :| OccursAt(s[1..], a, i);
        assert s[i + 1..i + 1 + |a|] == s[1..][i..i + |a|];
        assert OccursAt(s, a, i + 1);
      }
      if exists i :: OccursAt(s, a, i) {
        var i :| OccursAt(s, a, i);
        assert i != 0;
        assert s[1..][i - 1..i - 1 + |a|] == s[i..i + |a|];
        assert OccursAt(s[1..], a, i - 1);
      }
    }
  }

  /** A text that contains `a + b` contains `a`. */
  lemma ContainsOfLonger(s: string, a: string, b: string)
    requires Contains(s, a + b)
    ensures Contains(s, a)
  {
    ContainsIffOccurs(s, a + b);
    ContainsIffOccurs(s, a);
    var i :| OccursAt(s, a + b, i);
    assert s[i..i + |a|] == s[i..i + |a + b|][..|a|];
    assert OccursAt(s, a, i);
  }

  lemma ContainsOfLongerEnd(s: string, a: string, b: string)
    requires Contains(s, a + b)
    ensures Contains(s, b)
  {
    ContainsIffOccurs(s, a + b);
    ContainsIffOccurs(s, b);
    var i :| OccursAt(s, a + b, i);
    assert s[i + |a|..i + |a| + |b|] == s[i..i + |a + b|][|a|..];
    assert OccursAt(s, b, i + |a|);
  }

  lemma {:induction false} ContainsShorter(s: string, a: string)
    requires Contains(s, a)
    ensures |a| <= |s|
    decreases |s|
  {
    if !StartsWith(s, a) {
      ContainsShorter(s[1..], a);
    }
  }

  lemma ContainsItself(s: string)
    ensures Contains(s, s)
  {
    assert s[..|s|] == s;
  }

  /** An occurrence inside a part of a concatenation is an occurrence of the whole. */
  lemma {:induction false} ContainsInMiddle(x: string, a: string, y: string)
    ensures Contains(x + a + y, a)
    decreases |x|
  {
    if x == [] {
      assert (x + a + y)[..|a|] == a;
    } else {
      assert (x + a + y)[1..] == x[1..] + a + y;
      ContainsInMiddle(x[1..], a, y);
    }
  }

  lemma {:induction false} ContainsSuffix(s: string, a: string, k: nat)
    requires k <= |s|
    requires Contains(s[k..], a)
    ensures Contains(s, a)
    decreases k
  {
    if k > 0 {
      assert s[1..][k - 1..] == s[k..];
      ContainsSuffix(s[1..], a, k - 1);
    } else {
      assert s[k..] == s;
    }
  }

  lemma {:induction false} ContainsPrefix(s: string, a: string, n: nat)
    requires n <= |s|
    requires Contains(s[..n], a)
    ensures Contains(s, a)
  {
    ContainsIffOccurs(s[..n], a);
    var i :| OccursAt(s[..n], a, i);
    assert s[i..i + |a|] == s[..n][i..i + |a|];
    assert OccursAt(s, a, i);
    ContainsIffOccurs(s, a);
  }

  /** A character is a one-character substring exactly when it is a member. */
  lemma {:induction false} ContainsChar(s: string, c: char)
    ensures Contains(s, [c]) <==> c in s
    decreases |s|
  {
    if s != [] {
      ContainsChar(s[1..], c);
      assert s == [s[0]] + s[1..];
    }
  }

  /** Index of the first occurrence of `a` in `s` (`str.find`). */
  function FindFirst(s: string, a: string): (r: Option<nat>)
    ensures r.Some? <==> Contains(s, a)
    ensures r.Some? ==> OccursAt(s, a, r.value)
    ensures r.Some? ==> forall j :: 0 <= j < r.value ==> !OccursAt(s, a, j)
    decreases |s|
  {
    if StartsWith(s, a) then Some(0)
    else if s == [] then None
    else match FindFirst(s[1..], a)
      case None => None
      case Some(i) => OccursShift(s, a); Some(i + 1)
  }

  lemma OccursShift(s: string, a: string)
    requires s != []
    ensures forall j :: 1 <= j ==> (OccursAt(s, a, j) <==> OccursAt(s[1..], a, j - 1))
  {
    forall j | 1 <= j
      ensures OccursAt(s, a, j) <==> OccursAt(s[1..], a, j - 1)
    {
      if j + |a| <= |s| {
        assert s[j..j + |a|] == s[1..][j - 1..j - 1 + |a|];
      }
    }
  }

  /** The index of the first `c` in `s`, `s.find(c)` for one character. */
  function IndexOf(s: string, c: char): (r: Option<nat>)
    ensures r.Some? ==> r.value < |s| && s[r.value] == c
    ensures forall j :: 0 <= j < |s| && (r.None? || j < r.value) ==> s[j] != c
  {
    if s == [] then None
    else if s[0] == c then Some(0)
    else match IndexOf(s[1..], c)
      case None => None
      case Some(i) => Some(i + 1)
  }

  /** `s.replace(a, b)`: scan left to right and replace every
      non-overlapping occurrence of `a` by `b`. The scripts only call it
      with a non-empty `a`. */
  function ReplaceAll(s: string, a: string, b: string): string
    requires |a| > 0
    decreases |s|
  {
    if |s| < |a| then s
    else if s[..|a|] == a then b + ReplaceAll(s[|a|..], a, b)
    else [s[0]] + ReplaceAll(s[1..], a, b)
  }

  /** `s.replace(a, b, 1)`. */
  function ReplaceFirst(s: string, a: string, b: string): (r: string)
    requires |a| > 0
    ensures !Contains(s, a) ==> r == s
    ensures Contains(s, a) ==> exists i :: OccursAt(s, a, i) && r == s[..i] + b + s[i + |a|..]
  {
    match FindFirst(s, a)
    case None => s
    case Some(i) => s[..i] + b + s[i + |a|..]
  }

  /** Nothing to replace: `s.replace(a, b)` is `s`. */
  lemma {:induction false} ReplaceAllAbsent(s: string, a: string, b: string)
    requires |a| > 0 && !Contains(s, a)
    ensures ReplaceAll(s, a, b) == s
    decreases |s|
  {
    if |s| >= |a| {
      assert s[..|a|] != a;
      ReplaceAllAbsent(s[1..], a, b);
    }
  }

  /** If `a` occurs and differs from `b`, `s.replace(a, b)` changes `s`. */
  lemma {:induction false} ReplaceAllChanges(s: string, a: string, b: string)
    requires |a| > 0 && a != b
    ensures ReplaceAll(s, a, b) == s <==> !Contains(s, a)
    decreases |s|
  {
    if !Contains(s, a) {
      ReplaceAllAbsent(s, a, b);
    } else if |s| < |a| {
      ContainsShorter(s, a);
    } else if s[..|a|] == a {
      var rest := ReplaceAll(s[|a|..], a, b);
      ReplaceAllLength(s[|a|..], a, b);
      if |b| == |a| {
        var t :| 0 <= t < |a| && a[t] != b[t];
        assert (b + rest)[t] == b[t];
        assert s[t] == a[t];
      } else {
        ReplaceAllLengthStrict(s, a, b);
      }
    } else {
      ReplaceAllChanges(s[1..], a, b);
    }
  }

  /** `s.replace(a, b)` never shrinks when `b` is at least as long as `a`. */
  lemma {:induction false} ReplaceAllLength(s: string, a: string, b: string)
    requires |a| > 0
    ensures |b| >= |a| ==> |ReplaceAll(s, a, b)| >= |s|
    ensures |b| <= |a| ==> |ReplaceAll(s, a, b)| <= |s|
    decreases |s|
  {
    if |s| >= |a| {
      if s[..|a|] == a {
        ReplaceAllLength(s[|a|..], a, b);
      } else {
        ReplaceAllLength(s[1..], a, b);
      }
    }
  }

  /** Replacing one character by another maps the text character by
      character. */
  lemma {:induction false} ReplaceCharAt(s: string, a: char, b: char)
    ensures |ReplaceAll(s, [a], [b])| == |s|
    ensures forall i :: 0 <= i < |s| ==> ReplaceAll(s, [a], [b])[i] == if s[i] == a then b else s[i]
    decreases |s|
  {
    if |s| >= 1 {
      ReplaceCharAt(s[1..], a, b);
      var rest := ReplaceAll(s[1..], [a], [b]);
      if s[..1] == [a] {
        assert ReplaceAll(s, [a], [b]) == [b] + rest;
      } else {
        assert s[0] != a by { assert s[..1] == [s[0]]; }
        assert ReplaceAll(s, [a], [b]) == [s[0]] + rest;
      }
      assert forall i :: 1 <= i < |s| ==> s[1..][i - 1] == s[i];
    }
  }

  lemma {:induction false} ReplaceAllLengthStrict(s: string, a: string, b: string)
    requires |a| > 0 && |a| != |b| && Contains(s, a)
    ensures |ReplaceAll(s, a, b)| != |s|
    ensures |b| > |a| ==> |ReplaceAll(s, a, b)| > |s|
    ensures |b| < |a| ==> |ReplaceAll(s, a, b)| < |s|
    decreases |s|
  {
    ContainsShorter(s, a);
    if s[..|a|] == a {
      ReplaceAllLength(s[|a|..], a, b);
    } else {
      assert !StartsWith(s, a);
      ReplaceAllLengthStrict(s[1..], a, b);
    }
  }

  /** After `s.replace(a, b)` with `a` present, the result contains `b`. */
  lemma {:induction false} ReplaceAllIntroduces(s: string, a: string, b: string)
    requires |a| > 0 && Contains(s, a)
    ensures Contains(ReplaceAll(s, a, b), b)
    decreases |s|
  {
    ContainsShorter(s, a);
    if s[..|a|] == a {
      assert (b + ReplaceAll(s[|a|..], a, b))[..|b|] == b;
    } else {
      assert !StartsWith(s, a);
      ReplaceAllIntroduces(s[1..], a, b);
      var r := ReplaceAll(s, a, b);
      assert r[1..] == ReplaceAll(s[1..], a, b);
      ContainsSuffix(r, b, 1);
    }
  }

  // ---------------------------------------------------------------------
  // When does `s.replace(a, b)` leave no occurrence of a string `c` behind?
  // An occurrence in the output either lies inside untouched text, or it
  // overlaps an inserted copy of `b`. `NoCross(c, b)` rules out the second
  // kind: `c` cannot start inside `b`, and no proper suffix of `c` can
  // continue into `b`.
  // ---------------------------------------------------------------------

  /** One of `x`, `y` is a prefix of the other. */
  predicate Compatible(x: string, y: string) {
    if |x| <= |y| then y[..|x|] == x else x[..|y|] == y
  }

  predicate NoCross(c: string, b: string) {
    && |b| > 0
    && (forall q :: 0 <= q < |b| ==> !Compatible(c, b[q..]))
    && (forall k :: 0 < k < |c| ==> !Compatible(c[k..], b))
  }

  /** Two strings that differ at a position both reach are not prefixes of
      one another. */
  lemma Incompatible(x: string, y: string, i: int)
    requires 0 <= i < |x| && i < |y| && x[i] != y[i]
    ensures !Compatible(x, y)
  {
    if |x| <= |y| {
      assert y[..|x|][i] == y[i];
    } else {
      assert x[..|y|][i] == x[i];
    }
  }

  lemma {:induction false} CompatibleOfPrefix(x: string, b: string, rest: string)
    requires StartsWith(b + rest, x)
    ensures Compatible(x, b)
  {
    if |x| <= |b| {
      assert (b + rest)[..|x|] == b[..|x|];
    } else {
      assert x[..|b|] == (b + rest)[..|b|];
    }
  }

  /** If the output of a replacement starts with a suffix of `c`, so does the input. */
  lemma {:induction false} ReplaceAllPrefixBack(s: string, a: string, b: string, c: string, k: nat)
    requires |a| > 0 && NoCross(c, b) && k < |c|
    requires StartsWith(ReplaceAll(s, a, b), c[k..])
    ensures StartsWith(s, c[k..])
    decreases |s|
  {
    if |s| < |a| {
    } else if s[..|a|] == a {
      assert b[0..] == b && c[0..] == c;
      assert !Compatible(c[k..], b);
      CompatibleOfPrefix(c[k..], b, ReplaceAll(s[|a|..], a, b));
      assert false;
    } else {
      var r := ReplaceAll(s, a, b);
      assert r == [s[0]] + ReplaceAll(s[1..], a, b);
      assert c[k] == r[0] == s[0];
      if k + 1 < |c| {
        assert c[k + 1..] == c[k..][1..];
        assert ReplaceAll(s[1..], a, b)[..|c| - k - 1] == r[1..|c| - k];
        ReplaceAllPrefixBack(s[1..], a, b, c, k + 1);
        assert s[..|c| - k] == [s[0]] + s[1..][..|c| - k - 1];
      } else {
        assert c[k..] == [c[k]];
      }
    }
  }

  /** An occurrence of `c` in `x + y` starts inside `x` or lies inside `y`. */
  lemma {:induction false} ContainsConcat(x: string, y: string, c: string)
    requires Contains(x + y, c)
    ensures Contains(y, c) || exists q :: 0 <= q < |x| && StartsWith(x[q..] + y, c)
    decreases |x|
  {
    if x == [] {
      assert x + y == y;
    } else if StartsWith(x + y, c) {
      assert x[0..] == x;
    } else {
      assert (x + y)[1..] == x[1..] + y;
      ContainsConcat(x[1..], y, c);
      if exists q :: 0 <= q < |x[1..]| && StartsWith(x[1..][q..] + y, c) {
        var q :| 0 <= q < |x[1..]| && StartsWith(x[1..][q..] + y, c);
        assert x[1..][q..] == x[q + 1..];
      }
    }
  }

  /** The central fact: `s.replace(a, b)` leaves no occurrence of `c` when
      `c` cannot overlap an inserted `b`, and `c` is either the replaced
      string itself or absent from the input. */
  lemma {:induction false} ReplaceAllLeavesNo(s: string, a: string, b: string, c: string)
    requires |a| > 0 && |c| > 0 && NoCross(c, b)
    requires c == a || !Contains(s, c)
    ensures !Contains(ReplaceAll(s, a, b), c)
    decreases |s|
  {
    var r := ReplaceAll(s, a, b);
    if |s| < |a| {
      if Contains(r, c) {
        ContainsShorter(r, c);
      }
    } else if s[..|a|] == a {
      var rest := ReplaceAll(s[|a|..], a, b);
      if !Contains(s[|a|..], c) || c == a {
      } else {
        ContainsSuffix(s, c, |a|);
      }
      ReplaceAllLeavesNo(s[|a|..], a, b, c);
      if Contains(r, c) {
        ContainsConcat(b, rest, c);
        var q :| 0 <= q < |b| && StartsWith(b[q..] + rest, c);
        CompatibleOfPrefix(c, b[q..], rest);
      }
    } else {
      var rest := ReplaceAll(s[1..], a, b);
      assert r == [s[0]] + rest;
      ReplaceAllLeavesNo(s[1..], a, b, c);
      if Contains(r, c) {
        assert r[1..] == rest;
        assert StartsWith(r, c);
        assert c[0..] == c;
        ReplaceAllPrefixBack(s, a, b, c, 0);
        assert false;
      }
    }
  }

  /** Consequence: under `NoCross(a, b)`, `s.replace(a, b)` is idempotent. */
  lemma ReplaceAllIdempotent(s: string, a: string, b: string)
    requires |a| > 0 && NoCross(a, b)
    ensures ReplaceAll(ReplaceAll(s, a, b), a, b) == ReplaceAll(s, a, b)
  {
    ReplaceAllLeavesNo(s, a, b, a);
    ReplaceAllAbsent(ReplaceAll(s, a, b), a, b);
  }

  // ---------------------------------------------------------------------
  // Python's ordering of strings: lexicographic by code point.
  // ---------------------------------------------------------------------

  predicate Less(x: string, y: string)
    decreases |x|
  {
    if x == [] then y != []
    else if y == [] then false
    else x[0] < y[0] || (x[0] == y[0] && Less(x[1..], y[1..]))
  }

  lemma {:induction false} LessIrreflexive(x: string)
    ensures !Less(x, x)
    decreases |x|
  {
    if x != [] { LessIrreflexive(x[1..]); }
  }

  lemma {:induction false} LessTransitive(x: string, y: string, z: string)
    requires Less(x, y) && Less(y, z)
    ensures Less(x, z)
    decreases |x|
  {
    if x != [] && x[0] == y[0] && y[0] == z[0] {
      LessTransitive(x[1..], y[1..], z[1..]);
    }
  }

  lemma {:induction false} LessTotal(x: string, y: string)
    ensures x == y || Less(x, y) || Less(y, x)
    decreases |x|
  {
    if x != [] && y != [] && x[0] == y[0] {
      LessTotal(x[1..], y[1..]);
      if x[1..] == y[1..] {
        assert x == [x[0]] + x[1..] && y == [y[0]] + y[1..];
      }
    }
  }

  /** Strictly ascending in code-point order, as `sorted` leaves distinct
      strings. */
  predicate Ascending(names: seq<string>) {
    forall i, j :: 0 <= i < j < |names| ==> Less(names[i], names[j])
  }

  /** `m` is the least element of `s`. */
  predicate IsLeast(m: string, s: set<string>) {
    m in s && forall x :: x in s && x != m ==> Less(m, x)
  }

  /** A finite set of strings has a least element. */
  lemma {:induction false} LeastExists(s: set<string>)
    requires s != {}
    ensures exists m :: IsLeast(m, s)
    decreases |s|
  {
    var y :| y in s;
    if s == {y} {
      assert IsLeast(y, s);
    } else {
      LeastExists(s - {y});
      var m :| IsLeast(m, s - {y});
      LessTotal(m, y);
      if Less(y, m) {
        forall x | x in s && x != y ensures Less(y, x) {
          if x != m {
            LessTransitive(y, m, x);
          }
        }
        assert IsLeast(y, s);
      } else {
        assert IsLeast(m, s);
      }
    }
  }

  /** `sorted(s)` for a set of strings. */
  function SortedNames(s: set<string>): (names: seq<string>)
    ensures |names| == |s|
    ensures forall x :: x in names <==> x in s
    ensures Ascending(names)
    decreases |s|
  {
    if s == {} then []
    else
      LeastExists(s);
      LeastUnique(s);
      var m :| IsLeast(m, s);
      var rest := SortedNames(s - {m});
      assert forall j :: 0 <= j < |rest| ==> rest[j] in s - {m};
      AscendingCons(m, rest);
      [m] + rest
  }

  lemma LeastUnique(s: set<string>)
    ensures forall a, b :: IsLeast(a, s) && IsLeast(b, s) ==> a == b
  {
    forall a, b | IsLeast(a, s) && IsLeast(b, s) ensures a == b {
      if a != b {
        LessTransitive(a, b, a);
        LessIrreflexive(a);
      }
    }
  }

  lemma AscendingCons(m: string, rest: seq<string>)
    requires Ascending(rest) && forall j :: 0 <= j < |rest| ==> Less(m, rest[j])
    ensures Ascending([m] + rest)
  {
    var r := [m] + rest;
    forall i, j | 0 <= i < j < |r| ensures Less(r[i], r[j]) {
      assert r[j] == rest[j - 1];
      if i > 0 {
        assert r[i] == rest[i - 1];
      }
    }
  }

  /** The first name of a strictly ascending list is the least of its
      members. */
  lemma AscendingHeadLeast(a: seq<string>)
    requires Ascending(a) && a != []
    ensures IsLeast(a[0], set x | x in a)
  {
    forall x | x in a && x != a[0] ensures Less(a[0], x) {
      var k :| 0 <= k < |a| && a[k] == x;
    }
  }

  /** Dropping the first name of a strictly ascending list drops exactly
      that name and keeps the list ascending. */
  lemma AscendingTail(a: seq<string>)
    requires Ascending(a) && a != []
    ensures Ascending(a[1..])
    ensures forall x :: x in a[1..] <==> x in a && x != a[0]
  {
    var t := a[1..];
    forall i, j | 0 <= i < j < |t| ensures Less(t[i], t[j]) {
      assert t[i] == a[i + 1] && t[j] == a[j + 1];
    }
    forall x ensures x in t <==> x in a && x != a[0] {
      if x in t {
        var k :| 0 <= k < |t| && t[k] == x;
        assert a[k + 1] == x;
        LessIrreflexive(x);
      }
      if x in a && x != a[0] {
        var k :| 0 <= k < |a| && a[k] == x;
        assert t[k - 1] == x;
      }
    }
  }

  /** Two strictly ascending lists with the same members are the same
      list: `sorted` has one result. */
  lemma {:induction false} AscendingUnique(a: seq<string>, b: seq<string>)
    requires Ascending(a) && Ascending(b)
    requires forall x :: x in a <==> x in b
    ensures a == b
    decreases |a|
  {
    if a != [] && b != [] {
      assert (set x | x in a) == (set x | x in b);
      AscendingHeadLeast(a);
      AscendingHeadLeast(b);
      LeastUnique(set x | x in a);
      AscendingTail(a);
      AscendingTail(b);
      AscendingUnique(a[1..], b[1..]);
      assert a == [a[0]] + a[1..] && b == [b[0]] + b[1..];
    } else {
      FirstIsMember(a);
      FirstIsMember(b);
    }
  }

  lemma FirstIsMember<T>(a: seq<T>)
    ensures a != [] ==> a[0] in a
  {
  }

  // ---------------------------------------------------------------------
  // `str.lstrip(chars)` and `str(n)`.
  // ---------------------------------------------------------------------

  /** `s.lstrip(chars)`: drop leading characters that belong to the set
      `chars` (a set of characters, not a prefix). */
  function LStripChars(s: string, chars: set<char>): (r: string)
    ensures |r| <= |s| && r == s[|s| - |r|..]
    ensures forall i :: 0 <= i < |s| - |r| ==> s[i] in chars
    ensures r == [] || r[0] !in chars
    decreases |s|
  {
    if s != [] && s[0] in chars then LStripChars(s[1..], chars) else s
  }

  /** Leading characters of the set all go, whatever their order. */
  lemma {:induction false} LStripCharsSkips(prefix: string, rest: string, chars: set<char>)
    requires forall k :: 0 <= k < |prefix| ==> prefix[k] in chars
    requires rest == [] || rest[0] !in chars
    ensures LStripChars(prefix + rest, chars) == rest
  {
    if prefix == [] {
      assert prefix + rest == rest;
    } else {
      var s := prefix + rest;
      assert s[0] == prefix[0];
      assert s[1..] == prefix[1..] + rest;
      LStripCharsSkips(prefix[1..], rest, chars);
    }
  }

  predicate IsDigit(c: char) { '0' <= c <= '9' }

  /** `str(n)` for a natural number: its decimal digits, without leading
      zeros. */
  function DecimalString(n: nat): (r: string)
    ensures r != [] && forall i :: 0 <= i < |r| ==> IsDigit(r[i])
    ensures |r| > 1 ==> r[0] != '0'
  {
    if n < 10 then [('0' as int + n) as char]
    else DecimalString(n / 10) + [('0' as int + n % 10) as char]
  }

  /** `int(s)` for a string of decimal digits. */
  function DigitsValue(s: string): nat
    requires forall i :: 0 <= i < |s| ==> IsDigit(s[i])
    decreases |s|
  {
    if s == [] then 0
    else
      assert IsDigit(s[|s| - 1]);
      DigitsValue(s[..|s| - 1]) * 10 + (s[|s| - 1] as int - '0' as int)
  }

  /** `int(str(n)) == n`. */
  lemma {:induction false} DecimalRoundTrip(n: nat)
    ensures DigitsValue(DecimalString(n)) == n
    decreases n
  {
    if n >= 10 {
      var r := DecimalString(n);
      DecimalRoundTrip(n / 10);
      assert r[..|r| - 1] == DecimalString(n / 10);
    }
  }

  /** Distinct numbers have distinct decimal strings. */
  lemma DecimalInjective(m: nat, n: nat)
    ensures DecimalString(m) == DecimalString(n) <==> m == n
  {
    DecimalRoundTrip(m);
    DecimalRoundTrip(n);
  }

  // Regrouping concatenations, kept apart from any function of the
  // texts involved.

  lemma SliceOfConcat<T>(a: seq<T>, b: seq<T>, k: nat)
    requires k <= |a|
    ensures (a + b)[k..] == a[k..] + b
  {
  }

  lemma TailOfConcat<T>(a: seq<T>, b: seq<T>)
    requires a != []
    ensures (a + b)[0] == a[0] && (a + b)[1..] == a[1..] + b
  {
  }

  lemma AppendRegroup<T>(h: seq<T>, x: seq<T>, y: seq<T>)
    ensures h + (x + y) == (h + x) + y
  {
  }
}
