/** scripts/clean_unused_images.py: collect the raw image references of the
    site's pages, stylesheets and scripts with one regular expression, list
    every file below `img/`, and delete, in ascending order, the files no
    reference names. The expression is modelled in two readings: as the
    source writes it (a raw string with every backslash doubled) and as its
    authors evidently meant it. */
module CleanUnusedImages {
  import opened Strings
  import opened Paths
  import opened FindUnusedImages

  // ---------------------------------------------------------------------
  // The recogniser of line 16.
  // ---------------------------------------------------------------------

  /** `AsWritten` reads the raw string as Python's `re` does: `\\` is a
      literal backslash, so every reference must contain `img\/`, the first
      capture class also excludes the letter `s`, and `\\.` before `\\/`
      is a backslash, any character but a newline, a backslash. `Intended` is the same
      expression with single escapes. */
  datatype Reading = AsWritten | Intended

  /** The literal text before each capture. */
  function Mark(r: Reading): (m: string)
    ensures |m| >= 4 && m[..3] == "img" && m[|m| - 1] == '/'
  {
    if r == AsWritten then "img\\/" else "img/"
  }

  /** The opening class of the first alternative. */
  predicate IsOpen(r: Reading, c: char) {
    c == '"' || c == '\'' || c == '(' || (r == AsWritten && c == '\\')
  }

  /** The closing class of the first alternative. */
  predicate IsClose(r: Reading, c: char) {
    c == '"' || c == '\'' || c == ')' || (r == AsWritten && c == '\\')
  }

  /** The negated class of the first capture. */
  predicate InCapture(r: Reading, c: char) {
    !IsClose(r, c) && (if r == AsWritten then c != 's' else !IsSpace(c))
  }

  /** An ASCII `\w` character. */
  predicate IsWordChar(c: char) {
    'a' <= c <= 'z' || 'A' <= c <= 'Z' || '0' <= c <= '9' || c == '_'
  }

  /** The class of the second capture. */
  predicate InPathRun(r: Reading, c: char) {
    if r == AsWritten then c == '\\' || c == 'w' || c == '.' || c == '/' || c == '%'
    else IsWordChar(c) || c == '-' || c == '.' || c == '/' || c == '%'
  }

  /** Length of the longest run of first-capture characters from `c`. */
  function CaptureLength(r: Reading, text: string, c: nat): (n: nat)
    ensures c + n <= |text| || n == 0
    ensures forall k :: c <= k < c + n ==> InCapture(r, text[k])
    ensures c + n < |text| ==> !InCapture(r, text[c + n])
    decreases |text| - c
  {
    if c < |text| && InCapture(r, text[c]) then 1 + CaptureLength(r, text, c + 1) else 0
  }

  /** Length of the longest run of second-capture characters from `c`. */
  function PathRunLength(r: Reading, text: string, c: nat): (n: nat)
    ensures c + n <= |text| || n == 0
    ensures forall k :: c <= k < c + n ==> InPathRun(r, text[k])
    ensures c + n < |text| ==> !InPathRun(r, text[c + n])
    decreases |text| - c
  {
    if c < |text| && InPathRun(r, text[c]) then 1 + PathRunLength(r, text, c + 1) else 0
  }

  /** The positions where the mark may begin after an opening character at
      `s - 1`, in the order the optional prefix group tries them. */
  function MarkStarts(r: Reading, text: string, s: nat): (starts: seq<nat>)
    ensures forall k :: 0 <= k < |starts| ==> starts[k] >= s
  {
    if r == AsWritten then
      (if s + 4 <= |text| && text[s] == '\\' && text[s + 1] != '\n' && text[s + 2] == '\\' && text[s + 3] == '/' then [s + 4] else [])
      + (if s + 2 <= |text| && text[s] == '\\' && text[s + 1] == '/' then [s + 2] else [])
      + [s]
    else
      (if s + 2 <= |text| && text[s] == '.' && text[s + 1] == '/' then [s + 2] else [])
      + (if s + 1 <= |text| && text[s] == '/' then [s + 1] else [])
      + [s]
  }

  /** The mark at `m`, then a non-empty capture and a closing character:
      the capture and the position after the match. As the closing class
      lies inside the excluded set, only the longest run can be followed
      by a closing character. */
  function CaptureAt(r: Reading, text: string, m: nat): (res: Option<(string, nat)>)
    ensures res.Some? ==> m < res.value.1 <= |text| && res.value.0 != []
  {
    if OccursAt(text, Mark(r), m) then
      var c := m + |Mark(r)|;
      var n := CaptureLength(r, text, c);
      if n > 0 && c + n < |text| && IsClose(r, text[c + n]) then Some((text[c..c + n], c + n + 1)) else None
    else None
  }

  /** The first start that leads to a match (regular-expression
      backtracking over the optional group). */
  function FirstCapture(r: Reading, text: string, starts: seq<nat>): (res: Option<(string, nat)>)
    ensures res.Some? ==> exists k :: 0 <= k < |starts| && starts[k] < res.value.1 <= |text|
    ensures res.Some? ==> res.value.0 != []
  {
    if starts == [] then None
    else
      var first := CaptureAt(r, text, starts[0]);
      if first.Some? then first
      else
        var rest := FirstCapture(r, text, starts[1..]);
        if rest.Some? then
          ghost var k :| 0 <= k < |starts[1..]| && starts[1..][k] < rest.value.1 <= |text|;
          assert starts[k + 1] == starts[1..][k];
          rest
        else None
  }

  /** The match at position `i`, if any: the first alternative, else the
      second. */
  function MatchAt(r: Reading, text: string, i: nat): (res: Option<(string, nat)>)
    ensures res.Some? ==> i < res.value.1 <= |text| && res.value.0 != []
  {
    var first := if i < |text| && IsOpen(r, text[i]) then FirstCapture(r, text, MarkStarts(r, text, i + 1)) else None;
    if first.Some? then first
    else if OccursAt(text, Mark(r), i) then
      var c := i + |Mark(r)|;
      var n := PathRunLength(r, text, c);
      if n > 0 then Some((text[c..c + n], c + n)) else None
    else None
  }

  /** `pattern.finditer(text)` from position `i`, each match giving
      `m.group(1) or m.group(2)`. */
  function Scan(r: Reading, text: string, i: nat): (captures: seq<string>)
    ensures [] !in captures
    decreases |text| - i
  {
    if i >= |text| then []
    else
      match MatchAt(r, text, i)
      case Some((capture, next)) => [capture] + Scan(r, text, next)
      case None => Scan(r, text, i + 1)
  }

  /** As written, every match contains `img\/`: the mark needs a
      backslash. */
  lemma MatchNeedsBackslash(text: string, i: nat)
    requires '\\' !in text
    ensures MatchAt(AsWritten, text, i).None?
  {
    forall m: nat ensures !OccursAt(text, Mark(AsWritten), m) {
      if m + 5 <= |text| {
        assert text[m..m + 5][3] == text[m + 3];
      }
    }
    if i < |text| && IsOpen(AsWritten, text[i]) {
      NoCaptureWithoutBackslash(text, MarkStarts(AsWritten, text, i + 1));
    }
  }

  lemma {:induction false} NoCaptureWithoutBackslash(text: string, starts: seq<nat>)
    requires forall m: nat :: !OccursAt(text, Mark(AsWritten), m)
    ensures FirstCapture(AsWritten, text, starts).None?
    decreases |starts|
  {
    if starts != [] {
      NoCaptureWithoutBackslash(text, starts[1..]);
    }
  }

  /** As written, a text without a backslash yields no reference at all. */
  lemma {:induction false} AsWrittenNeedsBackslash(text: string, i: nat)
    requires '\\' !in text
    ensures Scan(AsWritten, text, i) == []
    decreases |text| - i
  {
    if i < |text| {
      MatchNeedsBackslash(text, i);
      AsWrittenNeedsBackslash(text, i + 1);
    }
  }

  /** Positions where no match starts are skipped. */
  lemma {:induction false} ScanSkips(r: Reading, text: string, i: nat, j: nat)
    requires i <= j
    requires forall k :: i <= k < j ==> MatchAt(r, text, k).None?
    ensures Scan(r, text, i) == Scan(r, text, j)
    decreases j - i
  {
    if i < j {
      ScanSkips(r, text, i + 1, j);
    }
  }

  /** A quoted reference `"img/<n>"` (or with `'` or `(`), preceded by text
      with no opening character and no `i`, is found by the intended
      reading. The condition on the prefix is needed: a match starting in
      it can run over the opening character of the reference, as in
      `(img/a"img/x+y.png"`, where the first alternative consumes `(img/a"`
      and the second then captures only `x` of the name. */
  lemma IntendedFindsQuoted(pre: string, q: char, n: string, c: char, post: string)
    requires forall k :: 0 <= k < |pre| ==> !IsOpen(Intended, pre[k]) && pre[k] != 'i'
    requires IsOpen(Intended, q) && IsClose(Intended, c)
    requires n != [] && forall k :: 0 <= k < |n| ==> InCapture(Intended, n[k])
    ensures n in Scan(Intended, pre + [q] + "img/" + n + [c] + post, 0)
  {
    var text := pre + [q] + "img/" + n + [c] + post;
    var i := |pre|;
    forall k | 0 <= k < i ensures MatchAt(Intended, text, k).None? {
      NoMatchInPlainText(text, k);
    }
    ScanSkips(Intended, text, 0, i);
    assert text[i..i + |n| + 6] == [q] + "img/" + n + [c];
    QuotedMatch(text, i, q, n, c);
  }

  /** Where neither an opening character nor an `i` stands, no match
      starts. */
  lemma NoMatchInPlainText(text: string, k: nat)
    requires k < |text| && !IsOpen(Intended, text[k]) && text[k] != 'i'
    ensures MatchAt(Intended, text, k).None?
  {
    if k + 4 <= |text| {
      assert text[k..k + 4][0] == text[k];
    }
  }

  /** The intended reading matches a quoted reference and captures its
      name. */
  lemma QuotedMatch(text: string, i: nat, q: char, n: string, c: char)
    requires i + |n| + 6 <= |text| && text[i..i + |n| + 6] == [q] + "img/" + n + [c]
    requires IsOpen(Intended, q) && IsClose(Intended, c)
    requires n != [] && forall k :: 0 <= k < |n| ==> InCapture(Intended, n[k])
    ensures n in Scan(Intended, text, i)
  {
    var w := [q] + "img/" + n + [c];
    forall k | 0 <= k < |w| ensures text[i + k] == w[k] {
      assert text[i..i + |n| + 6][k] == text[i + k];
    }
    assert w[0] == q && w[1] == 'i' && w[|n| + 5] == c;
    assert text[i + 1..i + 5] == "img/" by {
      forall k | 0 <= k < 4 ensures text[i + 1..i + 5][k] == "img/"[k] {
        assert w[k + 1] == "img/"[k];
      }
    }
    assert text[i + 5..i + 5 + |n|] == n by {
      forall k | 0 <= k < |n| ensures text[i + 5..i + 5 + |n|][k] == n[k] {
        assert w[k + 5] == n[k];
      }
    }
    QuotedCapture(text, i + 1, n, c);
    assert MarkStarts(Intended, text, i + 1) == [i + 1];
    assert MatchAt(Intended, text, i) == Some((n, i + 6 + |n|));
  }

  /** After `img/` at `m`, the name up to a closing character is
      captured. */
  lemma QuotedCapture(text: string, m: nat, n: string, c: char)
    requires m + |n| + 5 <= |text| && text[m..m + 4] == "img/" && text[m + 4..m + 4 + |n|] == n
    requires text[m + 4 + |n|] == c && IsClose(Intended, c)
    requires n != [] && forall k :: 0 <= k < |n| ==> InCapture(Intended, n[k])
    ensures CaptureAt(Intended, text, m) == Some((n, m + 5 + |n|))
  {
    forall k | 0 <= k < |n| ensures text[m + 4 + k] == n[k] {
      assert text[m + 4..m + 4 + |n|][k] == n[k];
    }
    CaptureLengthOfRun(text, m + 4, n, c);
  }

  /** The capture run over `n` stops at the closing character after it. */
  lemma CaptureLengthOfRun(text: string, c: nat, n: string, close: char)
    requires c + |n| < |text| && forall k :: 0 <= k < |n| ==> text[c + k] == n[k]
    requires text[c + |n|] == close
    requires forall k :: 0 <= k < |n| ==> InCapture(Intended, n[k])
    requires IsClose(Intended, close)
    ensures CaptureLength(Intended, text, c) == |n|
  {
    var len := CaptureLength(Intended, text, c);
    forall k | c <= k < c + |n| ensures InCapture(Intended, text[k]) {
      assert text[c + (k - c)] == n[k - c];
    }
  }

  // ---------------------------------------------------------------------
  // The script.
  // ---------------------------------------------------------------------

  /** Some searched file yields `candidate`. */
  ghost predicate Referenced(r: Reading, tree: Tree, candidate: string) {
    exists p :: p in tree && IsSearched(p) && candidate in Scan(r, tree[p], 0)
  }

  /** `collect_references`: the raw captures of every searched file. */
  method CollectReferences(r: Reading, tree: Tree) returns (refs: set<string>)
    ensures forall x :: x in refs <==> Referenced(r, tree, x)
  {
    refs := {};
    var searched := set p | p in tree && IsSearched(p);
    var todo := searched;
    while todo != {}
      invariant todo <= searched
      invariant CollectedFrom(r, tree, searched - todo, refs)
      decreases todo
    {
      var path :| path in todo;
      var refs' := AddAll(refs, Scan(r, tree[path], 0));
      CollectStep(r, tree, searched, todo, refs, path, refs');
      refs, todo := refs', todo - {path};
    }
    CollectedAll(r, tree, searched, todo, refs);
  }

  /** Having the captures of every searched file is having the referenced
      candidates. */
  lemma CollectedAll(r: Reading, tree: Tree, searched: set<Path>, todo: set<Path>, refs: set<string>)
    requires searched == set p | p in tree && IsSearched(p)
    requires todo <= searched && todo == {}
    requires CollectedFrom(r, tree, searched - todo, refs)
    ensures forall x :: x in refs <==> Referenced(r, tree, x)
  {
    assert searched - todo == searched;
  }

  /** `refs` holds exactly the captures of the files in `done`. */
  ghost predicate CollectedFrom(r: Reading, tree: Tree, done: set<Path>, refs: set<string>)
    requires done <= tree.Keys
  {
    forall x :: x in refs <==> exists q :: q in done && x in Scan(r, tree[q], 0)
  }

  /** Adding the captures of one more file. */
  lemma CollectStep(r: Reading, tree: Tree, searched: set<Path>, todo: set<Path>, refs: set<string>,
                     path: Path, refs': set<string>)
    requires todo <= searched <= tree.Keys && path in todo
    requires CollectedFrom(r, tree, searched - todo, refs)
    requires forall x :: x in refs' <==> x in refs || (x in Scan(r, tree[path], 0) && x != [])
    ensures CollectedFrom(r, tree, searched - (todo - {path}), refs')
  {
    var done := searched - todo;
    assert searched - (todo - {path}) == done + {path};
    forall x | x in refs' ensures exists q :: q in done + {path} && x in Scan(r, tree[q], 0) {
      if x !in refs {
        assert path in done + {path};
      }
    }
  }

  /** The inner loop of `collect_references`: every candidate is added. */
  method AddAll(refs0: set<string>, candidates: seq<string>) returns (refs: set<string>)
    ensures forall x :: x in refs <==> x in refs0 || (x in candidates && x != [])
  {
    refs := refs0;
    for j := 0 to |candidates|
      invariant forall x :: x in refs <==> x in refs0 || (x in candidates[..j] && x != [])
    {
      assert candidates[..j + 1] == candidates[..j] + [candidates[j]];
      var candidate := candidates[j];
      if candidate != [] {
        refs := refs + {candidate};
      }
    }
    assert candidates[..|candidates|] == candidates;
  }

  /** `list_images`: every file below `img/`, with no extension filter. */
  method ListImages(imgFiles: set<Path>) returns (imgs: set<string>)
    ensures imgs == imgFiles
  {
    imgs := {};
    var todo := imgFiles;
    while todo != {}
      invariant todo <= imgFiles
      invariant imgs == imgFiles - todo
      decreases todo
    {
      var rel :| rel in todo;
      imgs := imgs + {rel};
      todo := todo - {rel};
    }
  }

  /** `delete_unused`: each name is unlinked in turn; a name in `fails`
      cannot be unlinked, and that does not stop the others. */
  method DeleteUnused(files: set<Path>, unused: seq<string>, fails: set<Path>) returns (remaining: set<Path>)
    ensures forall x :: x in remaining <==> x in files && (x !in unused || x in fails)
  {
    remaining := files;
    for i := 0 to |unused|
      invariant forall x :: x in remaining <==> x in files && (x !in unused[..i] || x in fails)
    {
      assert unused[..i + 1] == unused[..i] + [unused[i]];
      var rel := unused[i];
      if rel !in fails {
        remaining := remaining - {rel};
      }
    }
    assert unused[..|unused|] == unused;
  }

  /** `main` under reading `r`: the sorted unused names, the files left
      below `img/`, and the number the final message reports. */
  method Run(r: Reading, tree: Tree, imgFiles: set<Path>, fails: set<Path>)
    returns (unused: seq<string>, remaining: set<Path>, reported: nat)
    ensures forall x :: x in unused <==> x in imgFiles && !Referenced(r, tree, x)
    ensures Ascending(unused)
    ensures forall x :: x in remaining <==> x in imgFiles && (Referenced(r, tree, x) || x in fails)
    ensures unused == [] ==> remaining == imgFiles && reported == 0
    ensures reported == |unused|
  {
    var refs := CollectReferences(r, tree);
    var imgs := ListImages(imgFiles);
    unused := SortedNames(imgs - refs);
    if unused == [] {
      return unused, imgFiles, 0;
    }
    remaining := DeleteUnused(imgFiles, unused, fails);
    reported := |unused|;
  }

  /** As written, on a site whose searched files hold no backslash, no
      name is referenced: every image is deleted unless its unlink
      fails. */
  lemma AsWrittenDeletesEverything(tree: Tree, x: string)
    requires forall p :: p in tree && IsSearched(p) ==> '\\' !in tree[p]
    ensures !Referenced(AsWritten, tree, x)
  {
    forall p | p in tree && IsSearched(p) ensures x !in Scan(AsWritten, tree[p], 0) {
      AsWrittenNeedsBackslash(tree[p], 0);
    }
  }

  /** Under the intended reading, an image named by a quoted reference in
      a searched file survives. */
  lemma IntendedKeepsQuoted(tree: Tree, p: Path, pre: string, q: char, n: string, c: char, post: string)
    requires p in tree && IsSearched(p) && tree[p] == pre + [q] + "img/" + n + [c] + post
    requires forall k :: 0 <= k < |pre| ==> !IsOpen(Intended, pre[k]) && pre[k] != 'i'
    requires IsOpen(Intended, q) && IsClose(Intended, c)
    requires n != [] && forall k :: 0 <= k < |n| ==> InCapture(Intended, n[k])
    ensures Referenced(Intended, tree, n)
  {
    IntendedFindsQuoted(pre, q, n, c, post);
  }
}
