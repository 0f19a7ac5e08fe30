/** scripts/inject_head_partial.py: every page in the site root gets the
    include of the shared head partial right after its `<head>`, loses the
    `<link>` tags that the partial now provides, and has its runs of blank
    lines shortened. */
module HeadPartial {
  import opened Strings
  import opened Paths

  // ---------------------------------------------------------------------
  // The snippet
  // ---------------------------------------------------------------------

  /** The attribute that marks a page as already including the partial. */
  const Marker := "data-head-include=\"partials/head-common.html\""
  const MetaOpen := "  <meta "
  const LoaderTail := ">\n  <script src=\"js/head-loader.js\"></script>\n"
  const Snippet := MetaOpen + Marker + LoaderTail
  const HeadTag := "<head>"

  /** The first step of `inject_and_clean`: the snippet goes on a new line
      right after the first `<head>`, unless the page has the marker. */
  function InsertSnippet(content: string): (r: string)
    ensures Contains(content, Marker) || !Contains(content, HeadTag) ==> r == content
    ensures !Contains(content, Marker) && Contains(content, HeadTag) ==>
              var i := FindFirst(content, HeadTag).value;
              r == content[..i] + HeadTag + "\n" + Snippet + content[i + |HeadTag|..]
  {
    if !Contains(content, Marker) then ReplaceFirst(content, HeadTag, HeadTag + "\n" + Snippet)
    else content
  }

  /** A page with a `<head>` carries the marker once the snippet is in, so
      inserting again adds nothing; a page without `<head>` gets nothing. */
  lemma InsertSnippetOnce(content: string)
    ensures Contains(content, HeadTag) ==> Contains(InsertSnippet(content), Marker)
    ensures InsertSnippet(InsertSnippet(content)) == InsertSnippet(content)
  {
    if !Contains(content, Marker) && Contains(content, HeadTag) {
      var r := InsertSnippet(content);
      InsertSnippetMarks(content);
      assert Contains(r, Marker);
      assert InsertSnippet(r) == r;
    }
  }

  lemma InsertSnippetMarks(content: string)
    requires !Contains(content, Marker) && Contains(content, HeadTag)
    ensures Contains(InsertSnippet(content), Marker)
  {
    var i := FindFirst(content, HeadTag).value;
    var head, tail := content[..i], content[i + |HeadTag|..];
    Regroup(head, HeadTag, "\n", MetaOpen, Marker, LoaderTail, tail);
    ContainsInMiddle(head + HeadTag + "\n" + MetaOpen, Marker, LoaderTail + tail);
  }

  lemma Regroup<T>(a: seq<T>, b: seq<T>, c: seq<T>, d: seq<T>, e: seq<T>, f: seq<T>, g: seq<T>)
    ensures a + b + c + (d + e + f) + g == (a + b + c + d) + e + (f + g)
  {
  }

  // ---------------------------------------------------------------------
  // The removal patterns
  // ---------------------------------------------------------------------

  /** One of `REMOVE_PATTERNS`: a `<link>` tag whose `href` holds one of
      `targets` between quotes (`closed`), or opening a quote (`!closed`),
      and the whitespace after the tag. */
  datatype LinkPattern = LinkPattern(targets: seq<string>, closed: bool)

  const Quotes: seq<char> := ['"', '\'']

  const FontKit := "https://facudelboca.github.io/denovo-web/vendor/webfontkit-20201016-132343/"

  /** The five patterns in the order they are applied. */
  const RemovePatterns: seq<LinkPattern> := [
    LinkPattern(["./img/favicon1.ico", "/img/favicon1.ico"], true),
    LinkPattern(["css/bootstrap.min.css"], true),
    LinkPattern([FontKit + "auro-regular-webfont.woff"], true),
    LinkPattern(["https://fonts.googleapis.com"], false),
    LinkPattern(["css/main.css"], true)
  ]

  predicate IsBlank(c: char) {
    c == ' ' || c == '\t'
  }

  /** `[ \t]*`: the length of the run of spaces and tabs opening `s`. */
  function BlankRun(s: string): (n: nat)
    ensures n <= |s| && forall i :: 0 <= i < n ==> IsBlank(s[i])
    ensures n == |s| || !IsBlank(s[n])
  {
    if s != [] && IsBlank(s[0]) then 1 + BlankRun(s[1..]) else 0
  }

  /** `\s*`: the length of the whitespace run opening `s`. */
  function SpaceRun(s: string): (n: nat)
    ensures n <= |s| && forall i :: 0 <= i < n ==> IsSpace(s[i])
    ensures n == |s| || !IsSpace(s[n])
  {
    if s != [] && IsSpace(s[0]) then 1 + SpaceRun(s[1..]) else 0
  }

  /** The lower-cased attribute text of a tag refers to the pattern's
      target. */
  predicate Refers(attrs: string, p: LinkPattern) {
    exists t, q1, q2 :: t in p.targets && q1 in Quotes && q2 in Quotes &&
      Contains(attrs, "href=" + [q1] + t + (if p.closed then [q2] else []))
  }

  /** The part of a match after `<link`: the attributes up to the first
      `>`, which must refer to the target, the `>` and the whitespace after
      it. */
  function TagMatch(u: string, p: LinkPattern): (r: Option<nat>)
    ensures r.Some? ==> 1 <= r.value <= |u|
  {
    match IndexOf(u, '>')
    case None => None
    case Some(k) =>
      if Refers(u[..k], p) then Some(k + 1 + SpaceRun(u[k + 1..])) else None
  }

  /** The length of the match of a removal pattern at the start of the
      lower-cased text `t`: blanks, `<link`, then the rest of the tag. */
  function LowerMatch(t: string, p: LinkPattern): (r: Option<nat>)
    ensures r.Some? ==> 6 <= r.value <= |t|
  {
    var w := BlankRun(t);
    if w + 5 <= |t| && t[w..w + 5] == "<link" then
      match TagMatch(t[w + 5..], p)
      case None => None
      case Some(m) => Some(w + 5 + m)
    else None
  }

  /** The length of the match at the start of `s`. The pattern is matched
      against the lower-cased text, which is what `re.IGNORECASE` amounts
      to for these patterns: their letters are all lower case, and
      lowering moves no blank, whitespace or `>`. */
  function LinkMatch(s: string, p: LinkPattern): (r: Option<nat>)
    ensures r.Some? ==> 6 <= r.value <= |s|
  {
    LowerMatch(Lower(s), p)
  }

  /** `re.sub(pattern, "", s, flags=re.IGNORECASE)`: scan left to right,
      drop each match and go on after it. */
  function RemoveLinks(s: string, p: LinkPattern): (r: string)
    ensures |r| <= |s|
    decreases |s|
  {
    if s == [] then []
    else match LinkMatch(s, p)
      case Some(n) => RemoveLinks(s[n..], p)
      case None => [s[0]] + RemoveLinks(s[1..], p)
  }

  /** Some position of `s` starts a match. */
  predicate HasLink(s: string, p: LinkPattern) {
    exists i :: 0 <= i < |s| && LinkMatch(s[i..], p).Some?
  }

  /** A pass changes the text exactly when the pattern matches somewhere,
      and then removes at least one whole tag. */
  lemma RemoveLinksChanges(s: string, p: LinkPattern)
    ensures !HasLink(s, p) ==> RemoveLinks(s, p) == s
    ensures HasLink(s, p) ==> |RemoveLinks(s, p)| <= |s| - 6
  {
    if HasLink(s, p) {
      RemoveLinksShrinks(s, p);
    } else {
      RemoveLinksNoMatch(s, p);
    }
  }

  lemma {:induction false} RemoveLinksNoMatch(s: string, p: LinkPattern)
    requires !HasLink(s, p)
    ensures RemoveLinks(s, p) == s
    decreases |s|
  {
    if s != [] {
      assert s[0..] == s;
      forall i | 0 <= i < |s| - 1 ensures LinkMatch(s[1..][i..], p).None? {
        assert s[1..][i..] == s[i + 1..];
      }
      RemoveLinksNoMatch(s[1..], p);
    }
  }

  lemma {:induction false} RemoveLinksShrinks(s: string, p: LinkPattern)
    requires HasLink(s, p)
    ensures |RemoveLinks(s, p)| <= |s| - 6
    decreases |s|
  {
    var i :| 0 <= i < |s| && LinkMatch(s[i..], p).Some?;
    if LinkMatch(s, p).None? {
      assert s[0..] == s;
      assert s[1..][i - 1..] == s[i..];
      RemoveLinksShrinks(s[1..], p);
    }
  }

  /** Matching ignores letter case: the text and its lower-cased copy
      match alike. */
  lemma LinkMatchIgnoresCase(s: string, p: LinkPattern)
    ensures LinkMatch(Lower(s), p) == LinkMatch(s, p)
  {
    LowerIdempotent(s);
  }

  lemma {:induction false} LowerIdempotent(s: string)
    ensures Lower(Lower(s)) == Lower(s)
    decreases |s|
  {
    if s != [] {
      LowerIdempotent(s[1..]);
    }
  }

  /** The removal passes applied in list order. */
  function Cleaned(s: string, patterns: seq<LinkPattern>): string {
    if patterns == [] then s
    else RemoveLinks(Cleaned(s, patterns[..|patterns| - 1]), patterns[|patterns| - 1])
  }

  // ---------------------------------------------------------------------
  // Text the removal passes cannot reach
  // ---------------------------------------------------------------------

  /** `<link`, in any letter case, starts at position `j` of `s`. */
  predicate LinkAt(s: string, j: int) {
    0 <= j && j + 5 <= |s| && s[j] == '<' && LowerChar(s[j + 1]) == 'l' &&
    LowerChar(s[j + 2]) == 'i' && LowerChar(s[j + 3]) == 'n' && LowerChar(s[j + 4]) == 'k'
  }

  /** No `<link` starts before position `n` of `s`. */
  predicate NoLinkBefore(s: string, n: int) {
    forall j :: 0 <= j < n ==> !LinkAt(s, j)
  }

  /** `s` holds no `<link`, and no `<` so near its end that text put after
      it could complete one. */
  predicate LinkFree(s: string) {
    NoLinkBefore(s, |s|) && forall j :: 0 <= j < |s| && |s| < j + 5 ==> s[j] != '<'
  }

  /** A `<link` opens with `<`, then an `l` in either case, and has no
      other `<`. */
  lemma LinkAtOpens(s: string, j: int)
    ensures LinkAt(s, j) ==> s[j] == '<' && LowerChar(s[j + 1]) == 'l'
    ensures LinkAt(s, j) ==> forall m :: j < m < j + 5 ==> s[m] != '<'
  {
    if LinkAt(s, j) {
      assert LowerChar('<') == '<';
    }
  }

  lemma LinkAtShift(x: string, y: string, j: int)
    requires 0 <= j
    ensures LinkAt(x + y, j + |x|) <==> LinkAt(y, j)
  {
  }

  lemma LinkAtPrefix(x: string, y: string, j: int)
    requires 0 <= j && j + 5 <= |x|
    ensures LinkAt(x + y, j) <==> LinkAt(x, j)
  {
  }

  lemma SliceChars(t: string, w: int)
    requires 0 <= w && w + 5 <= |t| && t[w..w + 5] == "<link"
    ensures t[w] == '<' && t[w + 1] == 'l' && t[w + 2] == 'i' && t[w + 3] == 'n' && t[w + 4] == 'k'
  {
    var u := t[w..w + 5];
    assert u[0] == '<' && u[1] == 'l' && u[2] == 'i' && u[3] == 'n' && u[4] == 'k';
  }

  /** A match is a run of blanks and then a `<link`. */
  lemma MatchHasLink(t: string, p: LinkPattern)
    requires LinkMatch(t, p).Some?
    ensures LinkAt(t, BlankRun(Lower(t)))
    ensures forall i :: 0 <= i < BlankRun(Lower(t)) ==> IsBlank(t[i])
  {
    LowerMatchHasLink(Lower(t), p);
    LinkOfLowered(t, Lower(t), BlankRun(Lower(t)));
  }

  lemma LowerMatchHasLink(t: string, p: LinkPattern)
    requires LowerMatch(t, p).Some?
    ensures BlankRun(t) + 5 <= |t| && t[BlankRun(t)..BlankRun(t) + 5] == "<link"
  {
  }

  lemma LinkOfLowered(t: string, lt: string, w: nat)
    requires lt == Lower(t) && w + 5 <= |lt| && lt[w..w + 5] == "<link"
    requires forall i :: 0 <= i < w ==> IsBlank(lt[i])
    ensures LinkAt(t, w) && forall i :: 0 <= i < w ==> IsBlank(t[i])
  {
    SliceChars(lt, w);
    assert LowerChar(t[w]) == '<';
    forall i | 0 <= i < w ensures IsBlank(t[i]) {
      assert IsBlank(lt[i]);
    }
  }

  /** No match starts where a `<link` would have to come only after a
      character that is not a blank. */
  lemma NoMatchAtStart(s: string, n: int, p: LinkPattern)
    requires 0 < n <= |s| && !IsBlank(s[n - 1]) && NoLinkBefore(s, n)
    ensures LinkMatch(s, p).None?
  {
    if LinkMatch(s, p).Some? {
      MatchHasLink(s, p);
      assert false;
    }
  }

  /** Where no match starts, a pass keeps the first character. */
  lemma SkipNonLink(q: string, y: string, p: LinkPattern)
    requires q != [] && !IsBlank(q[|q| - 1]) && NoLinkBefore(q + y, |q|)
    ensures RemoveLinks(q + y, p) == [q[0]] + RemoveLinks(q[1..] + y, p)
    ensures NoLinkBefore(q[1..] + y, |q| - 1)
  {
    var s := q + y;
    NoMatchAtStart(s, |q|, p);
    assert s[1..] == q[1..] + y;
    NoLinkBeforeTail(s, |q|);
  }

  lemma ConsRegroup<T>(q: seq<T>, a: seq<T>, b: seq<T>, r: seq<T>)
    requires q != [] && a == [q[0]] + b && b == q[1..] + r
    ensures a == q + r
  {
    assert [q[0]] + q[1..] == q;
  }

  /** A pass leaves alone a front part that holds no `<link` and ends in a
      character other than a blank. */
  lemma {:induction false} RemoveLinksKeepsPrefix(q: string, y: string, p: LinkPattern)
    requires q == [] || !IsBlank(q[|q| - 1])
    requires NoLinkBefore(q + y, |q|)
    ensures RemoveLinks(q + y, p) == q + RemoveLinks(y, p)
    decreases |q|
  {
    if q == [] {
      assert q + y == y;
    } else {
      SkipNonLink(q, y, p);
      RemoveLinksKeepsPrefix(q[1..], y, p);
      ConsRegroup(q, RemoveLinks(q + y, p), RemoveLinks(q[1..] + y, p), RemoveLinks(y, p));
    }
  }

  lemma NoLinkBeforeTail(s: string, n: int)
    requires s != [] && NoLinkBefore(s, n)
    ensures NoLinkBefore(s[1..], n - 1)
  {
    forall j | 0 <= j < n - 1 ensures !LinkAt(s[1..], j) {
      LinkAtShift([s[0]], s[1..], j);
      assert [s[0]] + s[1..] == s;
    }
  }

  lemma LinkFreePrefix(q: string, y: string)
    requires LinkFree(q)
    ensures NoLinkBefore(q + y, |q|)
  {
    forall j | 0 <= j < |q| ensures !LinkAt(q + y, j) {
      if j + 5 <= |q| {
        LinkAtPrefix(q, y, j);
      } else {
        LinkAtOpens(q + y, j);
      }
    }
  }

  /** Every pass leaves such a front part alone. */
  lemma {:induction false} CleanedKeepsPrefix(q: string, y: string, patterns: seq<LinkPattern>)
    requires q != [] && !IsBlank(q[|q| - 1]) && LinkFree(q)
    ensures Cleaned(q + y, patterns) == q + Cleaned(y, patterns)
    decreases |patterns|
  {
    if patterns != [] {
      var init := patterns[..|patterns| - 1];
      CleanedKeepsPrefix(q, y, init);
      LinkFreePrefix(q, Cleaned(y, init));
      RemoveLinksKeepsPrefix(q, Cleaned(y, init), patterns[|patterns| - 1]);
    }
  }

  lemma NoOpenLinkFree(s: string)
    requires '<' !in s
    ensures LinkFree(s)
  {
    forall j | 0 <= j < |s| ensures !LinkAt(s, j) {
      LinkAtOpens(s, j);
    }
  }

  lemma OpenLinkFree(s: string)
    requires LinkFree(s) && |s| >= 4 && LowerChar(s[0]) != 'l'
    ensures LinkFree("<" + s)
  {
    var t := "<" + s;
    forall j | 0 <= j < |t| ensures !LinkAt(t, j) {
      if j == 0 {
        LinkAtOpens(t, 0);
      } else {
        LinkAtShift("<", s, j - 1);
      }
    }
    assert forall j :: 1 <= j < |t| ==> t[j] == s[j - 1];
  }

  lemma ConcatLinkFree(a: string, b: string)
    requires LinkFree(a) && LinkFree(b)
    ensures LinkFree(a + b)
  {
    var t := a + b;
    forall j | 0 <= j < |t| ensures !LinkAt(t, j) {
      if j >= |a| {
        LinkAtShift(a, b, j - |a|);
      } else {
        LinkFreePrefix(a, b);
      }
    }
    assert forall j :: |a| <= j < |t| ==> t[j] == b[j - |a|];
  }

  /** Text with no `<link` of its own, then link-free text opening with
      `<`: nothing can straddle the seam. */
  lemma HeadLinkFree(a: string, b: string)
    requires NoLinkBefore(a, |a|) && LinkFree(b) && |b| >= 4 && b[0] == '<'
    ensures LinkFree(a + b)
  {
    var t := a + b;
    assert t[|a|] == '<';
    forall j | 0 <= j < |t| ensures !LinkAt(t, j) {
      if j >= |a| {
        LinkAtShift(a, b, j - |a|);
      } else if j + 5 <= |a| {
        LinkAtPrefix(a, b, j);
      } else {
        LinkAtOpens(t, j);
      }
    }
    assert forall j :: |a| <= j < |t| ==> t[j] == b[j - |a|];
  }

  /** What holds of a text holds of its front part. */
  lemma NoLinkBeforeFront(c: string, n: int)
    requires 0 <= n <= |c| && NoLinkBefore(c, n)
    ensures NoLinkBefore(c[..n], n)
  {
    forall j | 0 <= j < n ensures !LinkAt(c[..n], j) {
      if j + 5 <= n {
        LinkAtPrefix(c[..n], c[n..], j);
        assert c[..n] + c[n..] == c;
      }
    }
  }

  // ---------------------------------------------------------------------
  // Blank lines
  // ---------------------------------------------------------------------

  const Triple := "\n\n\n"

  /** The number of newlines opening `s`. */
  function NewlineRun(s: string): (n: nat)
    ensures n <= |s| && forall i :: 0 <= i < n ==> s[i] == '\n'
    ensures n == |s| || s[n] != '\n'
  {
    if s != [] && s[0] == '\n' then 1 + NewlineRun(s[1..]) else 0
  }

  /** `re.sub(r"\n{3,}", "\n\n", s)`: every run of three or more newlines
      becomes two. */
  function Collapse(s: string): string
    decreases |s|
  {
    if s == [] then []
    else if NewlineRun(s) >= 3 then "\n\n" + Collapse(s[NewlineRun(s)..])
    else [s[0]] + Collapse(s[1..])
  }

  /** The newlines opening the collapsed text: at most two. */
  lemma {:induction false} CollapseLead(s: string)
    ensures NewlineRun(Collapse(s)) == if NewlineRun(s) >= 3 then 2 else NewlineRun(s)
    decreases |s|
  {
    if s != [] {
      var n := NewlineRun(s);
      if n >= 3 {
        CollapseLead(s[n..]);
        var c := Collapse(s[n..]);
        assert ("\n\n" + c)[2..] == c;
        assert NewlineRun(("\n\n" + c)[1..]) == 1 + NewlineRun(c);
      } else {
        CollapseLead(s[1..]);
        assert ([s[0]] + Collapse(s[1..]))[1..] == Collapse(s[1..]);
      }
    }
  }

  /** No three newlines in a row are left. */
  lemma {:induction false} CollapseNoTriple(s: string)
    ensures !Contains(Collapse(s), Triple)
    decreases |s|
  {
    if s != [] {
      var n := NewlineRun(s);
      if n >= 3 {
        CollapseNoTriple(s[n..]);
        CollapseLead(s[n..]);
        var c := Collapse(s[n..]);
        NoTripleCons('\n', c);
        NoTripleCons('\n', "\n" + c);
        assert "\n" + ("\n" + c) == "\n\n" + c;
      } else {
        CollapseNoTriple(s[1..]);
        CollapseLead(s[1..]);
        assert s[0] == '\n' ==> n == 1 + NewlineRun(s[1..]);
        NoTripleCons(s[0], Collapse(s[1..]));
      }
    }
  }

  /** Putting `ch` before `c`, which has no three newlines in a row, makes
      three only if `ch` and the first two characters of `c` are newlines. */
  lemma NoTripleCons(ch: char, c: string)
    requires !Contains(c, Triple)
    ensures NewlineRun([ch] + c) == if ch == '\n' then 1 + NewlineRun(c) else 0
    ensures Contains([ch] + c, Triple) <==> NewlineRun([ch] + c) >= 3
  {
    var r := [ch] + c;
    assert r[1..] == c;
    if NewlineRun(r) >= 3 {
      assert r[..3] == [r[0], r[1], r[2]];
    }
    if StartsWith(r, Triple) {
      assert r[0] == r[..3][0] && r[1] == r[..3][1] && r[2] == r[..3][2];
    }
  }

  /** Text with no three newlines in a row is left as it is; hence
      collapsing twice is collapsing once. */
  lemma {:induction false} CollapseIdentity(s: string)
    requires !Contains(s, Triple)
    ensures Collapse(s) == s
    decreases |s|
  {
    if s != [] {
      if NewlineRun(s) >= 3 {
        assert false;
      } else {
        CollapseIdentity(s[1..]);
      }
    }
  }

  lemma CollapseIdempotent(s: string)
    ensures Collapse(Collapse(s)) == Collapse(s)
  {
    CollapseNoTriple(s);
    CollapseIdentity(Collapse(s));
  }

  /** The newlines opening `a + b`, when `a` ends in another character. */
  lemma {:induction false} NewlineRunConcat(a: string, b: string)
    requires a != [] && a[|a| - 1] != '\n'
    ensures NewlineRun(a + b) == NewlineRun(a) < |a|
    decreases |a|
  {
    if a[0] == '\n' {
      assert (a + b)[1..] == a[1..] + b;
      NewlineRunConcat(a[1..], b);
    }
  }

  /** Collapsing works piece by piece across a point just after a
      character other than a newline. */
  lemma {:induction false} CollapseSplit(a: string, b: string)
    requires a == [] || a[|a| - 1] != '\n'
    ensures Collapse(a + b) == Collapse(a) + Collapse(b)
    decreases |a|
  {
    if a == [] {
      assert a + b == b;
    } else {
      var k, h := CollapseSplitFirst(a, b);
      CollapseSplit(a[k..], b);
      AppendRegroup(h, Collapse(a[k..]), Collapse(b));
    }
  }

  /** `a + b` and `a` start collapsing with the same step. */
  lemma CollapseSplitFirst(a: string, b: string) returns (k: nat, h: string)
    requires a != [] && a[|a| - 1] != '\n'
    ensures 0 < k <= |a| && (a[k..] == [] || a[k..][|a[k..]| - 1] != '\n')
    ensures Collapse(a + b) == h + Collapse(a[k..] + b)
    ensures Collapse(a) == h + Collapse(a[k..])
  {
    NewlineRunConcat(a, b);
    var n := NewlineRun(a);
    k := if n >= 3 then n else 1;
    h := if n >= 3 then "\n\n" else [a[0]];
    SliceOfConcat(a, b, k);
    CollapseFirst(a, k, h, a[k..]);
    CollapseFirst(a + b, k, h, a[k..] + b);
  }

  /** The first step of collapsing: the newline run or the first
      character, then the rest. */
  lemma CollapseFirst(s: string, k: nat, h: string, rest: string)
    requires s != []
    requires k == if NewlineRun(s) >= 3 then NewlineRun(s) else 1
    requires h == if NewlineRun(s) >= 3 then "\n\n" else [s[0]]
    requires k <= |s| && rest == s[k..]
    ensures Collapse(s) == h + Collapse(rest)
  {
  }

  /** Text without a newline is left as it is. */
  lemma NoNewlineCollapse(s: string)
    requires '\n' !in s
    ensures Collapse(s) == s
  {
    ContainsChar(s, '\n');
    assert Triple == "\n" + "\n\n";
    if Contains(s, Triple) {
      ContainsOfLonger(s, "\n", "\n\n");
    }
    CollapseIdentity(s);
  }

  // ---------------------------------------------------------------------
  // inject_and_clean and main
  // ---------------------------------------------------------------------

  /** A page after `inject_and_clean`. */
  function Processed(content: string): string {
    Collapse(Cleaned(InsertSnippet(content), RemovePatterns))
  }

  /** A page with a `<head>`, without the marker and with no `<link`
      before its first `<head>` keeps the inserted marker through the
      removal passes and the collapsing of blank lines, so the next run
      leaves the page as it is. */
  lemma ProcessedKeepsMarker(c: string)
    requires Contains(c, HeadTag) && !Contains(c, Marker)
    requires NoLinkBefore(c, FindFirst(c, HeadTag).value)
    ensures Contains(Processed(c), Marker)
  {
    var front, y := InsertedAround(c);
    CleanedKeepsMarker(front, y);
  }

  /** The page with the snippet in is a front part ending in the marker,
      with no `<link` in it, followed by the rest. */
  lemma InsertedAround(c: string) returns (front: string, y: string)
    requires Contains(c, HeadTag) && !Contains(c, Marker)
    requires NoLinkBefore(c, FindFirst(c, HeadTag).value)
    ensures InsertSnippet(c) == front + Marker + y
    ensures LinkFree(front + Marker) && front != [] && front[|front| - 1] == ' '
  {
    var i := FindFirst(c, HeadTag).value;
    var head, tail := c[..i], c[i + |HeadTag|..];
    front := head + HeadTag + "\n" + MetaOpen;
    y := LoaderTail + tail;
    Regroup(head, HeadTag, "\n", MetaOpen, Marker, LoaderTail, tail);
    FrontLinkFree(c, i);
  }

  lemma FrontLinkFree(c: string, i: nat)
    requires i <= |c| && NoLinkBefore(c, i)
    ensures var front := c[..i] + HeadTag + "\n" + MetaOpen;
            LinkFree(front + Marker) && front != [] && front[|front| - 1] == ' '
  {
    var head := c[..i];
    var inserted := SnippetLinkFree();
    NoLinkBeforeFront(c, i);
    HeadLinkFree(head, inserted);
    assert head + inserted == head + HeadTag + "\n" + MetaOpen + Marker;
    MetaOpenEnds();
  }

  /** The removal passes and the collapsing keep the marker that ends such
      a front part. */
  lemma CleanedKeepsMarker(front: string, y: string)
    requires LinkFree(front + Marker) && front != [] && front[|front| - 1] == ' '
    ensures Contains(Collapse(Cleaned(front + Marker + y, RemovePatterns)), Marker)
  {
    var q := front + Marker;
    MarkerChars();
    assert q[|q| - 1] == Marker[|Marker| - 1];
    CleanedKeepsPrefix(q, y, RemovePatterns);
    var z := Cleaned(y, RemovePatterns);
    CollapseSplit(q, z);
    CollapseSplit(front, Marker);
    NoNewlineCollapse(Marker);
    ContainsInMiddle(Collapse(front), Marker, Collapse(z));
  }

  /** Text with no `<` and no newline. */
  predicate Plain(s: string) {
    '<' !in s && '\n' !in s
  }

  lemma MarkerPieces() returns (a: string, b: string, c: string)
    ensures Marker == a + b + c
    ensures Plain(a) && Plain(b) && Plain(c) && |c| >= 5 && c[|c| - 1] == '"'
  {
    a, b, c := "data-head-include=\"", "partials/", "head-common.html\"";
    PlainAttribute();
    PlainDirectory();
    PlainFile();
  }

  lemma PlainAttribute()
    ensures Plain("data-head-include=\"")
  {
  }

  lemma PlainDirectory()
    ensures Plain("partials/")
  {
  }

  lemma PlainFile()
    ensures Plain("head-common.html\"")
  {
  }

  /** The marker has no `<` and no newline, and ends in a quote. */
  lemma MarkerChars()
    ensures Plain(Marker) && |Marker| >= 5 && Marker[|Marker| - 1] == '"'
  {
    var a, b, c := MarkerPieces();
  }

  lemma MetaOpenEnds()
    ensures MetaOpen != [] && MetaOpen[|MetaOpen| - 1] == ' '
  {
  }

  lemma HeadSplit()
    ensures HeadTag + "\n" + MetaOpen == "<" + "head>\n  " + "<" + "meta "
  {
  }

  /** The inserted text up to the marker holds no `<link`. */
  lemma SnippetLinkFree() returns (inserted: string)
    ensures inserted == HeadTag + "\n" + MetaOpen + Marker
    ensures LinkFree(inserted) && |inserted| >= 4 && inserted[0] == '<'
  {
    var meta := MetaLinkFree();
    assert '<' !in "head>\n  ";
    NoOpenLinkFree("head>\n  ");
    ConcatLinkFree("head>\n  ", meta);
    OpenLinkFree("head>\n  " + meta);
    inserted := "<" + ("head>\n  " + meta);
    HeadSplit();
  }

  lemma MetaLinkFree() returns (meta: string)
    ensures meta == "<" + ("meta " + Marker)
    ensures LinkFree(meta) && |meta| >= 4
  {
    MarkerChars();
    assert '<' !in "meta ";
    NoOpenLinkFree("meta " + Marker);
    OpenLinkFree("meta " + Marker);
    meta := "<" + ("meta " + Marker);
  }

  /** `inject_and_clean` on one page: the text written back, and whether
      it was. */
  method InjectAndClean(content: string) returns (changed: bool, text: string)
    ensures text == Processed(content)
    ensures changed <==> text != content
    ensures !Contains(text, Triple)
  {
    text := content;
    if !Contains(text, Marker) {
      text := ReplaceFirst(text, HeadTag, HeadTag + "\n" + Snippet);
    }
    text := RemoveAll(text, RemovePatterns);
    CollapseNoTriple(text);
    text := Collapse(text);
    changed := text != content;
  }

  /** The `for pattern in REMOVE_PATTERNS` loop. */
  method RemoveAll(content: string, patterns: seq<LinkPattern>) returns (text: string)
    ensures text == Cleaned(content, patterns)
  {
    text := content;
    for k := 0 to |patterns|
      invariant text == Cleaned(content, patterns[..k])
    {
      assert patterns[..k + 1][..k] == patterns[..k];
      text := RemoveLinks(text, patterns[k]);
    }
    assert patterns[..|patterns|] == patterns;
  }

  /** `main`: `rootName` is the name of the site root, which the partials
      test compares with `partials`; `updated` counts the pages written. */
  method Run(tree: Tree, rootName: string) returns (result: Tree, updated: nat)
    ensures result.Keys == tree.Keys
    ensures rootName == "partials" ==> result == tree && updated == 0
    ensures rootName != "partials" ==>
              forall p :: p in tree ==> result[p] == if IsRootPage(p) then Processed(tree[p]) else tree[p]
    ensures rootName != "partials" ==>
              updated == |set p | p in tree && IsRootPage(p) && Processed(tree[p]) != tree[p]|
  {
    if rootName == "partials" {
      // Every page found sits in `partials` and is skipped.
      return tree, 0;
    }
    var pages := RootPages(tree);
    var written;
    result, written := RewriteFiles(tree, pages, Processed);
    assert written == set p | p in tree && IsRootPage(p) && Processed(tree[p]) != tree[p];
    updated := |written|;
  }
}
