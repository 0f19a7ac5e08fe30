/** scripts/fix_body_and_styles.py: four passes over the site. The pages in
    the site root get their `<body id="page-top">` tag repaired and a closing
    `</body>`; four CSS classes are appended to `css/main.css` when absent;
    four inline `style` attributes of the root pages are replaced by those
    classes; and an old commented-out line is removed from the two footer
    partials. Every file is written back only when its text changed. */
module BodyAndStyles {
  import opened Strings
  import opened Paths

  // ---------------------------------------------------------------------
  // fix_body_tags
  // ---------------------------------------------------------------------

  /** The broken tag the pages carry instead of an opening `<body>`. */
  const PageTop := "<id=\"page-top\">"
  const BodyOpen := "<body"
  const BodyPageTop := BodyOpen + " id=\"page-top\">"
  const BodyClose := "</body>"
  const HtmlClose := "</html>"

  /** The first repair: the first broken tag becomes an opening `<body>`
      when the page has none, and is deleted otherwise. */
  function FixPageTop(text: string): (r: string)
    ensures !Contains(text, PageTop) ==> r == text
    ensures Contains(text, PageTop) ==>
      var i := FindFirst(text, PageTop).value;
      r == text[..i] + (if Contains(text, BodyOpen) then "" else BodyPageTop) + text[i + |PageTop|..]
  {
    if Contains(text, PageTop) then
      if !Contains(text, BodyOpen) then ReplaceFirst(text, PageTop, BodyPageTop)
      else ReplaceFirst(text, PageTop, "")
    else text
  }

  /** The second repair: when the page closes `</html>` but never `</body>`,
      every `</html>` gets a `</body>` line before it. */
  function CloseBody(text: string): (r: string)
    ensures Contains(text, BodyClose) || !Contains(text, HtmlClose) ==> r == text
  {
    if Contains(text, HtmlClose) && !Contains(text, BodyClose)
    then ReplaceAll(text, HtmlClose, BodyClose + "\n" + HtmlClose)
    else text
  }

  /** A page after `fix_body_tags`. */
  function FixBody(text: string): string {
    CloseBody(FixPageTop(text))
  }

  /** Two tags that open with `<`, hold no other `<` and differ in their
      second character never overlap in a text. */
  lemma DisjointTags(s: string, c: string, d: string, i: int, j: int)
    requires OccursAt(s, d, i) && OccursAt(s, c, j)
    requires |c| >= 2 && |d| >= 2 && c[0] == '<' && d[0] == '<' && c[1] != d[1]
    requires '<' !in c[1..] && '<' !in d[1..]
    ensures j + |c| <= i || i + |d| <= j
  {
    assert s[i] == s[i..i + |d|][0] == '<';
    assert s[j] == s[j..j + |c|][0] == '<';
    assert s[i + 1] == s[i..i + |d|][1] == d[1];
    assert s[j + 1] == s[j..j + |c|][1] == c[1];
    forall k | j < k < j + |c| ensures s[k] != '<' {
      assert s[k] == s[j..j + |c|][k - j] == c[1..][k - j - 1];
    }
    forall k | i < k < i + |d| ensures s[k] != '<' {
      assert s[k] == s[i..i + |d|][k - i] == d[1..][k - i - 1];
    }
  }

  /** Replacing a stretch of text keeps every occurrence of `c` that lies
      clear of it. */
  lemma SpliceKeeps(s: string, i: int, n: int, mid: string, c: string)
    requires 0 <= i && 0 <= n && i + n <= |s| && Contains(s, c)
    requires forall j :: OccursAt(s, c, j) ==> j + |c| <= i || i + n <= j
    ensures Contains(s[..i] + mid + s[i + n..], c)
  {
    ContainsIffOccurs(s, c);
    var j :| OccursAt(s, c, j);
    var r := s[..i] + mid + s[i + n..];
    if j + |c| <= i {
      SpliceKeepsBefore(s, i, n, mid, c, j);
    } else {
      SpliceKeepsAfter(s, i, n, mid, c, j);
    }
    ContainsIffOccurs(r, c);
  }

  lemma SpliceKeepsBefore(s: string, i: int, n: int, mid: string, c: string, j: int)
    requires 0 <= i && 0 <= n && i + n <= |s| && OccursAt(s, c, j) && j + |c| <= i
    ensures OccursAt(s[..i] + mid + s[i + n..], c, j)
  {
    var r := s[..i] + mid + s[i + n..];
    forall q | 0 <= q < |c| ensures r[j + q] == c[q] {
      assert r[j + q] == s[j + q] == s[j..j + |c|][q];
    }
    assert r[j..j + |c|] == c;
  }

  lemma SpliceKeepsAfter(s: string, i: int, n: int, mid: string, c: string, j: int)
    requires 0 <= i && 0 <= n && i + n <= |s| && OccursAt(s, c, j) && i + n <= j
    ensures OccursAt(s[..i] + mid + s[i + n..], c, j - n + |mid|)
  {
    var r := s[..i] + mid + s[i + n..];
    var k := j - n + |mid|;
    forall q | 0 <= q < |c| ensures r[k + q] == c[q] {
      assert r[k + q] == s[j + q] == s[j..j + |c|][q];
    }
    assert r[k..k + |c|] == c;
  }

  /** The first repair keeps every tag that opens with `<` and does not
      overlap the broken tag. */
  lemma FixPageTopKeeps(text: string, c: string)
    requires Contains(text, c)
    requires |c| >= 2 && c[0] == '<' && c[1] != 'i' && '<' !in c[1..]
    ensures Contains(FixPageTop(text), c)
  {
    if Contains(text, PageTop) {
      var i := FindFirst(text, PageTop).value;
      var mid := if Contains(text, BodyOpen) then "" else BodyPageTop;
      forall j | OccursAt(text, c, j) ensures j + |c| <= i || i + |PageTop| <= j {
        DisjointTags(text, c, PageTop, i, j);
      }
      SpliceKeeps(text, i, |PageTop|, mid, c);
    }
  }

  /** After the first repair a page that had the broken tag has an opening
      `<body`: either it was there already and survives the deletion, or
      the broken tag became one. */
  lemma PageTopGivesBody(text: string)
    requires Contains(text, PageTop)
    ensures Contains(FixPageTop(text), BodyOpen)
  {
    var i := FindFirst(text, PageTop).value;
    if Contains(text, BodyOpen) {
      FixPageTopKeeps(text, BodyOpen);
    } else {
      var tail := text[i + |PageTop|..];
      assert text[..i] + BodyPageTop + tail == text[..i] + BodyOpen + (" id=\"page-top\">" + tail);
      ContainsInMiddle(text[..i], BodyOpen, " id=\"page-top\">" + tail);
    }
  }

  /** After the second repair a page that closes `</html>` closes
      `</body>` too. */
  lemma CloseBodyCloses(text: string)
    requires Contains(text, HtmlClose)
    ensures Contains(CloseBody(text), BodyClose)
  {
    if !Contains(text, BodyClose) {
      ReplaceAllIntroduces(text, HtmlClose, BodyClose + "\n" + HtmlClose);
      assert BodyClose + "\n" + HtmlClose == BodyClose + ("\n" + HtmlClose);
      ContainsOfLonger(CloseBody(text), BodyClose, "\n" + HtmlClose);
    }
  }

  /** `fix_body_tags` leaves every page that closes `</html>` with a
      `</body>`, so a second pass adds no second one. */
  lemma FixBodyCloses(text: string)
    requires Contains(text, HtmlClose)
    ensures Contains(FixBody(text), BodyClose)
    ensures CloseBody(FixBody(text)) == FixBody(text)
  {
    FixPageTopKeeps(text, HtmlClose);
    CloseBodyCloses(FixPageTop(text));
  }

  // ---------------------------------------------------------------------
  // update_css
  // ---------------------------------------------------------------------

  /** The stylesheet the classes go to. */
  const CssPath: Path := "css/main.css"

  /** A class rule: the selector looked for, and the text appended when it
      is missing. */
  datatype Rule = Rule(selector: string, text: string)

  const HeroSelector := ".section-pad-hero"
  const GreySelector := ".section-pad-10-20-grey"
  const PadSelector := ".section-pad-2"
  const WrapSelector := ".wrap-texto-pad-20"
  const HeroRule := "\n" + HeroSelector + " { padding-top: 40px; }\n"
  const GreyRule := GreySelector + " { padding-top: 10px; padding-bottom: 20px; background-color: #e8e8e8; }\n"
  const PadRule := PadSelector + " { padding: 2%; }\n"
  const WrapRule := WrapSelector + " { padding-top: 20%; }\n"

  /** The four rules in the order they are checked. */
  const CssRules := [Rule(HeroSelector, HeroRule), Rule(GreySelector, GreyRule),
                     Rule(PadSelector, PadRule), Rule(WrapSelector, WrapRule)]

  /** `additions`: the texts of the rules whose selector `css` lacks, in
      order. */
  function Additions(css: string, rules: seq<Rule>): string {
    if rules == [] then []
    else
      var last := rules[|rules| - 1];
      Additions(css, rules[..|rules| - 1]) + (if Contains(css, last.selector) then [] else last.text)
  }

  /** The stylesheet after `update_css`: written only when something is
      appended, after a blank line. */
  function UpdatedCss(css: string): string {
    var additions := Additions(css, CssRules);
    if additions == [] then css else css + "\n" + additions
  }

  /** Nothing is appended exactly when every selector is already there. */
  lemma {:induction false} AdditionsEmpty(css: string, rules: seq<Rule>)
    requires forall k :: 0 <= k < |rules| ==> rules[k].text != []
    ensures Additions(css, rules) == [] <==> forall k :: 0 <= k < |rules| ==> Contains(css, rules[k].selector)
    decreases |rules|
  {
    if rules != [] {
      var init := rules[..|rules| - 1];
      AdditionsEmpty(css, init);
      assert forall k :: 0 <= k < |init| ==> rules[k] == init[k];
    }
  }

  /** A rule whose selector is missing lands in the additions, and with it
      the selector. */
  lemma {:induction false} AdditionsCover(css: string, rules: seq<Rule>, k: nat)
    requires k < |rules| && Contains(rules[k].text, rules[k].selector)
    requires !Contains(css, rules[k].selector)
    ensures Contains(Additions(css, rules), rules[k].selector)
    decreases |rules|
  {
    var init := rules[..|rules| - 1];
    var last := rules[|rules| - 1];
    var tail := if Contains(css, last.selector) then [] else last.text;
    assert Additions(css, rules) == Additions(css, init) + tail;
    if k == |rules| - 1 {
      ContainsSuffix(Additions(css, init) + tail, rules[k].selector, |Additions(css, init)|);
    } else {
      assert rules[k] == init[k];
      AdditionsCover(css, init, k);
      ContainsKeepsPart(Additions(css, init), tail, rules[k].selector);
    }
  }

  /** `Contains` is kept by appending text. */
  lemma ContainsKeepsPart(x: string, y: string, c: string)
    requires Contains(x, c)
    ensures Contains(x + y, c)
  {
    assert (x + y)[..|x|] == x;
    ContainsPrefix(x + y, c, |x|);
  }

  /** Every rule text holds its selector. */
  lemma RulesHoldSelectors()
    ensures forall k :: 0 <= k < |CssRules| ==> Contains(CssRules[k].text, CssRules[k].selector)
  {
    ContainsInMiddle("\n", HeroSelector, " { padding-top: 40px; }\n");
    ContainsInMiddle([], GreySelector, " { padding-top: 10px; padding-bottom: 20px; background-color: #e8e8e8; }\n");
    assert GreyRule == [] + GreySelector + " { padding-top: 10px; padding-bottom: 20px; background-color: #e8e8e8; }\n";
    ContainsInMiddle([], PadSelector, " { padding: 2%; }\n");
    assert PadRule == [] + PadSelector + " { padding: 2%; }\n";
    ContainsInMiddle([], WrapSelector, " { padding-top: 20%; }\n");
    assert WrapRule == [] + WrapSelector + " { padding-top: 20%; }\n";
  }

  /** `update_css`: the text written to the stylesheet, if any. */
  method UpdateCss(css: string) returns (written: Option<string>)
    ensures written.None? <==> forall k :: 0 <= k < |CssRules| ==> Contains(css, CssRules[k].selector)
    ensures written.Some? ==> written.value == UpdatedCss(css)
  {
    var additions := "";
    assert CssRules[..0] == [];
    if !Contains(css, HeroSelector) {
      additions := additions + HeroRule;
    }
    assert CssRules[..1][..0] == CssRules[..0];
    assert additions == Additions(css, CssRules[..1]);
    if !Contains(css, GreySelector) {
      additions := additions + GreyRule;
    }
    assert CssRules[..2][..1] == CssRules[..1];
    assert additions == Additions(css, CssRules[..2]);
    if !Contains(css, PadSelector) {
      additions := additions + PadRule;
    }
    assert CssRules[..3][..2] == CssRules[..2];
    assert additions == Additions(css, CssRules[..3]);
    if !Contains(css, WrapSelector) {
      additions := additions + WrapRule;
    }
    assert CssRules[..4][..3] == CssRules[..3] && CssRules[..4] == CssRules;
    assert additions == Additions(css, CssRules);
    AdditionsEmpty(css, CssRules);
    if additions != [] {
      written := Some(css + "\n" + additions);
    } else {
      written := None;
    }
  }

  /** `update_css` on the site: the stylesheet is rewritten, when at all,
      with the missing rules appended. */
  method WriteCss(tree: Tree) returns (result: Tree)
    requires CssPath in tree
    ensures result == tree[CssPath := UpdatedCss(tree[CssPath])]
  {
    result := tree;
    var css := UpdateCss(tree[CssPath]);
    AdditionsEmpty(tree[CssPath], CssRules);
    if css.Some? {
      result := result[CssPath := css.value];
    } else {
      assert tree[CssPath := UpdatedCss(tree[CssPath])] == tree;
    }
  }

  /** The stylesheet keeps its old text as a prefix, and a second run on it
      appends nothing. */
  lemma UpdateCssSettles(css: string)
    ensures StartsWith(UpdatedCss(css), css)
    ensures UpdatedCss(UpdatedCss(css)) == UpdatedCss(css)
  {
    var after := UpdatedCss(css);
    assert after[..|css|] == css;
    RulesHoldSelectors();
    AppendedCoversAll(css, CssRules);
    AdditionsEmpty(after, CssRules);
  }

  /** Once the missing rule texts are appended, every selector is present. */
  lemma AppendedCoversAll(css: string, rules: seq<Rule>)
    requires forall k :: 0 <= k < |rules| ==> Contains(rules[k].text, rules[k].selector)
    ensures var additions := Additions(css, rules);
            var after := if additions == [] then css else css + "\n" + additions;
            forall k :: 0 <= k < |rules| ==> Contains(after, rules[k].selector)
  {
    var additions := Additions(css, rules);
    var after := if additions == [] then css else css + "\n" + additions;
    forall k | 0 <= k < |rules| ensures Contains(after, rules[k].selector) {
      if Contains(css, rules[k].selector) {
        if additions != [] {
          ContainsKeepsPart(css, "\n" + additions, rules[k].selector);
          assert css + ("\n" + additions) == after;
        }
      } else {
        AdditionsCover(css, rules, k);
        assert after[|css| + 1..] == additions;
        ContainsSuffix(after, rules[k].selector, |css| + 1);
      }
    }
  }

  // ---------------------------------------------------------------------
  // replace_inline_styles
  // ---------------------------------------------------------------------

  // The attribute texts the replacements look for and put in. The longer
  // ones are written as concatenations of short literals: the `NotInside`
  // and `NotAcross` lemmas below compare them character by character, and
  // the verifier works out the characters of short literals only.
  const HeroStyle := "class=\"headings headed " + "leblanc\"" + " style=\"padding-top: 40px\""
  const HeroClass := "class=\"headings headed " + "leblanc section-pad-hero\""
  const GreyStyle := "class=\"headings\"" + " style=\"padding-top: 10px; " + "padding-bottom: 20px;" + "background-color: #e8e8e8\""
  const GreyClass := "class=\"headings " + "section-pad-10-20-grey\""
  const PadStyle := "<section style=\"padding: 2%\">"
  const PadClass := "<section " + "class=\"section-pad-2\">"
  const WrapStyle := "class=\"wrap-texto2\"" + " style=\"padding-top: 20%\""
  const WrapClass := "class=\"wrap-texto2 " + "wrap-texto-pad-20\""

  /** The four replacements, in the order they are applied. */
  const InlineStyles: seq<(string, string)> :=
    [(HeroStyle, HeroClass), (GreyStyle, GreyClass), (PadStyle, PadClass), (WrapStyle, WrapClass)]

  predicate NonEmptyPatterns(styles: seq<(string, string)>) {
    forall k :: 0 <= k < |styles| ==> |styles[k].0| > 0
  }

  /** No replacement text can bring back the pattern of an earlier or the
      same replacement. */
  predicate Settling(styles: seq<(string, string)>) {
    forall k, m :: 0 <= k <= m < |styles| ==> NoCross(styles[k].0, styles[m].1)
  }

  /** The text after replacing every occurrence of each pattern in turn. */
  function Restyled(text: string, styles: seq<(string, string)>): string
    requires NonEmptyPatterns(styles)
    decreases |styles|
  {
    if styles == [] then text
    else Restyled(ReplaceAll(text, styles[0].0, styles[0].1), styles[1..])
  }

  /** A pattern that is absent stays absent when no replacement text can
      form it. */
  lemma {:induction false} RestyledKeepsOut(text: string, styles: seq<(string, string)>, c: string)
    requires NonEmptyPatterns(styles) && |c| > 0 && !Contains(text, c)
    requires forall m :: 0 <= m < |styles| ==> NoCross(c, styles[m].1)
    ensures !Contains(Restyled(text, styles), c)
    decreases |styles|
  {
    if styles != [] {
      ReplaceAllLeavesNo(text, styles[0].0, styles[0].1, c);
      assert forall m :: 0 <= m < |styles[1..]| ==> styles[1..][m] == styles[m + 1];
      RestyledKeepsOut(ReplaceAll(text, styles[0].0, styles[0].1), styles[1..], c);
    }
  }

  /** After the replacements no pattern is left in the text. */
  lemma {:induction false} RestyledRemoves(text: string, styles: seq<(string, string)>)
    requires NonEmptyPatterns(styles) && Settling(styles)
    ensures forall k :: 0 <= k < |styles| ==> !Contains(Restyled(text, styles), styles[k].0)
    decreases |styles|
  {
    if styles != [] {
      var next := ReplaceAll(text, styles[0].0, styles[0].1);
      var rest := styles[1..];
      assert forall m :: 0 <= m < |rest| ==> rest[m] == styles[m + 1];
      assert Settling(rest);
      RestyledRemoves(next, rest);
      ReplaceAllLeavesNo(text, styles[0].0, styles[0].1, styles[0].0);
      RestyledKeepsOut(next, rest, styles[0].0);
    }
  }

  /** A text holding none of the patterns is left as it is. */
  lemma {:induction false} RestyledAbsent(text: string, styles: seq<(string, string)>)
    requires NonEmptyPatterns(styles)
    requires forall k :: 0 <= k < |styles| ==> !Contains(text, styles[k].0)
    ensures Restyled(text, styles) == text
    decreases |styles|
  {
    if styles != [] {
      ReplaceAllAbsent(text, styles[0].0, styles[0].1);
      assert forall m :: 0 <= m < |styles[1..]| ==> styles[1..][m] == styles[m + 1];
      RestyledAbsent(text, styles[1..]);
    }
  }

  /** `replace_inline_styles` on one page. */
  function Restyle(text: string): string {
    Restyled(text, InlineStyles)
  }

  /** A second `replace_inline_styles` changes nothing, and leaves none of
      the four inline styles behind. */
  lemma RestyleIdempotent(text: string)
    ensures forall k :: 0 <= k < |InlineStyles| ==> !Contains(Restyle(text), InlineStyles[k].0)
    ensures Restyle(Restyle(text)) == Restyle(text)
  {
    InlineStylesSettle();
    RestyledRemoves(text, InlineStyles);
    RestyledAbsent(Restyle(text), InlineStyles);
  }

  /** None of the four class-only forms can bring back an inline style
      replaced at or before it. */
  lemma InlineStylesSettle()
    ensures Settling(InlineStyles)
  {
    NoCrossHeroStyleHeroClass();
    NoCrossHeroStyleGreyClass();
    NoCrossHeroStylePadClass();
    NoCrossHeroStyleWrapClass();
    NoCrossGreyStyleGreyClass();
    NoCrossGreyStylePadClass();
    NoCrossGreyStyleWrapClass();
    NoCrossPadStylePadClass();
    NoCrossPadStyleWrapClass();
    NoCrossWrapStyleWrapClass();
  }

  // Each `NotInside` lemma shows that a style text cannot start inside a
  // class text, and each `NotAcross` lemma that no proper suffix of it runs
  // on into one: at every offset the two differ in one named position.

  lemma NoCrossHeroStyleHeroClass()
    ensures NoCross(HeroStyle, HeroClass)
  {
    HeroStyleNotInsideHeroClass();
    HeroStyleNotAcrossHeroClass();
  }

  lemma HeroStyleNotInsideHeroClass()
    ensures forall q :: 0 <= q < |HeroClass| ==> !Compatible(HeroStyle, HeroClass[q..])
  {
    forall q | 0 <= q < |HeroClass| ensures !Compatible(HeroStyle, HeroClass[q..]) {
      if HeroClass[q] != HeroStyle[0] {
        Incompatible(HeroStyle, HeroClass[q..], 0);
      } else if q == 0 {
        Incompatible(HeroStyle, HeroClass[q..], 30);
      } else {
        Incompatible(HeroStyle, HeroClass[q..], 1);
      }
    }
  }

  lemma HeroStyleNotAcrossHeroClass()
    ensures forall k :: 0 < k < |HeroStyle| ==> !Compatible(HeroStyle[k..], HeroClass)
  {
    forall k | 0 < k < |HeroStyle| ensures !Compatible(HeroStyle[k..], HeroClass) {
      if HeroStyle[k] != HeroClass[0] {
        Incompatible(HeroStyle[k..], HeroClass, 0);
      } else {
        Incompatible(HeroStyle[k..], HeroClass, 1);
      }
    }
  }

  lemma NoCrossHeroStyleGreyClass()
    ensures NoCross(HeroStyle, GreyClass)
  {
    HeroStyleNotInsideGreyClass();
    HeroStyleNotAcrossGreyClass();
  }

  lemma HeroStyleNotInsideGreyClass()
    ensures forall q :: 0 <= q < |GreyClass| ==> !Compatible(HeroStyle, GreyClass[q..])
  {
    forall q | 0 <= q < |GreyClass| ensures !Compatible(HeroStyle, GreyClass[q..]) {
      if GreyClass[q] != HeroStyle[0] {
        Incompatible(HeroStyle, GreyClass[q..], 0);
      } else if q == 0 {
        Incompatible(HeroStyle, GreyClass[q..], 16);
      } else {
        Incompatible(HeroStyle, GreyClass[q..], 1);
      }
    }
  }

  lemma HeroStyleNotAcrossGreyClass()
    ensures forall k :: 0 < k < |HeroStyle| ==> !Compatible(HeroStyle[k..], GreyClass)
  {
    forall k | 0 < k < |HeroStyle| ensures !Compatible(HeroStyle[k..], GreyClass) {
      if HeroStyle[k] != GreyClass[0] {
        Incompatible(HeroStyle[k..], GreyClass, 0);
      } else {
        Incompatible(HeroStyle[k..], GreyClass, 1);
      }
    }
  }

  lemma NoCrossHeroStylePadClass()
    ensures NoCross(HeroStyle, PadClass)
  {
    HeroStyleNotInsidePadClass();
    HeroStyleNotAcrossPadClass();
  }

  lemma HeroStyleNotInsidePadClass()
    ensures forall q :: 0 <= q < |PadClass| ==> !Compatible(HeroStyle, PadClass[q..])
  {
    forall q | 0 <= q < |PadClass| ensures !Compatible(HeroStyle, PadClass[q..]) {
      if PadClass[q] != HeroStyle[0] {
        Incompatible(HeroStyle, PadClass[q..], 0);
      } else if q == 3 || q == 18 {
        Incompatible(HeroStyle, PadClass[q..], 1);
      } else {
        Incompatible(HeroStyle, PadClass[q..], 7);
      }
    }
  }

  lemma HeroStyleNotAcrossPadClass()
    ensures forall k :: 0 < k < |HeroStyle| ==> !Compatible(HeroStyle[k..], PadClass)
  {
    forall k | 0 < k < |HeroStyle| ensures !Compatible(HeroStyle[k..], PadClass) {
      Incompatible(HeroStyle[k..], PadClass, 0);
    }
  }

  lemma NoCrossHeroStyleWrapClass()
    ensures NoCross(HeroStyle, WrapClass)
  {
    HeroStyleNotInsideWrapClass();
    HeroStyleNotAcrossWrapClass();
  }

  lemma HeroStyleNotInsideWrapClass()
    ensures forall q :: 0 <= q < |WrapClass| ==> !Compatible(HeroStyle, WrapClass[q..])
  {
    forall q | 0 <= q < |WrapClass| ensures !Compatible(HeroStyle, WrapClass[q..]) {
      if WrapClass[q] != HeroStyle[0] {
        Incompatible(HeroStyle, WrapClass[q..], 0);
      } else {
        Incompatible(HeroStyle, WrapClass[q..], 7);
      }
    }
  }

  lemma HeroStyleNotAcrossWrapClass()
    ensures forall k :: 0 < k < |HeroStyle| ==> !Compatible(HeroStyle[k..], WrapClass)
  {
    forall k | 0 < k < |HeroStyle| ensures !Compatible(HeroStyle[k..], WrapClass) {
      if HeroStyle[k] != WrapClass[0] {
        Incompatible(HeroStyle[k..], WrapClass, 0);
      } else {
        Incompatible(HeroStyle[k..], WrapClass, 1);
      }
    }
  }

  lemma NoCrossGreyStyleGreyClass()
    ensures NoCross(GreyStyle, GreyClass)
  {
    GreyStyleNotInsideGreyClass();
    GreyStyleNotAcrossGreyClass();
  }

  lemma GreyStyleNotInsideGreyClass()
    ensures forall q :: 0 <= q < |GreyClass| ==> !Compatible(GreyStyle, GreyClass[q..])
  {
    forall q | 0 <= q < |GreyClass| ensures !Compatible(GreyStyle, GreyClass[q..]) {
      if GreyClass[q] != GreyStyle[0] {
        Incompatible(GreyStyle, GreyClass[q..], 0);
      } else if q == 0 {
        Incompatible(GreyStyle, GreyClass[q..], 15);
      } else {
        Incompatible(GreyStyle, GreyClass[q..], 1);
      }
    }
  }

  lemma GreyStyleNotAcrossGreyClass()
    ensures forall k :: 0 < k < |GreyStyle| ==> !Compatible(GreyStyle[k..], GreyClass)
  {
    forall k | 0 < k < |GreyStyle| ensures !Compatible(GreyStyle[k..], GreyClass) {
      if GreyStyle[k] != GreyClass[0] {
        Incompatible(GreyStyle[k..], GreyClass, 0);
      } else {
        Incompatible(GreyStyle[k..], GreyClass, 1);
      }
    }
  }

  lemma NoCrossGreyStylePadClass()
    ensures NoCross(GreyStyle, PadClass)
  {
    GreyStyleNotInsidePadClass();
    GreyStyleNotAcrossPadClass();
  }

  lemma GreyStyleNotInsidePadClass()
    ensures forall q :: 0 <= q < |PadClass| ==> !Compatible(GreyStyle, PadClass[q..])
  {
    forall q | 0 <= q < |PadClass| ensures !Compatible(GreyStyle, PadClass[q..]) {
      if PadClass[q] != GreyStyle[0] {
        Incompatible(GreyStyle, PadClass[q..], 0);
      } else if q == 3 || q == 18 {
        Incompatible(GreyStyle, PadClass[q..], 1);
      } else {
        Incompatible(GreyStyle, PadClass[q..], 7);
      }
    }
  }

  lemma GreyStyleNotAcrossPadClass()
    ensures forall k :: 0 < k < |GreyStyle| ==> !Compatible(GreyStyle[k..], PadClass)
  {
    forall k | 0 < k < |GreyStyle| ensures !Compatible(GreyStyle[k..], PadClass) {
      Incompatible(GreyStyle[k..], PadClass, 0);
    }
  }

  lemma NoCrossGreyStyleWrapClass()
    ensures NoCross(GreyStyle, WrapClass)
  {
    GreyStyleNotInsideWrapClass();
    GreyStyleNotAcrossWrapClass();
  }

  lemma GreyStyleNotInsideWrapClass()
    ensures forall q :: 0 <= q < |WrapClass| ==> !Compatible(GreyStyle, WrapClass[q..])
  {
    forall q | 0 <= q < |WrapClass| ensures !Compatible(GreyStyle, WrapClass[q..]) {
      if WrapClass[q] != GreyStyle[0] {
        Incompatible(GreyStyle, WrapClass[q..], 0);
      } else {
        Incompatible(GreyStyle, WrapClass[q..], 7);
      }
    }
  }

  lemma GreyStyleNotAcrossWrapClass()
    ensures forall k :: 0 < k < |GreyStyle| ==> !Compatible(GreyStyle[k..], WrapClass)
  {
    forall k | 0 < k < |GreyStyle| ensures !Compatible(GreyStyle[k..], WrapClass) {
      if GreyStyle[k] != WrapClass[0] {
        Incompatible(GreyStyle[k..], WrapClass, 0);
      } else {
        Incompatible(GreyStyle[k..], WrapClass, 1);
      }
    }
  }

  lemma NoCrossPadStylePadClass()
    ensures NoCross(PadStyle, PadClass)
  {
    PadStyleNotInsidePadClass();
    PadStyleNotAcrossPadClass();
  }

  lemma PadStyleNotInsidePadClass()
    ensures forall q :: 0 <= q < |PadClass| ==> !Compatible(PadStyle, PadClass[q..])
  {
    forall q | 0 <= q < |PadClass| ensures !Compatible(PadStyle, PadClass[q..]) {
      if PadClass[q] != PadStyle[0] {
        Incompatible(PadStyle, PadClass[q..], 0);
      } else {
        Incompatible(PadStyle, PadClass[q..], 9);
      }
    }
  }

  lemma PadStyleNotAcrossPadClass()
    ensures forall k :: 0 < k < |PadStyle| ==> !Compatible(PadStyle[k..], PadClass)
  {
    forall k | 0 < k < |PadStyle| ensures !Compatible(PadStyle[k..], PadClass) {
      Incompatible(PadStyle[k..], PadClass, 0);
    }
  }

  lemma NoCrossPadStyleWrapClass()
    ensures NoCross(PadStyle, WrapClass)
  {
    PadStyleNotInsideWrapClass();
    PadStyleNotAcrossWrapClass();
  }

  lemma PadStyleNotInsideWrapClass()
    ensures forall q :: 0 <= q < |WrapClass| ==> !Compatible(PadStyle, WrapClass[q..])
  {
    forall q | 0 <= q < |WrapClass| ensures !Compatible(PadStyle, WrapClass[q..]) {
      Incompatible(PadStyle, WrapClass[q..], 0);
    }
  }

  lemma PadStyleNotAcrossWrapClass()
    ensures forall k :: 0 < k < |PadStyle| ==> !Compatible(PadStyle[k..], WrapClass)
  {
    forall k | 0 < k < |PadStyle| ensures !Compatible(PadStyle[k..], WrapClass) {
      if PadStyle[k] != WrapClass[0] {
        Incompatible(PadStyle[k..], WrapClass, 0);
      } else {
        Incompatible(PadStyle[k..], WrapClass, 1);
      }
    }
  }

  lemma NoCrossWrapStyleWrapClass()
    ensures NoCross(WrapStyle, WrapClass)
  {
    WrapStyleNotInsideWrapClass();
    WrapStyleNotAcrossWrapClass();
  }

  lemma WrapStyleNotInsideWrapClass()
    ensures forall q :: 0 <= q < |WrapClass| ==> !Compatible(WrapStyle, WrapClass[q..])
  {
    forall q | 0 <= q < |WrapClass| ensures !Compatible(WrapStyle, WrapClass[q..]) {
      if WrapClass[q] != WrapStyle[0] {
        Incompatible(WrapStyle, WrapClass[q..], 0);
      } else {
        Incompatible(WrapStyle, WrapClass[q..], 18);
      }
    }
  }

  lemma WrapStyleNotAcrossWrapClass()
    ensures forall k :: 0 < k < |WrapStyle| ==> !Compatible(WrapStyle[k..], WrapClass)
  {
    forall k | 0 < k < |WrapStyle| ensures !Compatible(WrapStyle[k..], WrapClass) {
      Incompatible(WrapStyle[k..], WrapClass, 0);
    }
  }

  // ---------------------------------------------------------------------
  // clean_comments and main
  // ---------------------------------------------------------------------

  /** The commented-out contact line removed from the footers. */
  const OldComment := "          <!--<p class=\"letraa\" >Contacto</p>-->\n"

  /** The footer partials, in the order they are cleaned. */
  const Footers: seq<Path> := ["partials/footer.html", "partials/footer-casaflex.html"]


  /** A footer after `clean_comments`. */
  function CleanComments(text: string): string {
    ReplaceAll(text, OldComment, "")
  }

  /** A footer is rewritten exactly when it holds the old line, and then
      it gets shorter. */
  lemma CleanCommentsChanges(text: string)
    ensures CleanComments(text) != text <==> Contains(text, OldComment)
    ensures Contains(text, OldComment) ==> |CleanComments(text)| < |text|
  {
    ReplaceAllChanges(text, OldComment, "");
    if Contains(text, OldComment) {
      ReplaceAllLengthStrict(text, OldComment, "");
    }
  }

  /** The footer loop of `clean_comments`: it stops at the first footer
      that does not exist, where `read_text` raises. */
  method CleanFooters(tree: Tree) returns (result: Tree, missing: Option<Path>)
    ensures result.Keys == tree.Keys
    ensures forall p :: p in tree && p !in Footers ==> result[p] == tree[p]
    ensures missing.None? ==> forall j :: 0 <= j < |Footers| ==>
                                Footers[j] in tree && result[Footers[j]] == CleanComments(tree[Footers[j]])
    ensures missing.Some? ==> StoppedAt(tree, result, missing.value)
  {
    result := tree;
    for i := 0 to |Footers|
      invariant result.Keys == tree.Keys
      invariant forall p :: p in tree && p !in Footers[..i] ==> result[p] == tree[p]
      invariant forall j :: 0 <= j < i ==> Footers[j] in tree && result[Footers[j]] == CleanComments(tree[Footers[j]])
    {
      var footer := Footers[i];
      if footer !in result {
        assert forall j :: i <= j < |Footers| ==> Footers[j] !in Footers[..i];
        assert StoppedAt(tree, result, footer) by {
          assert StoppedAtIndex(tree, result, footer, i);
        }
        return result, Some(footer);
      }
      var text := result[footer];
      var cleaned := ReplaceAll(text, OldComment, "");
      if cleaned != text {
        result := result[footer := cleaned];
      }
      assert Footers[..i + 1] == Footers[..i] + [footer];
    }
    missing := None;
  }

  /** The stylesheet and the footers are not pages of the site root, and
      are distinct files. */
  lemma LayoutDistinct()
    ensures !IsRootPage(CssPath)
    ensures forall j :: 0 <= j < |Footers| ==> !IsRootPage(Footers[j]) && Footers[j] != CssPath
  {
    assert CssPath[3] == '/';
    assert Footers[0][8] == '/' && Footers[1][8] == '/';
    assert |Footers[0]| != |CssPath| && |Footers[1]| != |CssPath|;
  }

  /** How a run of `main` ends: normally, or with the exception raised
      when the stylesheet or a footer does not exist. */
  datatype Outcome = Completed | MissingCss | MissingFooter(path: Path)

  /** `main`: the four passes in order. A missing stylesheet stops the run
      after the body repair; a missing footer stops it in the last pass. */
  method Run(tree: Tree) returns (result: Tree, outcome: Outcome)
    ensures result.Keys == tree.Keys
    ensures forall p :: p in tree && !IsRootPage(p) && p != CssPath && p !in Footers ==> result[p] == tree[p]
    ensures CssPath !in tree ==> outcome == MissingCss
    ensures CssPath !in tree ==> forall p :: p in tree && IsRootPage(p) ==> result[p] == FixBody(tree[p])
    ensures CssPath in tree ==> forall p :: p in tree && IsRootPage(p) ==> result[p] == Restyle(FixBody(tree[p]))
    ensures CssPath in tree ==> result[CssPath] == UpdatedCss(tree[CssPath])
    ensures CssPath in tree ==> (outcome == Completed <==> forall j :: 0 <= j < |Footers| ==> Footers[j] in tree)
    ensures outcome == Completed ==> forall j :: 0 <= j < |Footers| ==> result[Footers[j]] == CleanComments(tree[Footers[j]])
    ensures outcome == MissingCss ==> forall j :: 0 <= j < |Footers| && Footers[j] in tree ==> result[Footers[j]] == tree[Footers[j]]
    ensures outcome.MissingFooter? ==> CssPath in tree && StoppedAt(tree, result, outcome.path)
  {
    LayoutDistinct();
    var written;
    result, written := RewriteFiles(tree, RootPages(tree), FixBody);
    if CssPath !in result {
      return result, MissingCss;
    }
    var fixed := result;
    assert forall j :: 0 <= j < |Footers| && Footers[j] in tree ==> fixed[Footers[j]] == tree[Footers[j]];
    result, outcome := StylesAndFooters(fixed);
    if outcome.MissingFooter? {
      FootersCarried(tree, fixed, result, outcome.path);
    }
  }

  /** The last three passes of `main`, from the tree the body repair
      leaves. */
  method StylesAndFooters(tree: Tree) returns (result: Tree, outcome: Outcome)
    requires CssPath in tree
    ensures result.Keys == tree.Keys
    ensures forall p :: p in tree && !IsRootPage(p) && p != CssPath && p !in Footers ==> result[p] == tree[p]
    ensures forall p :: p in tree && IsRootPage(p) ==> result[p] == Restyle(tree[p])
    ensures result[CssPath] == UpdatedCss(tree[CssPath])
    ensures outcome != MissingCss
    ensures outcome == Completed <==> forall j :: 0 <= j < |Footers| ==> Footers[j] in tree
    ensures outcome == Completed ==> forall j :: 0 <= j < |Footers| ==> result[Footers[j]] == CleanComments(tree[Footers[j]])
    ensures outcome.MissingFooter? ==> StoppedAt(tree, result, outcome.path)
  {
    LayoutDistinct();
    var written;
    result := WriteCss(tree);
    result, written := RewriteFiles(result, RootPages(result), Restyle);
    var missing;
    ghost var beforeFooters := result;
    assert forall j :: 0 <= j < |Footers| && Footers[j] in tree ==> beforeFooters[Footers[j]] == tree[Footers[j]];
    result, missing := CleanFooters(result);
    outcome := if missing.Some? then MissingFooter(missing.value) else Completed;
    if missing.Some? {
      FootersCarried(tree, beforeFooters, result, missing.value);
    }
  }

  /** The footer loop stopped at `missing`, the `i`-th footer, which does
      not exist: the footers before it are cleaned, the others keep their
      text. */
  ghost predicate StoppedAtIndex(tree: Tree, result: Tree, missing: Path, i: int)
    requires result.Keys == tree.Keys
  {
    && 0 <= i < |Footers| && missing == Footers[i] && Footers[i] !in tree
    && (forall j :: 0 <= j < i ==> Footers[j] in tree && result[Footers[j]] == CleanComments(tree[Footers[j]]))
    && (forall j :: i <= j < |Footers| && Footers[j] in tree ==> result[Footers[j]] == tree[Footers[j]])
  }

  /** The footer loop stopped at the missing footer `missing`. */
  ghost predicate StoppedAt(tree: Tree, result: Tree, missing: Path)
    requires result.Keys == tree.Keys
  {
    exists i :: StoppedAtIndex(tree, result, missing, i)
  }

  /** The footer pass starts from the footers as they were: where it
      stopped, stated of the tree after the earlier passes, holds of the
      original tree. */
  lemma FootersCarried(tree: Tree, before: Tree, result: Tree, missing: Path)
    requires before.Keys == tree.Keys && result.Keys == tree.Keys
    requires forall j :: 0 <= j < |Footers| && Footers[j] in tree ==> before[Footers[j]] == tree[Footers[j]]
    requires StoppedAt(before, result, missing)
    ensures StoppedAt(tree, result, missing)
  {
    var i :| StoppedAtIndex(before, result, missing, i);
    assert StoppedAtIndex(tree, result, missing, i);
  }

}
