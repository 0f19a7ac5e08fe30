/** scripts/convert_to_webp.py: convert every JPEG, PNG and GIF file of
    `img/` to WebP, point the references of the site's pages and stylesheets
    at the new files, then delete the converted originals.

    The image directory is the set of names of the regular files directly
    inside `img/`; the outcome of each image conversion and of each unlink is
    a parameter. */
module WebpConversion {
  import opened Strings
  import opened Paths

  const ImageExtensions: set<string> := {".jpg", ".jpeg", ".png", ".gif"}
  const SkipFormats: set<string> := {".webp", ".svg", ".ico", ".mp4"}

  /** `img_file.suffix.lower()`. */
  function Ext(name: string): string {
    Lower(Suffix(name))
  }

  /** The step-1 loop tries to convert this file: its extension is not one
      of the skipped formats and is one of the image formats. */
  predicate Attempted(name: string) {
    Ext(name) !in SkipFormats && Ext(name) in ImageExtensions
  }

  /** `img_file.with_suffix(".webp").name`. */
  function WebpName(name: string): string {
    WithSuffix(name, ".webp")
  }

  /** The WebP name keeps the stem and carries the suffix `.webp`: the last
      suffix of the original, and only that, is replaced. */
  lemma WebpNameParts(name: string)
    requires name != []
    ensures WebpName(name) == Stem(name) + ".webp"
    ensures Stem(WebpName(name)) == Stem(name)
    ensures Suffix(WebpName(name)) == ".webp"
  {
    var stem := Stem(name);
    assert |stem| > 0 by {
      assert name == stem + Suffix(name);
    }
    SuffixWebp(stem);
  }

  /** A WebP file is never itself converted. */
  lemma WebpNotAttempted(name: string)
    requires name != []
    ensures Ext(WebpName(name)) == ".webp" && !Attempted(WebpName(name))
  {
    WebpNameParts(name);
    assert Lower(".webp") == ".webp";
  }

  /** The last dot of `stem.webp` is the one before `webp`. */
  lemma SuffixWebp(stem: string)
    requires stem != []
    ensures Suffix(stem + ".webp") == ".webp"
  {
    var w := stem + ".webp";
    var i := LastIndex(w, '.');
    assert w[|stem|] == '.';
    assert '.' in w;
    forall j | |stem| < j < |w| ensures w[j] != '.' {
      assert w[j] == ".webp"[j - |stem|];
    }
    forall j | i.value < j < |w| ensures w[j] != '.' {
      assert w[j] == w[i.value + 1..][j - i.value - 1];
    }
    assert i.value == |stem|;
    assert w[|stem|..] == ".webp";
  }

  /** The references to `orig` become references to its WebP file: every
      `img/<orig>` turns into `img/<new>`. */
  function Retarget(s: string, orig: string): string {
    ReplaceAll(s, "img/" + orig, "img/" + WebpName(orig))
  }

  /** The conversions applied in order, as the loop over
      `conversions.items()` applies them. */
  function Rewritten(s: string, conversions: seq<string>): string
    decreases |conversions|
  {
    if conversions == [] then s
    else Retarget(Rewritten(s, conversions[..|conversions| - 1]), conversions[|conversions| - 1])
  }

  /** The lower-cased image extensions, character by character. */
  lemma LoweredImageExtension(e: string)
    requires e in ImageExtensions
    ensures 4 <= |e| <= 5 && e[0] == '.' && e[1] in {'j', 'p', 'g'}
    ensures e[|e| - 3] in {'j', 'p', 'e', 'g'}
    ensures e[|e| - 2] in {'p', 'e', 'n', 'i'} && (e[|e| - 2] == 'i' ==> e[|e| - 1] == 'f')
    ensures e[|e| - 1] in {'g', 'f'}
  {
  }

  /** Facts about the four image extensions that keep `img/<orig>` from
      overlapping `img/<new>`. */
  lemma ImageExtensionShape(ext: string)
    requires Lower(ext) in ImageExtensions
    ensures ShapedExtension(ext)
  {
    var e := Lower(ext);
    LoweredImageExtension(e);
    LoweredShape(ext, e);
  }

  /** What the overlap argument needs of an extension. */
  predicate ShapedExtension(ext: string) {
    && |ext| >= 4 && ext[1] != 'w' && '/' !in ext
    && (forall x :: |ext| - 3 <= x < |ext| && ext[x] == 'i' ==> x + 1 < |ext| && ext[x + 1] != 'm')
  }

  lemma LoweredShape(ext: string, e: string)
    requires |e| == |ext| && forall i :: 0 <= i < |ext| ==> e[i] == LowerChar(ext[i])
    requires 4 <= |e| && e[1] in {'j', 'p', 'g'}
    requires e[|e| - 3] in {'j', 'p', 'e', 'g'}
    requires e[|e| - 2] in {'p', 'e', 'n', 'i'} && (e[|e| - 2] == 'i' ==> e[|e| - 1] == 'f')
    requires e[|e| - 1] in {'g', 'f'}
    requires forall i :: 0 <= i < |e| ==> e[i] != '/'
    ensures ShapedExtension(ext)
  {
    forall x | |ext| - 3 <= x < |ext| && ext[x] == 'i'
      ensures x + 1 < |ext| && ext[x + 1] != 'm'
    {
      assert e[x] == 'i';
      assert e[x + 1] == LowerChar(ext[x + 1]);
    }
  }

  /** `img/<stem><ext>` cannot start inside `img/<stem>.webp`. */
  lemma NoStartInside(orig: string, w: string, stem: string, ext: string)
    requires orig == stem + ext && w == stem + ".webp"
    requires '/' !in stem && ShapedExtension(ext)
    ensures forall q :: 0 <= q < |"img/" + w| ==> !Compatible("img/" + orig, ("img/" + w)[q..])
  {
    var a := "img/" + orig;
    var b := "img/" + w;
    var p := 4 + |stem| + 1;
    assert a[p] == orig[p - 4] == ext[1];
    assert b[p] == w[p - 4] == 'w';
    forall q | 0 <= q < |b| ensures !Compatible(a, b[q..]) {
      if q == 0 {
        Incompatible(a, b, p);
      } else if q < 4 {
        Incompatible(a, b[q..], 0);
      } else if |b| - q >= 4 {
        if q + 3 < 4 + |stem| {
          assert b[q..][3] == w[q - 1] == stem[q - 1];
        } else {
          assert b[q..][3] == w[q - 1] == ".webp"[q + 3 - 4 - |stem|];
        }
        Incompatible(a, b[q..], 3);
      } else {
        assert b[q..][0] == w[q - 4] == ".webp"[q - 4 - |stem|];
        Incompatible(a, b[q..], 0);
      }
    }
  }

  /** No proper suffix of `img/<stem><ext>` continues into
      `img/<stem>.webp`. */
  lemma NoOverhang(orig: string, w: string, stem: string, ext: string)
    requires orig == stem + ext && w == stem + ".webp"
    requires '/' !in stem && ShapedExtension(ext)
    ensures forall k :: 0 < k < |"img/" + orig| ==> !Compatible(("img/" + orig)[k..], "img/" + w)
  {
    var a := "img/" + orig;
    var b := "img/" + w;
    forall k | 0 < k < |a| ensures !Compatible(a[k..], b) {
      if |a| - k >= 4 {
        if k + 3 < 4 + |stem| {
          assert a[k..][3] == orig[k - 1] == stem[k - 1];
        } else {
          assert a[k..][3] == orig[k - 1] == ext[k + 3 - 4 - |stem|];
        }
        Incompatible(a[k..], b, 3);
      } else {
        var x := k - 4 - |stem|;
        assert a[k..][0] == orig[k - 4] == ext[x];
        if ext[x] == 'i' {
          assert a[k..][1] == orig[k - 3] == ext[x + 1];
          Incompatible(a[k..], b, 1);
        } else {
          Incompatible(a[k..], b, 0);
        }
      }
    }
  }

  /** `img/<orig>` cannot start inside `img/<new>`, and no proper suffix of
      it continues into `img/<new>`. */
  lemma NoCrossWebp(orig: string)
    requires '/' !in orig && Attempted(orig)
    ensures NoCross("img/" + orig, "img/" + WebpName(orig))
  {
    var stem := Stem(orig);
    var ext := Suffix(orig);
    StemKeepsNoSlash(orig);
    ImageExtensionShape(ext);
    WebpNameParts(orig);
    NoStartInside(orig, WebpName(orig), stem, ext);
    NoOverhang(orig, WebpName(orig), stem, ext);
  }

  /** A name splits into its stem and suffix, and a name without a slash
      has a stem without one. */
  lemma StemKeepsNoSlash(orig: string)
    requires '/' !in orig
    ensures orig == Stem(orig) + Suffix(orig) && '/' !in Stem(orig)
  {
    var stem := Stem(orig);
    assert orig == stem + Suffix(orig);
    assert forall k :: 0 <= k < |stem| ==> stem[k] == orig[k];
  }

  /** After retargeting, no reference to the converted name is left. */
  lemma RetargetRemovesOld(s: string, orig: string)
    requires '/' !in orig && Attempted(orig)
    ensures !Contains(Retarget(s, orig), "img/" + orig)
  {
    NoCrossWebp(orig);
    ReplaceAllLeavesNo(s, "img/" + orig, "img/" + WebpName(orig), "img/" + orig);
  }

  /** Retargeting twice is retargeting once. */
  lemma RetargetIdempotent(s: string, orig: string)
    requires '/' !in orig && Attempted(orig)
    ensures Retarget(Retarget(s, orig), orig) == Retarget(s, orig)
  {
    NoCrossWebp(orig);
    ReplaceAllIdempotent(s, "img/" + orig, "img/" + WebpName(orig));
  }

  /** A text changes exactly when it refers to the converted name. */
  lemma RetargetChanges(s: string, orig: string)
    requires orig != [] && Attempted(orig)
    ensures Retarget(s, orig) != s <==> Contains(s, "img/" + orig)
  {
    WebpReferenceDiffers(orig);
    ReplaceAllChanges(s, "img/" + orig, "img/" + WebpName(orig));
  }

  /** The new reference differs from the old one: only the old name is a
      conversion candidate. */
  lemma WebpReferenceDiffers(orig: string)
    requires orig != [] && Attempted(orig)
    ensures "img/" + orig != "img/" + WebpName(orig)
  {
    WebpNotAttempted(orig);
    assert ("img/" + orig)[4..] == orig;
    assert ("img/" + WebpName(orig))[4..] == WebpName(orig);
  }

  /** A text that refers to none of the converted names is left as it is. */
  lemma {:induction false} RewrittenUntouched(s: string, conversions: seq<string>)
    requires forall orig :: orig in conversions ==> !Contains(s, "img/" + orig)
    ensures Rewritten(s, conversions) == s
    decreases |conversions|
  {
    if conversions != [] {
      var init := conversions[..|conversions| - 1];
      var last := conversions[|conversions| - 1];
      assert forall orig :: orig in init ==> orig in conversions;
      RewrittenUntouched(s, init);
      ReplaceAllAbsent(s, "img/" + last, "img/" + WebpName(last));
    }
  }

  // ---------------------------------------------------------------------
  // The replacement templates as `re` reads them. The WebP name is pasted
  // into `\1\2<new>\4` and `\1<new>` without escaping.
  // ---------------------------------------------------------------------

  predicate IsOctalDigit(c: char) { '0' <= c <= '7' }

  /** How `re` reads the group reference `\k` when the WebP name follows
      it (`k` is 2 in the first three templates and 1 in the fourth). A
      name that does not start with a digit stays literal. Otherwise the
      digits join the reference: `\k` and two octal digits are an octal
      escape, and any other digit makes a group number from 10 to 29, which
      neither pattern has and which `re` rejects when it reads the
      template, before it searches. As `k` is itself an octal digit, the
      two templates read a name alike. */
  datatype TemplateReading = Literal | OctalEscape | BadGroup

  function ReadAfterGroup(w: string): (t: TemplateReading)
    ensures t == OctalEscape ==> |w| >= 2 && IsOctalDigit(w[0]) && IsOctalDigit(w[1])
  {
    if w == [] || !IsDigit(w[0]) then Literal
    else if |w| >= 2 && IsOctalDigit(w[0]) && IsOctalDigit(w[1]) then OctalEscape
    else BadGroup
  }

  /** The character of the octal escape `\k<a><b>`. */
  function OctalChar(k: nat, a: char, b: char): char
    requires k < 4 && IsOctalDigit(a) && IsOctalDigit(b)
  {
    (k * 64 + (a as int - '0' as int) * 8 + (b as int - '0' as int)) as char
  }

  /** The first three patterns: a reference in quotes, in `url(…)`, and in
      `url(…)` one directory up. */
  datatype Wrapper = Quoted | Url | UrlParent

  predicate IsQuote(c: char) { c == '\'' || c == '"' }

  /** The opening group, `(['"])` or `(url\(['"]?)`, at `i`: where it
      ends. The optional quote is never given back, as the path group
      cannot start with a quote. */
  function OpenEnd(w: Wrapper, text: string, i: nat): (e: Option<nat>)
    ensures e.Some? ==> i < e.value <= |text|
  {
    if w == Quoted then
      if i < |text| && IsQuote(text[i]) then Some(i + 1) else None
    else if i + 4 <= |text| && text[i..i + 4] == "url(" then
      Some(if i + 4 < |text| && IsQuote(text[i + 4]) then i + 5 else i + 4)
    else None
  }

  /** The path group, `(\.?/?img/)` or, for `UrlParent`, `(\.\./img/)`,
      from `j`: where it ends. The optional dot and slash are never given
      back, as `img/` starts with neither. */
  function PathEnd(w: Wrapper, text: string, j: nat): (e: Option<nat>)
    ensures e.Some? ==> j + 4 <= e.value <= |text|
  {
    if w == UrlParent then
      if j + 7 <= |text| && text[j..j + 7] == "../img/" then Some(j + 7) else None
    else
      var a := if j < |text| && text[j] == '.' then j + 1 else j;
      var b := if a < |text| && text[a] == '/' then a + 1 else a;
      if b + 4 <= |text| && text[b..b + 4] == "img/" then Some(b + 4) else None
  }

  /** The closing group, `(['"])` or `(['"]?\))`, at `m`: where it ends. */
  function CloseEnd(w: Wrapper, text: string, m: nat): (e: Option<nat>)
    ensures e.Some? ==> m < e.value <= |text|
  {
    if w == Quoted then
      if m < |text| && IsQuote(text[m]) then Some(m + 1) else None
    else
      var a := if m < |text| && IsQuote(text[m]) then m + 1 else m;
      if a < |text| && text[a] == ')' then Some(a + 1) else None
  }

  /** A match of a wrapped pattern for `orig` at `i`: the ends of the
      opening group, of the name and of the match. */
  function WrappedMatch(w: Wrapper, text: string, i: nat, orig: string): (r: Option<(nat, nat, nat)>)
    ensures r.Some? ==> i < r.value.0 <= r.value.1 < r.value.2 <= |text|
    ensures r.Some? ==> |orig| <= r.value.1 && text[r.value.1 - |orig|..r.value.1] == orig
  {
    match OpenEnd(w, text, i)
    case None => None
    case Some(g1) =>
      match PathEnd(w, text, g1)
      case None => None
      case Some(g2) =>
        if g2 + |orig| <= |text| && text[g2..g2 + |orig|] == orig then
          match CloseEnd(w, text, g2 + |orig|)
          case None => None
          case Some(e) => Some((g1, g2 + |orig|, e))
        else None
  }

  /** `re.sub` of a wrapped pattern from `i` on, when the template reads
      the name as an octal escape: each match becomes its opening group,
      `middle` and its closing group, so the path group is lost. */
  function SubWrapped(w: Wrapper, text: string, i: nat, orig: string, middle: string): string
    requires i <= |text|
    decreases |text| - i
  {
    if i == |text| then []
    else match WrappedMatch(w, text, i, orig)
      case Some((g1, m, e)) => text[i..g1] + middle + text[m..e] + SubWrapped(w, text, e, orig, middle)
      case None => [text[i]] + SubWrapped(w, text, i + 1, orig, middle)
  }

  /** One conversion as the script applies it: the four substitutions of
      `update_file_references`. For a WebP name read literally they amount
      to `Retarget`. With an octal escape, the first two characters of the
      name become one character, and every match loses its `img/` part. */
  function Substituted(s: string, orig: string): string {
    var w := WebpName(orig);
    if ReadAfterGroup(w) == OctalEscape then
      var middle := OctalMiddle(w);
      var s1 := SubWrapped(Quoted, s, 0, orig, middle);
      var s2 := SubWrapped(Url, s1, 0, orig, middle);
      var s3 := SubWrapped(UrlParent, s2, 0, orig, middle);
      ReplaceAll(s3, "img/" + orig, [OctalChar(1, w[0], w[1])] + w[2..])
    else Retarget(s, orig)
  }

  /** The conversions applied in order by the script's substitutions. */
  function Applied(s: string, conversions: seq<string>): string
    decreases |conversions|
  {
    if conversions == [] then s
    else Substituted(Applied(s, conversions[..|conversions| - 1]), conversions[|conversions| - 1])
  }

  /** Some converted image has a WebP name that makes its templates
      invalid. */
  predicate AnyBadTemplate(conversions: seq<string>) {
    exists orig :: orig in conversions && ReadAfterGroup(WebpName(orig)) == BadGroup
  }

  /** The text step 2 leaves in a readable page or stylesheet. When a
      template is rejected, the handler returns `(False, False)` and the
      file keeps its text, whatever it mentions. */
  function UpdatedText(s: string, conversions: seq<string>): string {
    if AnyBadTemplate(conversions) then s else Applied(s, conversions)
  }

  /** When no WebP name starts with a digit, the script's substitutions are
      the intended retargeting. */
  lemma {:induction false} AppliedIsRewritten(s: string, conversions: seq<string>)
    requires forall orig :: orig in conversions ==> ReadAfterGroup(WebpName(orig)) == Literal
    ensures UpdatedText(s, conversions) == Applied(s, conversions) == Rewritten(s, conversions)
    decreases |conversions|
  {
    if conversions != [] {
      var init := conversions[..|conversions| - 1];
      assert forall orig :: orig in init ==> orig in conversions;
      AppliedIsRewritten(s, init);
      assert conversions[|conversions| - 1] in conversions;
    }
  }

  /** `1.jpg` becomes `1.webp`, and `\21` in the first template is a
      reference to group 21. */
  lemma OneJpgBadTemplate()
    ensures WebpName("1.jpg") == "1.webp"
    ensures ReadAfterGroup(WebpName("1.jpg")) == BadGroup
  {
    StemOfOneJpg();
    assert WebpName("1.jpg") == "1" + ".webp";
    assert ("1" + ".webp")[0] == '1' && ("1" + ".webp")[1] == '.';
  }

  lemma StemOfOneJpg()
    ensures Suffix("1.jpg") == ".jpg" && Stem("1.jpg") == "1"
  {
    var i := LastIndex("1.jpg", '.');
    assert "1.jpg"[1] == '.';
    assert forall j :: 1 < j < 5 ==> "1.jpg"[j] != '.';
    assert i == Some(1);
  }

  lemma OneJpgAttempted()
    ensures Attempted("1.jpg")
  {
    StemOfOneJpg();
    assert Lower(".jpg") == ".jpg";
  }

  /** As written: with `1.jpg` converted, a page that refers to it keeps
      the reference, while step 3 deletes the file. The intended
      retargeting leaves no such reference. */
  lemma DigitNameKeepsReference(s: string)
    requires Contains(s, "img/1.jpg")
    ensures Contains(UpdatedText(s, ["1.jpg"]), "img/1.jpg")
    ensures !Contains(Rewritten(s, ["1.jpg"]), "img/1.jpg")
  {
    OneJpgUntouched(s);
    OneJpgRetargeted(s);
    OneJpgRemoved(s);
  }

  lemma OneJpgRemoved(s: string)
    ensures !Contains(Retarget(s, "1.jpg"), "img/1.jpg")
  {
    OneJpgAttempted();
    assert '/' !in "1.jpg";
    RetargetRemovesOld(s, "1.jpg");
    ImgOneJpg();
  }

  lemma ImgOneJpg()
    ensures "img/" + "1.jpg" == "img/1.jpg"
  {
  }

  lemma OneJpgUntouched(s: string)
    ensures UpdatedText(s, ["1.jpg"]) == s
  {
    OneJpgBadTemplate();
    assert "1.jpg" in ["1.jpg"];
  }

  lemma OneJpgRetargeted(s: string)
    ensures Rewritten(s, ["1.jpg"]) == Retarget(s, "1.jpg")
  {
    assert ["1.jpg"][..0] == [];
  }

  lemma NoBadTemplateSnoc(init: seq<string>, orig: string)
    requires !AnyBadTemplate(init) && ReadAfterGroup(WebpName(orig)) != BadGroup
    ensures !AnyBadTemplate(init + [orig])
  {
  }

  /** A wrapped pattern that cannot open anywhere from `i` on leaves the
      text as it is. */
  lemma {:induction false} SubWrappedUnopened(w: Wrapper, text: string, i: nat, orig: string, middle: string)
    requires i <= |text|
    requires forall k :: i <= k < |text| ==> OpenEnd(w, text, k).None?
    ensures SubWrapped(w, text, i, orig, middle) == text[i..]
    decreases |text| - i
  {
    if i < |text| {
      SubWrappedUnopened(w, text, i + 1, orig, middle);
      assert text[i..] == [text[i]] + text[i + 1..];
    }
  }

  /** `url(` cannot open in a text without a parenthesis. */
  lemma NoParenNoUrl(w: Wrapper, text: string)
    requires w != Quoted && '(' !in text
    ensures forall k :: 0 <= k < |text| ==> OpenEnd(w, text, k).None?
  {
    forall k | 0 <= k < |text| ensures OpenEnd(w, text, k).None? {
      if k + 4 <= |text| {
        assert text[k..k + 4][3] == text[k + 3];
      }
    }
  }

  /** A slash or parenthesis missing from a name is missing from its WebP
      name. */
  lemma WebpNameKeepsOut(orig: string, c: char)
    requires c !in orig && (c == '/' || c == '(')
    ensures c !in WebpName(orig)
  {
    var stem := Stem(orig);
    assert c !in stem by {
      forall k | 0 <= k < |stem| ensures stem[k] != c {
        assert stem[k] == orig[k];
      }
    }
    assert c !in ".webp";
    assert WebpName(orig) == stem + ".webp";
  }

  /** A text without a slash refers to no file of `img/`. */
  lemma NoSlashNoImg(text: string, orig: string)
    requires '/' !in text
    ensures !Contains(text, "img/" + orig)
  {
    if Contains(text, "img/" + orig) {
      ContainsOfLonger(text, "img/", orig);
      assert "img/" == "img" + ['/'];
      ContainsOfLongerEnd(text, "img", ['/']);
      ContainsChar(text, '/');
    }
  }

  /** The quoted pattern matches the whole of `q img/<orig> q`. */
  lemma QuotedWholeMatch(q: char, orig: string, middle: string)
    requires IsQuote(q)
    ensures SubWrapped(Quoted, [q] + "img/" + orig + [q], 0, orig, middle) == [q] + middle + [q]
  {
    var text := [q] + "img/" + orig + [q];
    var n := |orig|;
    assert |text| == n + 6 && text[0] == q;
    assert text[1..5] == "img/";
    assert text[1] == 'i';
    assert text[5..5 + n] == orig;
    assert text[5 + n] == q;
    assert OpenEnd(Quoted, text, 0) == Some(1);
    assert PathEnd(Quoted, text, 1) == Some(5);
    assert CloseEnd(Quoted, text, 5 + n) == Some(6 + n);
    assert WrappedMatch(Quoted, text, 0, orig) == Some((1, 5 + n, 6 + n));
    assert text[0..1] == [q] && text[5 + n..6 + n] == [q];
  }

  /** The octal reading of a WebP name: the character that replaces its
      first two digits in the first three templates, then the rest. */
  function OctalMiddle(w: string): (r: string)
    requires ReadAfterGroup(w) == OctalEscape
    ensures |r| == |w| - 1 && r[1..] == w[2..] && r[0] as int >= 128
  {
    [OctalChar(2, w[0], w[1])] + w[2..]
  }

  /** As written: for an image whose WebP name starts with two octal
      digits, such as `12x.jpg`, a quoted reference `"img/12x.jpg"`
      becomes the quote, one character for the two digits (`\212`), the
      rest of the WebP name and the quote. The file is renamed and
      `img/` is lost, so the page refers to a file that does not exist. */
  lemma OctalNameLosesDirectory(q: char, orig: string)
    requires IsQuote(q) && '/' !in orig && '(' !in orig
    requires ReadAfterGroup(WebpName(orig)) == OctalEscape
    ensures UpdatedText([q] + "img/" + orig + [q], [orig]) == [q] + OctalMiddle(WebpName(orig)) + [q]
    ensures !Contains(UpdatedText([q] + "img/" + orig + [q], [orig]), "img/")
  {
    var s := [q] + "img/" + orig + [q];
    var w := WebpName(orig);
    var middle := OctalMiddle(w);
    var s1 := [q] + middle + [q];
    OneOctalApplied(s, orig);
    QuotedWholeMatch(q, orig, middle);
    OctalMiddleKeepsOut(q, orig);
    NoParenNoUrl(Url, s1);
    SubWrappedUnopened(Url, s1, 0, orig, middle);
    NoParenNoUrl(UrlParent, s1);
    SubWrappedUnopened(UrlParent, s1, 0, orig, middle);
    NoSlashNoImg(s1, orig);
    ReplaceAllAbsent(s1, "img/" + orig, [OctalChar(1, w[0], w[1])] + w[2..]);
    NoSlashNoImg(s1, []);
    assert "img/" + [] == "img/";
  }

  /** The quoted octal reading has neither a parenthesis nor a slash. */
  lemma OctalMiddleKeepsOut(q: char, orig: string)
    requires IsQuote(q) && '/' !in orig && '(' !in orig
    requires ReadAfterGroup(WebpName(orig)) == OctalEscape
    ensures var s1 := [q] + OctalMiddle(WebpName(orig)) + [q]; '(' !in s1 && '/' !in s1
  {
    var w := WebpName(orig);
    var middle := OctalMiddle(w);
    WebpNameKeepsOut(orig, '(');
    WebpNameKeepsOut(orig, '/');
    var s1 := [q] + middle + [q];
    forall k | 0 <= k < |s1| ensures s1[k] != '(' && s1[k] != '/' {
      if 2 <= k < |s1| - 1 {
        assert s1[k] == middle[k - 1] == w[k];
      }
    }
  }

  /** One conversion whose template reads an octal escape is applied as
      `Substituted`. */
  lemma OneOctalApplied(s: string, orig: string)
    requires ReadAfterGroup(WebpName(orig)) == OctalEscape
    ensures UpdatedText(s, [orig]) == Substituted(s, orig)
  {
    AppliedSnoc(s, [], orig);
    assert [] + [orig] == [orig];
    NoBadTemplateSnoc([], orig);
  }

  /** The loop of `update_file_references` takes one more conversion. */
  lemma AppliedStep(s: string, conversions: seq<string>, j: nat)
    requires j < |conversions| && !AnyBadTemplate(conversions[..j])
    ensures Applied(s, conversions[..j + 1]) == Substituted(Applied(s, conversions[..j]), conversions[j])
    ensures ReadAfterGroup(WebpName(conversions[j])) != BadGroup ==> !AnyBadTemplate(conversions[..j + 1])
  {
    assert conversions[..j + 1] == conversions[..j] + [conversions[j]];
    AppliedSnoc(s, conversions[..j], conversions[j]);
    if ReadAfterGroup(WebpName(conversions[j])) != BadGroup {
      NoBadTemplateSnoc(conversions[..j], conversions[j]);
    }
  }

  /** Applying one more conversion. */
  lemma AppliedSnoc(s: string, init: seq<string>, orig: string)
    ensures Applied(s, init + [orig]) == Substituted(Applied(s, init), orig)
  {
    assert (init + [orig])[..|init|] == init;
  }

  /** Step 1: the regular files of `img/` are visited in sorted order; a
      file in a skipped format is passed over, an image is converted unless
      it is in `fails`, and is then recorded in `converted` (the keys of
      `converted_images`, in insertion order) or in `failed`. Each converted
      image adds its WebP file to the directory. */
  method ConvertImages(imgDir: set<string>, fails: set<string>)
    returns (converted: seq<string>, failed: seq<string>, dir: set<string>)
    ensures forall n :: n in converted <==> n in imgDir && Attempted(n) && n !in fails
    ensures forall n :: n in failed <==> n in imgDir && Attempted(n) && n in fails
    ensures forall n :: n in imgDir && Ext(n) in SkipFormats ==> n !in converted && n !in failed
    ensures Ascending(converted) && Ascending(failed)
    ensures forall x :: x in dir <==> x in imgDir || exists n :: n in converted && x == WebpName(n)
  {
    var listing := SortedNames(imgDir);
    converted, failed, dir := ConvertListed(imgDir, listing, fails, Ext, WebpName);
  }

  /** The loop of step 1 over the sorted listing; `extOf` computes
      `suffix.lower()` and `webpOf` the name of the WebP file. */
  method ConvertListed(imgDir: set<string>, listing: seq<string>, fails: set<string>,
                       extOf: string -> string, webpOf: string -> string)
    returns (converted: seq<string>, failed: seq<string>, dir: set<string>)
    requires Ascending(listing)
    ensures forall n :: n in converted <==> n in listing && extOf(n) !in SkipFormats && extOf(n) in ImageExtensions && n !in fails
    ensures forall n :: n in failed <==> n in listing && extOf(n) !in SkipFormats && extOf(n) in ImageExtensions && n in fails
    ensures Ascending(converted) && Ascending(failed)
    ensures forall x :: x in dir <==> x in imgDir || exists n :: n in converted && x == webpOf(n)
  {
    converted, failed, dir := [], [], imgDir;
    for j := 0 to |listing|
      invariant forall n :: n in converted <==> n in listing[..j] && extOf(n) !in SkipFormats && extOf(n) in ImageExtensions && n !in fails
      invariant forall n :: n in failed <==> n in listing[..j] && extOf(n) !in SkipFormats && extOf(n) in ImageExtensions && n in fails
      invariant Ascending(converted) && Ascending(failed)
      invariant imgDir <= dir
      invariant forall n :: n in converted ==> webpOf(n) in dir
      invariant forall x :: x in dir ==> x in imgDir || exists n :: n in converted && x == webpOf(n)
    {
      var name := listing[j];
      assert listing[..j + 1] == listing[..j] + [name];
      forall x | x in listing[..j] ensures Less(x, name) {
        var i :| 0 <= i < j && listing[i] == x;
      }
      var ext := extOf(name);
      if ext in SkipFormats {
        continue;
      }
      if ext in ImageExtensions {
        var webpName := webpOf(name);
        if name !in fails {
          converted := converted + [name];
          dir := dir + {webpName};
        } else {
          failed := failed + [name];
        }
      }
    }
    assert listing[..|listing|] == listing;
    forall x | exists n :: n in converted && x == webpOf(n) ensures x in dir {
      var n :| n in converted && x == webpOf(n);
    }
  }

  /** `update_file_references`: `content` is the text read, or `None` when
      reading fails. Returns `(success, changed)` and the text written
      back. A rejected template fails the call like a failed read. */
  method UpdateFileReferences(content: Option<string>, conversions: seq<string>)
    returns (success: bool, changed: bool, text: string)
    ensures success <==> content.Some? && !AnyBadTemplate(conversions)
    ensures success ==> text == Applied(content.value, conversions)
    ensures changed <==> success && text != content.value
  {
    if content.None? {
      return false, false, [];
    }
    text := content.value;
    var original := text;
    for j := 0 to |conversions|
      invariant text == Applied(original, conversions[..j])
      invariant !AnyBadTemplate(conversions[..j])
    {
      var oldName := conversions[j];
      AppliedStep(original, conversions, j);
      if ReadAfterGroup(WebpName(oldName)) == BadGroup {
        assert oldName in conversions;
        return false, false, original;
      }
      text := Substituted(text, oldName);
    }
    assert conversions[..|conversions|] == conversions;
    success, changed := true, text != original;
  }

  /** A page or stylesheet of step 2: a `.html`, `.css` or `.php` file
      anywhere in the site. */
  predicate IsReferrer(p: Path) {
    EndsWith(p, ".html") || EndsWith(p, ".css") || EndsWith(p, ".php")
  }

  /** Paths inside a virtual environment or `node_modules` are skipped. */
  predicate IsSkipped(p: Path) {
    Contains(p, ".venv") || Contains(p, "node_modules")
  }

  /** Step 2: every page and stylesheet outside the skipped directories is
      rewritten; `unreadable` holds the files whose reading fails. The
      result is the new tree and the files written back. */
  method UpdateAll(tree: Tree, unreadable: set<Path>, conversions: seq<string>)
    returns (result: Tree, updated: set<Path>)
    ensures result.Keys == tree.Keys
    ensures forall p :: p in tree && IsReferrer(p) && !IsSkipped(p) && p !in unreadable ==>
      result[p] == UpdatedText(tree[p], conversions)
    ensures forall p :: p in tree && (!IsReferrer(p) || IsSkipped(p) || p in unreadable) ==> result[p] == tree[p]
    ensures forall p :: p in updated <==> p in tree && result[p] != tree[p]
  {
    result, updated := tree, {};
    var allFiles := set p | p in tree && IsReferrer(p);
    var todo := allFiles;
    while todo != {}
      invariant todo <= allFiles
      invariant result.Keys == tree.Keys
      invariant forall p :: p in tree && IsReferrer(p) && p !in todo && !IsSkipped(p) && p !in unreadable ==>
        result[p] == UpdatedText(tree[p], conversions)
      invariant forall p :: p in tree && (!IsReferrer(p) || p in todo || IsSkipped(p) || p in unreadable) ==> result[p] == tree[p]
      invariant forall p :: p in updated <==> p in tree && result[p] != tree[p]
      decreases todo
    {
      var filePath :| filePath in todo;
      todo := todo - {filePath};
      if IsSkipped(filePath) {
        continue;
      }
      var content := if filePath in unreadable then None else Some(tree[filePath]);
      var success, changed, text := UpdateFileReferences(content, conversions);
      if success && changed {
        result := result[filePath := text];
        updated := updated + {filePath};
      }
    }
  }

  /** Step 3: each converted original that still exists is unlinked, unless
      it is in `fails`; the count is of the files actually deleted. */
  method DeleteOriginals(dir0: set<string>, converted: seq<string>, fails: set<string>)
    returns (dir: set<string>, deletedCount: nat)
    ensures forall n :: n in dir <==> n in dir0 && (n !in converted || n in fails)
    ensures deletedCount == |set n | n in dir0 && n in converted && n !in fails|
  {
    dir, deletedCount := dir0, 0;
    ghost var gone: set<string> := {};
    for j := 0 to |converted|
      invariant forall n :: n in gone <==> n in dir0 && n in converted[..j] && n !in fails
      invariant forall n :: n in dir <==> n in dir0 && n !in gone
      invariant deletedCount == |gone|
    {
      assert converted[..j + 1] == converted[..j] + [converted[j]];
      var oldName := converted[j];
      if oldName in dir && oldName !in fails {
        dir := dir - {oldName};
        deletedCount := deletedCount + 1;
        gone := gone + {oldName};
      }
    }
    assert converted[..|converted|] == converted;
    assert gone == set n | n in dir0 && n in converted && n !in fails;
  }

  /** The counts of the final summary. */
  datatype Summary = Summary(converted: nat, updated: nat, deleted: nat, failed: nat)

  /** The images converted, in the order of the sorted listing: those
      attempted whose conversion succeeds. */
  function ConvertedNames(imgDir: set<string>, convertFails: set<string>): (names: seq<string>)
    ensures forall n :: n in names <==> n in imgDir && Attempted(n) && n !in convertFails
    ensures Ascending(names)
    ensures |names| == |set n | n in imgDir && Attempted(n) && n !in convertFails|
  {
    SortedNames(set n | n in imgDir && Attempted(n) && n !in convertFails)
  }

  /** The whole script. `imgDir` holds the names of the regular files of
      `img/`; `convertFails`, `unreadable` and `deleteFails` say which
      conversions, reads and unlinks fail. */
  method Run(imgDir: set<string>, tree: Tree, convertFails: set<string>, unreadable: set<Path>, deleteFails: set<string>)
    returns (summary: Summary, dir: set<string>, result: Tree)
    requires forall n :: n in imgDir ==> n != [] && '/' !in n && '\\' !in n
    ensures result.Keys == tree.Keys
    ensures forall n :: n in imgDir && Ext(n) !in ImageExtensions ==> n in dir
    ensures forall n :: n in imgDir ==>
      (n !in dir <==> Attempted(n) && n !in convertFails && n !in deleteFails)
    ensures forall n :: n in imgDir && Attempted(n) && n !in convertFails ==> WebpName(n) in dir
    ensures forall x :: x in dir ==> x in imgDir || exists n :: n in ConvertedNames(imgDir, convertFails) && x == WebpName(n)
    ensures forall p :: p in tree && IsReferrer(p) && !IsSkipped(p) && p !in unreadable ==>
      result[p] == UpdatedText(tree[p], ConvertedNames(imgDir, convertFails))
    ensures forall p :: p in tree && (!IsReferrer(p) || IsSkipped(p) || p in unreadable) ==> result[p] == tree[p]
    ensures summary.converted == |set n | n in imgDir && Attempted(n) && n !in convertFails|
    ensures summary.updated == |set p | p in tree && IsReferrer(p) && !IsSkipped(p) && p !in unreadable &&
                                  UpdatedText(tree[p], ConvertedNames(imgDir, convertFails)) != tree[p]|
    ensures summary.deleted == |set n | n in imgDir && Attempted(n) && n !in convertFails && n !in deleteFails|
    ensures summary.failed == |set n | n in imgDir && Attempted(n) && n in convertFails|
    ensures AnyBadTemplate(ConvertedNames(imgDir, convertFails)) ==> result == tree && summary.updated == 0
  {
    var converted, failed, dir1 := ConvertImages(imgDir, convertFails);
    AscendingUnique(converted, ConvertedNames(imgDir, convertFails));
    var updated;
    result, updated := UpdateAll(tree, unreadable, converted);
    var deletedCount;
    dir, deletedCount := DeleteOriginals(dir1, converted, deleteFails);
    summary := Summary(|converted|, |updated|, deletedCount, |failed|);
    DirectoryAfter(imgDir, convertFails, deleteFails, converted, dir1, dir);
    UpdatedReferrers(tree, unreadable, converted, result, updated);
    DeletedImages(imgDir, dir1, converted, convertFails, deleteFails);
    FailedCount(imgDir, convertFails, failed);
  }

  /** What `img/` holds at the end: the originals that stay, and a WebP
      file for each conversion. */
  lemma DirectoryAfter(imgDir: set<string>, convertFails: set<string>, deleteFails: set<string>,
                       converted: seq<string>, dir1: set<string>, dir: set<string>)
    requires forall n :: n in imgDir ==> n != []
    requires forall n :: n in converted <==> n in imgDir && Attempted(n) && n !in convertFails
    requires forall x :: x in dir1 <==> x in imgDir || exists n :: n in converted && x == WebpName(n)
    requires forall n :: n in dir <==> n in dir1 && (n !in converted || n in deleteFails)
    ensures forall n :: n in imgDir ==>
      (n !in dir <==> Attempted(n) && n !in convertFails && n !in deleteFails)
    ensures forall n :: n in imgDir && Attempted(n) && n !in convertFails ==> WebpName(n) in dir
    ensures forall x :: x in dir ==> x in imgDir || exists n :: n in converted && x == WebpName(n)
  {
    forall n | n in imgDir && Attempted(n) && n !in convertFails ensures WebpName(n) in dir {
      WebpNotAttempted(n);
      assert WebpName(n) !in converted;
    }
  }

  lemma FailedCount(imgDir: set<string>, convertFails: set<string>, failed: seq<string>)
    requires forall n :: n in failed <==> n in imgDir && Attempted(n) && n in convertFails
    requires Ascending(failed)
    ensures |failed| == |set n | n in imgDir && Attempted(n) && n in convertFails|
  {
    assert (set n | n in imgDir && Attempted(n) && n in convertFails) == set n | n in failed;
    DistinctCard(failed);
  }

  /** The originals removed are the converted images whose unlink
      succeeds. */
  lemma DeletedImages(imgDir: set<string>, dir1: set<string>, converted: seq<string>,
                      convertFails: set<string>, deleteFails: set<string>)
    requires forall n :: n in converted <==> n in imgDir && Attempted(n) && n !in convertFails
    requires forall n :: n in imgDir ==> n in dir1
    ensures (set n | n in dir1 && n in converted && n !in deleteFails) ==
            set n | n in imgDir && Attempted(n) && n !in convertFails && n !in deleteFails
  {
  }

  /** The files written back are the readable pages and stylesheets
      outside the skipped directories whose text the substitutions change;
      none when a template is rejected. */
  lemma UpdatedReferrers(tree: Tree, unreadable: set<Path>, conversions: seq<string>, result: Tree, updated: set<Path>)
    requires result.Keys == tree.Keys
    requires forall p :: p in tree && IsReferrer(p) && !IsSkipped(p) && p !in unreadable ==>
      result[p] == UpdatedText(tree[p], conversions)
    requires forall p :: p in tree && (!IsReferrer(p) || IsSkipped(p) || p in unreadable) ==> result[p] == tree[p]
    requires forall p :: p in updated <==> p in tree && result[p] != tree[p]
    ensures updated == set p | p in tree && IsReferrer(p) && !IsSkipped(p) && p !in unreadable &&
                                UpdatedText(tree[p], conversions) != tree[p]
    ensures AnyBadTemplate(conversions) ==> result == tree && updated == {}
  {
  }

  /** A strictly ascending sequence has as many elements as its set. */
  lemma DistinctCard(s: seq<string>)
    requires Ascending(s)
    ensures |set n | n in s| == |s|
  {
    forall i, j | 0 <= i < j < |s| ensures s[i] != s[j] {
      if s[i] == s[j] {
        LessIrreflexive(s[i]);
      }
    }
    DistinctElements(s);
  }

  lemma {:induction false} DistinctElements<T>(s: seq<T>)
    requires forall i, j :: 0 <= i < j < |s| ==> s[i] != s[j]
    ensures |set n | n in s| == |s|
    decreases |s|
  {
    if s != [] {
      var init := s[..|s| - 1];
      var last := s[|s| - 1];
      DistinctElements(init);
      assert last !in init by {
        forall i | 0 <= i < |init| ensures init[i] != last {
          assert init[i] == s[i];
        }
      }
      assert (set n | n in s) == (set n | n in init) + {last};
    }
  }
}
