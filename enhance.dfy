/** scripts/enhance_html.py: SEO, accessibility and performance touches on
    every page that is not a partial. A page is taken as the list of its
    elements (tag name and attributes, in document order) and the children
    of its `<body>`; the rules edit attributes in place and raise the
    page's `modified` flag, and a modified page is written back. */
module EnhanceHtml {
  import opened Strings
  import opened Paths

  // ---------------------------------------------------------------------
  // Documents
  // ---------------------------------------------------------------------

  /** An attribute value: text from the page, Python's `True` (what
      `script['defer'] = True` stores) or `None` (what `charset=None`
      stores, written as a bare attribute name). */
  datatype Value = Str(s: string) | Flag | Bare

  type Attrs = map<string, Value>

  datatype Tag = Tag(name: string, attrs: Attrs)

  /** A child of `<body>`: text or a comment (no tag name), an element with
      its `data-include` attribute, or the `<main>` built around moved
      children. */
  datatype Node = Text(text: string) | Element(name: string, dataInclude: Option<string>) | Main(children: seq<Node>)

  /** A parsed page: its elements in document order (what `find_all`
      walks), whether it has a `<head>`, and the children of its `<body>`
      when it has one. */
  datatype Document = Document(elements: seq<Tag>, hasHead: bool, body: Option<seq<Node>>)

  /** The text of a value as the rules read it. */
  function TextOf(v: Value): string {
    if v.Str? then v.s else []
  }

  /** `tag.get(key, '')`. */
  function Get(t: Tag, key: string): string {
    if key in t.attrs then TextOf(t.attrs[key]) else []
  }

  /** Apply a rule to every element. */
  function Each(ts: seq<Tag>, f: Tag -> Tag): (r: seq<Tag>)
    ensures |r| == |ts| && forall i :: 0 <= i < |ts| ==> r[i] == f(ts[i])
  {
    seq(|ts|, i requires 0 <= i < |ts| => f(ts[i]))
  }

  /** Some element makes the rule fire. */
  predicate AnyFires(ts: seq<Tag>, fires: Tag -> bool) {
    exists i :: 0 <= i < |ts| && fires(ts[i])
  }

  // ---------------------------------------------------------------------
  // Meta description
  // ---------------------------------------------------------------------

  const DefaultDescription := "Empresa constructora y desarrolladora" + " con enfoque sostenible."

  predicate IsDescription(t: Tag) {
    t.name == "meta" && "name" in t.attrs && t.attrs["name"] == Str("description")
  }

  /** `soup.find('meta', attrs={'name': 'description'})`: the first one. */
  function FindDescription(ts: seq<Tag>): (r: Option<nat>)
    ensures r.Some? ==> r.value < |ts| && IsDescription(ts[r.value])
    ensures forall j :: 0 <= j < |ts| && (r.None? || j < r.value) ==> !IsDescription(ts[j])
  {
    if ts == [] then None
    else if IsDescription(ts[0]) then Some(0)
    else match FindDescription(ts[1..])
      case None => None
      case Some(i) => Some(i + 1)
  }

  /** `not desc.get('content') or desc['content'].strip() == ''`. */
  predicate LacksContent(t: Tag) {
    "content" !in t.attrs || t.attrs["content"] == Bare ||
    (t.attrs["content"].Str? && AllSpace(t.attrs["content"].s))
  }

  function WithContent(t: Tag): (r: Tag)
    ensures r.name == t.name && !LacksContent(r)
    ensures r.attrs.Keys == t.attrs.Keys + {"content"}
    ensures forall k :: k in t.attrs && k != "content" ==> k in r.attrs && r.attrs[k] == t.attrs[k]
  {
    assert DefaultDescription[0] == 'E' && !IsSpace('E');
    t.(attrs := t.attrs["content" := Str(DefaultDescription)])
  }

  /** The tag `soup.new_tag('meta', charset=None)` with the description. */
  const NewMeta := Tag("meta", map["charset" := Bare, "name" := Str("description"), "content" := Str(DefaultDescription)])

  /** The meta-description rule; `None` when the page has neither a
      description nor a `<head>` to put one in, where the script stops
      with an error. */
  function Described(doc: Document): (r: Option<Document>)
    ensures r.Some? ==> r.value.hasHead == doc.hasHead && r.value.body == doc.body
  {
    match FindDescription(doc.elements)
    case Some(i) =>
      if LacksContent(doc.elements[i]) then Some(doc.(elements := doc.elements[i := WithContent(doc.elements[i])]))
      else Some(doc)
    case None =>
      if doc.hasHead then Some(doc.(elements := doc.elements + [NewMeta])) else None
  }

  /** The rule sets `modified`. */
  predicate DescribeFires(doc: Document) {
    match FindDescription(doc.elements)
    case Some(i) => LacksContent(doc.elements[i])
    case None => true
  }

  /** Afterwards the page's description has content: the default when it
      had none or only blanks, its own otherwise; only a page without
      `<head>` and without description stops the script. */
  lemma DescribedHasContent(doc: Document)
    ensures Described(doc).None? <==> FindDescription(doc.elements).None? && !doc.hasHead
    ensures Described(doc).Some? ==>
              var d := Described(doc).value;
              var i := FindDescription(d.elements);
              && i.Some? && !LacksContent(d.elements[i.value])
              && (DescribeFires(doc) ==> d.elements[i.value].attrs["content"] == Str(DefaultDescription))
              && (!DescribeFires(doc) ==> d == doc)
  {
    match FindDescription(doc.elements)
    case Some(i) =>
      var d := Described(doc).value;
      DescriptionKept(doc.elements, d.elements, i);
    case None =>
      if doc.hasHead {
        var d := Described(doc).value;
        assert IsDescription(NewMeta);
        assert !LacksContent(NewMeta) by {
          assert DefaultDescription[0] == 'E' && !IsSpace('E');
        }
        DescriptionAppended(doc.elements, NewMeta);
      }
  }

  lemma DescriptionKept(ts: seq<Tag>, us: seq<Tag>, i: nat)
    requires FindDescription(ts) == Some(i)
    requires |us| == |ts| && IsDescription(us[i])
    requires forall j :: 0 <= j < |ts| && j != i ==> us[j] == ts[j]
    ensures FindDescription(us) == Some(i)
  {
    FirstDescription(us, i);
  }

  lemma DescriptionAppended(ts: seq<Tag>, m: Tag)
    requires FindDescription(ts).None? && IsDescription(m)
    ensures FindDescription(ts + [m]) == Some(|ts|)
  {
    FirstDescription(ts + [m], |ts|);
  }

  // ---------------------------------------------------------------------
  // Stylesheet links and scripts
  // ---------------------------------------------------------------------

  /** A `<link>` with an `href` naming `main.css` but not `min.css`. */
  predicate LinkFires(t: Tag) {
    t.name == "link" && "href" in t.attrs &&
    Contains(Get(t, "href"), "main.css") && !Contains(Get(t, "href"), "min.css")
  }

  /** `link['href'] = link['href'].replace('main.css', 'main.min.css')`. */
  function LinkFixed(t: Tag): (r: Tag)
    ensures r.name == t.name && r.attrs.Keys == t.attrs.Keys
    ensures !LinkFires(t) ==> r == t
    ensures LinkFires(t) ==> r.attrs == t.attrs["href" := Str(ReplaceAll(Get(t, "href"), "main.css", "main.min.css"))]
    ensures !LinkFires(r)
  {
    if LinkFires(t) then
      var href := ReplaceAll(Get(t, "href"), "main.css", "main.min.css");
      MinifiedNamesMin(Get(t, "href"));
      t.(attrs := t.attrs["href" := Str(href)])
    else t
  }

  /** After the replacement the `href` names `min.css`. */
  lemma MinifiedNamesMin(href: string)
    requires Contains(href, "main.css")
    ensures Contains(ReplaceAll(href, "main.css", "main.min.css"), "min.css")
  {
    ReplaceAllIntroduces(href, "main.css", "main.min.css");
    assert "main.min.css" == "main." + "min.css";
    ContainsOfLongerEnd(ReplaceAll(href, "main.css", "main.min.css"), "main.", "min.css");
  }

  /** Analytics scripts, which keep loading eagerly. */
  predicate Tracking(src: string) {
    Contains(src, "gtag") || Contains(src, "google-analytics")
  }

  /** A `<script src>` that is not an analytics one and has no `defer`. */
  predicate ScriptFires(t: Tag) {
    t.name == "script" && "src" in t.attrs && !Tracking(Get(t, "src")) && "defer" !in t.attrs
  }

  function ScriptDeferred(t: Tag): (r: Tag)
    ensures r.name == t.name
    ensures !ScriptFires(t) ==> r == t
    ensures ScriptFires(t) ==> r.attrs == t.attrs["defer" := Flag]
    ensures !ScriptFires(r)
    ensures t.name == "script" && Tracking(Get(t, "src")) ==> ("defer" in r.attrs <==> "defer" in t.attrs)
  {
    if ScriptFires(t) then t.(attrs := t.attrs["defer" := Flag]) else t
  }

  // ---------------------------------------------------------------------
  // Images
  // ---------------------------------------------------------------------

  /** `re.sub(r"\.[^.]+$", "", name)`: drop the part from the last dot on,
      when something follows that dot. */
  function DropExtension(name: string): (r: string)
    ensures StartsWith(name, r)
    ensures r != name ==> |r| + 1 < |name| && name[|r|] == '.' && '.' !in name[|r| + 1..]
    ensures r == name ==> '.' !in name || name[|name| - 1] == '.'
  {
    match LastIndex(name, '.')
    case Some(i) =>
      if i < |name| - 1 then name[..i]
      else
        assert name[..|name|] == name;
        name
    case None =>
      assert name[..|name|] == name;
      name
  }

  /** The alt text the script derives from `src`: the last path component
      without its extension, with dashes and underscores as spaces. */
  function AltText(src: string): (r: string)
    ensures var base := DropExtension(Name(src));
            |r| == |base| &&
            forall i :: 0 <= i < |r| ==> r[i] == if base[i] == '-' || base[i] == '_' then ' ' else base[i]
    ensures '-' !in r && '_' !in r
  {
    var base := DropExtension(Name(src));
    var dashes := ReplaceAll(base, "-", " ");
    var r := ReplaceAll(dashes, "_", " ");
    SpacedOut(base);
    r
  }

  /** `replace('-', ' ').replace('_', ' ')`: each dash or underscore
      becomes a space and every other character stays in place. */
  lemma SpacedOut(base: string)
    ensures var r := ReplaceAll(ReplaceAll(base, "-", " "), "_", " ");
            && |r| == |base|
            && (forall i :: 0 <= i < |r| ==> r[i] == if base[i] == '-' || base[i] == '_' then ' ' else base[i])
            && '-' !in r && '_' !in r
  {
    var dashes := ReplaceAll(base, "-", " ");
    var r := ReplaceAll(dashes, "_", " ");
    assert "-" == ['-'] && "_" == ['_'] && " " == [' '];
    ReplaceCharAt(base, '-', ' ');
    ReplaceCharAt(dashes, '_', ' ');
    assert forall i :: 0 <= i < |r| ==> r[i] != '-' && r[i] != '_';
  }

  /** `src.lstrip('./').lstrip('/')`, the path the size lookup uses:
      every leading `.` and `/` goes, whatever their order. */
  function Resolve(src: string): Path {
    LStripChars(src, {'.', '/'})
  }

  /** The second strip in `src.lstrip('./').lstrip('/')` has nothing left
      to remove. */
  lemma SecondStripIsNoOp(src: string)
    ensures LStripChars(LStripChars(src, {'.', '/'}), {'/'}) == Resolve(src)
  {
  }

  /** The characters are a set, not a prefix: `../img`, `./img`,
      `.//./img` and `/img` all resolve to `img`, and so does `.img`. */
  lemma ResolveSkipsDotsAndSlashes(prefix: string, rest: string)
    requires forall k :: 0 <= k < |prefix| ==> prefix[k] in {'.', '/'}
    requires rest == [] || rest[0] !in {'.', '/'}
    ensures Resolve(prefix + rest) == rest
  {
    LStripCharsSkips(prefix, rest, {'.', '/'});
  }

  /** `width` and `height` are looked up only when `src` is non-empty and
      the image has neither; `dims` holds the sizes of the files that exist
      and open as images. */
  predicate SizeFires(t: Tag, dims: map<Path, (nat, nat)>) {
    Get(t, "src") != [] && "width" !in t.attrs && "height" !in t.attrs && Resolve(Get(t, "src")) in dims
  }

  predicate ImageFires(t: Tag, dims: map<Path, (nat, nat)>) {
    t.name == "img" && ("alt" !in t.attrs || "loading" !in t.attrs || SizeFires(t, dims))
  }

  /** An `alt` derived from `src` when the image has none. */
  function WithAlt(t: Tag): (r: Tag)
    ensures r.name == t.name && r.attrs.Keys == t.attrs.Keys + {"alt"}
    ensures forall k :: k in t.attrs ==> k in r.attrs && r.attrs[k] == t.attrs[k]
    ensures "alt" !in t.attrs ==> "alt" in r.attrs && r.attrs["alt"] == Str(AltText(Get(t, "src")))
  {
    if "alt" !in t.attrs then t.(attrs := t.attrs["alt" := Str(AltText(Get(t, "src")))]) else t
  }

  /** `loading="lazy"` when the image has no `loading`. */
  function WithLoading(t: Tag): (r: Tag)
    ensures r.name == t.name && r.attrs.Keys == t.attrs.Keys + {"loading"}
    ensures forall k :: k in t.attrs ==> k in r.attrs && r.attrs[k] == t.attrs[k]
    ensures "loading" !in t.attrs ==> "loading" in r.attrs && r.attrs["loading"] == Str("lazy")
  {
    if "loading" !in t.attrs then t.(attrs := t.attrs["loading" := Str("lazy")]) else t
  }

  /** The size the script looks up for an image, when it does. */
  function Measured(t: Tag, dims: map<Path, (nat, nat)>): (r: Option<(nat, nat)>)
    ensures r.Some? <==> SizeFires(t, dims)
  {
    if SizeFires(t, dims) then Some(dims[Resolve(Get(t, "src"))]) else None
  }

  /** The measured `width` and `height`, when there is a size. */
  function WithSize(t: Tag, size: Option<(nat, nat)>): (r: Tag)
    ensures r.name == t.name
    ensures size.None? ==> r == t
    ensures size.Some? ==>
              && r.attrs.Keys == t.attrs.Keys + {"width", "height"}
              && (forall k :: k in t.attrs && k !in {"width", "height"} ==> r.attrs[k] == t.attrs[k])
              && r.attrs["width"] == Str(DecimalString(size.value.0))
              && r.attrs["height"] == Str(DecimalString(size.value.1))
  {
    match size
    case None => t
    case Some((w, h)) => t.(attrs := t.attrs["width" := Str(DecimalString(w))]["height" := Str(DecimalString(h))])
  }

  /** The three image rules in turn. */
  function ImageEnhanced(t: Tag, dims: map<Path, (nat, nat)>): (r: Tag)
    ensures r.name == t.name
    ensures t.name != "img" ==> r == t
  {
    if t.name != "img" then t
    else
      var a := WithLoading(WithAlt(t));
      WithSize(a, Measured(a, dims))
  }

  /** What an image gains: its own attributes stay, `alt` and `loading`
      are added when missing, and the measured size when the file is known
      and neither `width` nor `height` was set. */
  lemma ImageEnhancedAttrs(t: Tag, dims: map<Path, (nat, nat)>)
    requires t.name == "img"
    ensures var r := ImageEnhanced(t, dims);
            && r.attrs.Keys >= t.attrs.Keys + {"alt", "loading"}
            && (forall k :: k in t.attrs ==> r.attrs[k] == t.attrs[k])
            && ("alt" !in t.attrs ==> r.attrs["alt"] == Str(AltText(Get(t, "src"))))
            && ("loading" !in t.attrs ==> r.attrs["loading"] == Str("lazy"))
            && (!SizeFires(t, dims) ==> r.attrs.Keys == t.attrs.Keys + {"alt", "loading"})
            && (SizeFires(t, dims) ==>
                  var size := dims[Resolve(Get(t, "src"))];
                  && "width" in r.attrs && r.attrs["width"] == Str(DecimalString(size.0))
                  && "height" in r.attrs && r.attrs["height"] == Str(DecimalString(size.1)))
  {
    SizeFiresAfterAltAndLoading(t, dims);
  }

  /** An enhanced image is left alone by the image rules, and an image
      that needs none of them is not touched. */
  lemma ImageEnhancedSettles(t: Tag, dims: map<Path, (nat, nat)>)
    ensures !ImageFires(ImageEnhanced(t, dims), dims)
    ensures !ImageFires(t, dims) ==> ImageEnhanced(t, dims) == t
  {
    if t.name == "img" {
      SizeFiresAfterAltAndLoading(t, dims);
    }
  }

  lemma SizeFiresAfterAltAndLoading(t: Tag, dims: map<Path, (nat, nat)>)
    ensures var a := WithLoading(WithAlt(t));
            Get(a, "src") == Get(t, "src") && SizeFires(a, dims) == SizeFires(t, dims) && Measured(a, dims) == Measured(t, dims)
  {
  }

  // ---------------------------------------------------------------------
  // Videos
  // ---------------------------------------------------------------------

  const StyleSize := "width:100%;height:auto;"
  const StyleRatio := ":16/9;"
  /** The style the script appends to a video. */
  const AspectStyle := StyleSize + "aspect-ratio" + StyleRatio

  predicate VideoFires(t: Tag) {
    t.name == "video" &&
    ("width" in t.attrs || "height" in t.attrs ||
     !Contains(Get(t, "style"), "aspect-ratio") || "playsinline" !in t.attrs)
  }

  /** The video rules: no `width` or `height`, an aspect ratio in the
      style, `playsinline`. */
  function VideoNormalised(t: Tag): (r: Tag)
    ensures r.name == t.name
    ensures t.name != "video" ==> r == t
    ensures t.name == "video" ==>
              && "width" !in r.attrs && "height" !in r.attrs && "playsinline" in r.attrs
              && (forall k :: k in t.attrs && k !in {"width", "height", "style"} ==> k in r.attrs && r.attrs[k] == t.attrs[k])
              && (Contains(Get(t, "style"), "aspect-ratio") ==> Get(r, "style") == Get(t, "style"))
              && (!Contains(Get(t, "style"), "aspect-ratio") ==> Get(r, "style") == Get(t, "style") + AspectStyle)
    ensures !VideoFires(r)
    ensures !VideoFires(t) ==> r == t
  {
    if t.name != "video" then t
    else
      var a := t.attrs - {"width", "height"};
      var style := Get(t, "style");
      var b := if !Contains(style, "aspect-ratio") then a["style" := Str(style + AspectStyle)] else a;
      var c := if "playsinline" !in b then b["playsinline" := Str("")] else b;
      var r := Tag(t.name, c);
      AspectStyleHasRatio(style);
      assert !VideoFires(t) ==> a == t.attrs;
      r
  }

  lemma AspectStyleHasRatio(style: string)
    ensures Contains(style + AspectStyle, "aspect-ratio")
  {
    assert style + AspectStyle == (style + StyleSize) + "aspect-ratio" + StyleRatio;
    ContainsInMiddle(style + StyleSize, "aspect-ratio", StyleRatio);
  }

  // ---------------------------------------------------------------------
  // Wrapping the body in <main>
  // ---------------------------------------------------------------------

  function IncludeOf(n: Node): string {
    if n.Element? && n.dataInclude.Some? then n.dataInclude.value else []
  }

  /** A navigation or footer include, which stays a child of `<body>`. */
  predicate IsPlaceholder(n: Node) {
    IncludeOf(n) != [] && (Contains(IncludeOf(n), "nav.html") || Contains(IncludeOf(n), "footer.html"))
  }

  predicate IsFooter(n: Node) {
    IncludeOf(n) != [] && Contains(IncludeOf(n), "footer.html")
  }

  /** An element child that goes into `<main>`. */
  predicate Moves(n: Node) {
    !n.Text? && !IsPlaceholder(n)
  }

  /** The children that move, in order. */
  function Moved(children: seq<Node>): (r: seq<Node>)
  {
    if children == [] then []
    else
      var last := children[|children| - 1];
      Moved(children[..|children| - 1]) + (if Moves(last) then [last] else [])
  }

  /** The children that stay, in order. */
  function Kept(children: seq<Node>): (r: seq<Node>)
  {
    if children == [] then []
    else
      var last := children[|children| - 1];
      Kept(children[..|children| - 1]) + (if Moves(last) then [] else [last])
  }

  /** The children that move are exactly the elements that are not
      navigation or footer includes. */
  lemma {:induction false} MovedKeptClassified(children: seq<Node>)
    ensures forall n :: n in Moved(children) ==> Moves(n)
    ensures forall n :: n in Kept(children) ==> !Moves(n)
  {
    if children != [] {
      MovedKeptClassified(children[..|children| - 1]);
    }
  }

  /** Every child either moves or stays, once. */
  lemma {:induction false} MovedKeptPartition(children: seq<Node>)
    ensures multiset(Moved(children)) + multiset(Kept(children)) == multiset(children)
    ensures |Moved(children)| + |Kept(children)| == |children|
  {
    if children != [] {
      var init := children[..|children| - 1];
      var last := children[|children| - 1];
      MovedKeptPartition(init);
      assert children == init + [last];
      assert multiset(children) == multiset(init) + multiset{last};
      if Moves(last) {
        assert Moved(children) == Moved(init) + [last] && Kept(children) == Kept(init);
      } else {
        assert Moved(children) == Moved(init) && Kept(children) == Kept(init) + [last];
      }
    }
  }

  /** Where `<main>` goes: before the first footer include that stayed,
      else at the end. */
  function FooterIndex(kept: seq<Node>): (r: nat)
    ensures r <= |kept| && forall j :: 0 <= j < r ==> !IsFooter(kept[j])
    ensures r < |kept| ==> IsFooter(kept[r])
  {
    if kept == [] || IsFooter(kept[0]) then 0 else 1 + FooterIndex(kept[1..])
  }

  function WrappedBody(children: seq<Node>): seq<Node> {
    var kept := Kept(children);
    var i := FooterIndex(kept);
    kept[..i] + [Main(Moved(children))] + kept[i..]
  }

  /** The new body: the children that stayed in their order, with
      `<main>` holding the others in theirs; nothing is lost or
      repeated. */
  lemma WrappedBodyShape(children: seq<Node>)
    ensures var w := WrappedBody(children);
            var i := FooterIndex(Kept(children));
            && w[i] == Main(Moved(children))
            && w[..i] + w[i + 1..] == Kept(children)
            && multiset(w[..i] + w[i + 1..]) + multiset(w[i].children) == multiset(children)
  {
    var kept := Kept(children);
    InsertedAt(kept, FooterIndex(kept), Main(Moved(children)));
    MovedKeptPartition(children);
  }

  /** `<main>` comes before every footer include of the body. */
  lemma WrappedBeforeFooter(children: seq<Node>)
    ensures var w := WrappedBody(children);
            var i := FooterIndex(Kept(children));
            i < |w| && forall j :: 0 <= j <= i ==> !IsFooter(w[j])
  {
    var kept := Kept(children);
    var i := FooterIndex(kept);
    var w := WrappedBody(children);
    InsertedAt(kept, i, Main(Moved(children)));
    forall j | 0 <= j <= i ensures !IsFooter(w[j]) {
      if j < i {
        assert w[j] == kept[j];
      }
    }
  }

  lemma InsertedAt(s: seq<Node>, i: nat, m: Node)
    requires i <= |s|
    ensures var w := s[..i] + [m] + s[i..];
            && |w| == |s| + 1 && w[i] == m && w[..i] + w[i + 1..] == s
            && forall j :: 0 <= j < i ==> w[j] == s[j]
  {
    var w := s[..i] + [m] + s[i..];
    assert w[..i] == s[..i];
    assert w[i + 1..] == s[i..];
  }

  predicate HasMain(ts: seq<Tag>) {
    exists i :: 0 <= i < |ts| && ts[i].name == "main"
  }

  const MainTag := Tag("main", map[])

  predicate WrapFires(doc: Document) {
    doc.body.Some? && !HasMain(doc.elements)
  }

  function Wrapped(doc: Document): (r: Document)
    ensures !WrapFires(doc) ==> r == doc
    ensures WrapFires(doc) ==> HasMain(r.elements) && r.body == Some(WrappedBody(doc.body.value))
  {
    if WrapFires(doc) then
      var r := doc.(elements := doc.elements + [MainTag], body := Some(WrappedBody(doc.body.value)));
      assert r.elements[|doc.elements|] == MainTag;
      r
    else doc
  }

  // ---------------------------------------------------------------------
  // A whole page
  // ---------------------------------------------------------------------

  /** The rules after the description, in the script's order. */
  function Rest(d: Document, dims: map<Path, (nat, nat)>): Document {
    var linked := d.(elements := Each(d.elements, LinkFixed));
    var deferred := linked.(elements := Each(linked.elements, ScriptDeferred));
    var wrapped := Wrapped(deferred);
    var imaged := wrapped.(elements := Each(wrapped.elements, t => ImageEnhanced(t, dims)));
    imaged.(elements := Each(imaged.elements, VideoNormalised))
  }

  /** The page the script writes, or `None` where it stops. */
  function Enhanced(doc: Document, dims: map<Path, (nat, nat)>): Option<Document> {
    match Described(doc)
    case None => None
    case Some(d) => Some(Rest(d, dims))
  }

  /** Some rule raises `modified` on the way. */
  predicate Fires(doc: Document, dims: map<Path, (nat, nat)>) {
    DescribeFires(doc) ||
    (Described(doc).Some? &&
      var d := Described(doc).value;
      var linked := d.(elements := Each(d.elements, LinkFixed));
      var deferred := linked.(elements := Each(linked.elements, ScriptDeferred));
      var wrapped := Wrapped(deferred);
      var imaged := wrapped.(elements := Each(wrapped.elements, t => ImageEnhanced(t, dims)));
      AnyFires(d.elements, LinkFires) || AnyFires(linked.elements, ScriptFires) || WrapFires(deferred) ||
      AnyFires(wrapped.elements, t => ImageFires(t, dims)) || AnyFires(imaged.elements, VideoFires))
  }

  /** One element through the element rules. */
  function Pipeline(t: Tag, dims: map<Path, (nat, nat)>): Tag {
    VideoNormalised(ImageEnhanced(ScriptDeferred(LinkFixed(t)), dims))
  }

  /** An element that went through the rules is left alone by each of
      them. */
  lemma PipelineSettles(t: Tag, dims: map<Path, (nat, nat)>)
    ensures var x := Pipeline(t, dims);
            && x.name == t.name && (t.name == "meta" ==> x == t)
            && LinkFixed(x) == x && ScriptDeferred(x) == x
            && ImageEnhanced(x, dims) == x && VideoNormalised(x) == x
            && !LinkFires(x) && !ScriptFires(x) && !ImageFires(x, dims) && !VideoFires(x)
  {
    var l := LinkFixed(t);
    var s := ScriptDeferred(l);
    var i := ImageEnhanced(s, dims);
    var x := VideoNormalised(i);
    ImageEnhancedSettles(s, dims);
    ImageEnhancedSettles(i, dims);
    if t.name == "link" {
      assert s == l && i == l && x == l;
    } else if t.name == "script" {
      assert l == t && i == s && x == s;
    } else if t.name == "img" {
      assert l == t && s == t && x == i;
    } else {
      assert l == t && s == t && i == t;
    }
  }

  lemma EachTwice(ts: seq<Tag>, f: Tag -> Tag, g: Tag -> Tag)
    ensures Each(Each(ts, f), g) == Each(ts, t => g(f(t)))
  {
  }

  lemma EachAppend(ts: seq<Tag>, m: Tag, f: Tag -> Tag)
    ensures Each(ts + [m], f) == Each(ts, f) + [f(m)]
  {
  }

  /** The elements of the written page: each original one through the
      rules, and `<main>` at the end when the body was wrapped. */
  lemma RestElements(d: Document, dims: map<Path, (nat, nat)>)
    ensures var linked := d.(elements := Each(d.elements, LinkFixed));
            var deferred := linked.(elements := Each(linked.elements, ScriptDeferred));
            Rest(d, dims).elements ==
              Each(d.elements, t => Pipeline(t, dims)) + (if WrapFires(deferred) then [MainTag] else [])
  {
    var linked := d.(elements := Each(d.elements, LinkFixed));
    var deferred := linked.(elements := Each(linked.elements, ScriptDeferred));
    var wrapped := Wrapped(deferred);
    var r := Rest(d, dims).elements;
    var p := Each(d.elements, t => Pipeline(t, dims));
    if WrapFires(deferred) {
      assert wrapped.elements == deferred.elements + [MainTag];
      assert |r| == |p| + 1;
      forall j | 0 <= j < |r| ensures r[j] == (p + [MainTag])[j] {
        if j < |p| {
          assert wrapped.elements[j] == ScriptDeferred(LinkFixed(d.elements[j]));
        } else {
          assert wrapped.elements[j] == MainTag;
        }
      }
    } else {
      assert |r| == |p|;
      forall j | 0 <= j < |r| ensures r[j] == p[j] {
        assert wrapped.elements[j] == ScriptDeferred(LinkFixed(d.elements[j]));
      }
    }
  }

  /** An element every element rule leaves alone. */
  predicate Settled(x: Tag, dims: map<Path, (nat, nat)>) {
    && LinkFixed(x) == x && ScriptDeferred(x) == x
    && ImageEnhanced(x, dims) == x && VideoNormalised(x) == x
    && !LinkFires(x) && !ScriptFires(x) && !ImageFires(x, dims) && !VideoFires(x)
  }

  /** What the rules after the description leave: settled elements, the
      old ones under their old names with `<meta>` untouched, `<main>` at
      the end if anything was added, and a `<main>` whenever there is a
      body. */
  lemma RestOutput(d: Document, dims: map<Path, (nat, nat)>)
    ensures var e := Rest(d, dims);
            && e.hasHead == d.hasHead && (e.body.Some? <==> d.body.Some?)
            && |e.elements| >= |d.elements|
            && (forall j :: 0 <= j < |e.elements| ==> Settled(e.elements[j], dims))
            && (forall j :: 0 <= j < |d.elements| ==> e.elements[j].name == d.elements[j].name)
            && (forall j :: 0 <= j < |d.elements| && d.elements[j].name == "meta" ==> e.elements[j] == d.elements[j])
            && (forall j :: |d.elements| <= j < |e.elements| ==> e.elements[j] == MainTag)
            && (e.body.Some? ==> HasMain(e.elements))
  {
    var e := Rest(d, dims);
    RestElements(d, dims);
    var linked := d.(elements := Each(d.elements, LinkFixed));
    var deferred := linked.(elements := Each(linked.elements, ScriptDeferred));
    var p := Each(d.elements, t => Pipeline(t, dims));
    forall j | 0 <= j < |p|
      ensures Settled(e.elements[j], dims) && e.elements[j].name == d.elements[j].name
      ensures d.elements[j].name == "meta" ==> e.elements[j] == d.elements[j]
    {
      PipelineSettles(d.elements[j], dims);
    }
    assert Settled(MainTag, dims);
    if e.body.Some? {
      if WrapFires(deferred) {
        assert e.elements[|p|] == MainTag;
      } else {
        var k :| 0 <= k < |deferred.elements| && deferred.elements[k].name == "main";
        assert e.elements[k].name == d.elements[k].name;
      }
    }
  }

  /** A page whose elements are settled and which needs no `<main>` is
      left as it is by the rules after the description, and none of them
      fires. */
  lemma RestSettles(e: Document, dims: map<Path, (nat, nat)>)
    requires forall j :: 0 <= j < |e.elements| ==> Settled(e.elements[j], dims)
    requires !WrapFires(e)
    ensures Rest(e, dims) == e
    ensures !AnyFires(e.elements, LinkFires) && !AnyFires(e.elements, ScriptFires)
    ensures !AnyFires(e.elements, t => ImageFires(t, dims)) && !AnyFires(e.elements, VideoFires)
  {
    assert Each(e.elements, LinkFixed) == e.elements;
    assert Each(e.elements, ScriptDeferred) == e.elements;
    assert Each(e.elements, t => ImageEnhanced(t, dims)) == e.elements;
    assert Each(e.elements, VideoNormalised) == e.elements;
  }

  /** What the script writes already has its description, needs no
      `<main>`, and has only settled elements. */
  lemma EnhancedIsSettled(doc: Document, dims: map<Path, (nat, nat)>)
    requires Enhanced(doc, dims).Some?
    ensures var e := Enhanced(doc, dims).value;
            && Described(e) == Some(e) && !DescribeFires(e) && !WrapFires(e)
            && forall j :: 0 <= j < |e.elements| ==> Settled(e.elements[j], dims)
  {
    var d := Described(doc).value;
    DescribedHasContent(doc);
    var e := Rest(d, dims);
    RestOutput(d, dims);
    DescriptionStays(d.elements, e.elements, FindDescription(d.elements).value);
  }

  /** Running the script a second time over what it wrote changes nothing
      and writes nothing. */
  lemma EnhanceSettles(doc: Document, dims: map<Path, (nat, nat)>)
    requires Enhanced(doc, dims).Some?
    ensures var e := Enhanced(doc, dims).value;
            Enhanced(e, dims) == Some(e) && !Fires(e, dims)
  {
    var e := Enhanced(doc, dims).value;
    EnhancedIsSettled(doc, dims);
    RestSettles(e, dims);
    assert e.(elements := Each(e.elements, LinkFixed)) == e;
    assert e.(elements := Each(e.elements, ScriptDeferred)) == e;
    assert e.(elements := Each(e.elements, t => ImageEnhanced(t, dims))) == e;
  }

  lemma DescriptionStays(ts: seq<Tag>, us: seq<Tag>, i: nat)
    requires FindDescription(ts) == Some(i) && !LacksContent(ts[i])
    requires |us| >= |ts|
    requires forall j :: 0 <= j < |ts| ==> us[j].name == ts[j].name
    requires forall j :: 0 <= j < |ts| && ts[j].name == "meta" ==> us[j] == ts[j]
    requires forall j :: |ts| <= j < |us| ==> us[j].name != "meta"
    ensures FindDescription(us) == Some(i) && us[i] == ts[i]
  {
    assert us[i] == ts[i];
    forall j | 0 <= j < i ensures !IsDescription(us[j]) {
      if us[j].name == "meta" {
        assert us[j] == ts[j];
      }
    }
    FirstDescription(us, i);
  }

  lemma FirstDescription(us: seq<Tag>, i: nat)
    requires i < |us| && IsDescription(us[i])
    requires forall j :: 0 <= j < i ==> !IsDescription(us[j])
    ensures FindDescription(us) == Some(i)
  {
    var r := FindDescription(us);
    assert r.Some? && r.value <= i;
  }

  // ---------------------------------------------------------------------
  // The page object and the script's loop
  // ---------------------------------------------------------------------

  /** One image through lines 82-103: the tag afterwards, and whether a
      rule fired. */
  method EnhancedImage(img: Tag, dims: map<Path, (nat, nat)>) returns (step: Tag, fired: bool)
    ensures step == ImageEnhanced(img, dims)
    ensures fired <==> ImageFires(img, dims)
  {
    step, fired := img, false;
    if img.name != "img" {
      return;
    }
    var src := Get(img, "src");
    if "alt" !in step.attrs {
      step := step.(attrs := step.attrs["alt" := Str(AltText(src))]);
      fired := true;
    }
    assert step == WithAlt(img);
    if "loading" !in step.attrs {
      step := step.(attrs := step.attrs["loading" := Str("lazy")]);
      fired := true;
    }
    assert step == WithLoading(WithAlt(img));
    SizeFiresAfterAltAndLoading(img, dims);
    if src != [] && "width" !in step.attrs && "height" !in step.attrs {
      var path := Resolve(src);
      if path in dims {
        var (w, h) := dims[path];
        step := step.(attrs := step.attrs["width" := Str(DecimalString(w))]["height" := Str(DecimalString(h))]);
        fired := true;
      }
    }
  }

  /** One video through lines 107-121: the tag afterwards, and whether a
      rule fired. */
  method NormalisedVideo(video: Tag) returns (step: Tag, fired: bool)
    ensures step == VideoNormalised(video)
    ensures fired <==> VideoFires(video)
  {
    step, fired := video, false;
    if video.name != "video" {
      return;
    }
    var attrs := video.attrs;
    if "width" in attrs {
      attrs := attrs - {"width"};
      fired := true;
    }
    if "height" in attrs {
      attrs := attrs - {"height"};
      fired := true;
    }
    var style := Get(video, "style");
    if !Contains(style, "aspect-ratio") {
      style := style + AspectStyle;
      attrs := attrs["style" := Str(style)];
      fired := true;
    }
    if "playsinline" !in attrs {
      attrs := attrs["playsinline" := Str("")];
      fired := true;
    }
    step := Tag(video.name, attrs);
  }

  /** Lines 58-76 on the children of `<body>`: the elements that are not
      navigation or footer includes move, in order, into a new `<main>`,
      which goes before the first footer include left, or last. */
  method WrapChildren(children: seq<Node>) returns (wrapped: seq<Node>)
    ensures wrapped == WrappedBody(children)
  {
    var toMove: seq<Node> := [];
    var kept: seq<Node> := [];
    for k := 0 to |children|
      invariant toMove == Moved(children[..k]) && kept == Kept(children[..k])
    {
      assert children[..k + 1][..k] == children[..k];
      var child := children[k];
      if Moves(child) {
        toMove := toMove + [child];
      } else {
        kept := kept + [child];
      }
    }
    assert children[..|children|] == children;
    var footer := FindFooter(kept);
    wrapped := kept[..footer] + [Main(toMove)] + kept[footer..];
  }

  /** The first footer include among the children left in `<body>`. */
  method FindFooter(kept: seq<Node>) returns (footer: nat)
    ensures footer == FooterIndex(kept)
  {
    footer := 0;
    while footer < |kept| && !IsFooter(kept[footer])
      invariant footer <= |kept| && forall j :: 0 <= j < footer ==> !IsFooter(kept[j])
    {
      footer := footer + 1;
    }
    FooterIndexIsFirst(kept, footer);
  }

  /** A parsed page being edited. */
  class Page {
    var elements: seq<Tag>
    var hasHead: bool
    var body: Option<seq<Node>>
    var modified: bool

    function Doc(): Document
      reads this
    {
      Document(elements, hasHead, body)
    }

    constructor(doc: Document)
      ensures Doc() == doc && !modified
    {
      elements, hasHead, body := doc.elements, doc.hasHead, doc.body;
      modified := false;
    }

    /** Lines 27-37; `ok` is false where `soup.head.append` fails. */
    method Describe() returns (ok: bool)
      modifies this
      ensures ok <==> Described(old(Doc())).Some?
      ensures ok ==> Doc() == Described(old(Doc())).value
      ensures !ok ==> Doc() == old(Doc())
      ensures modified == (old(modified) || (ok && DescribeFires(old(Doc()))))
    {
      ok := true;
      var desc := FindDescription(elements);
      match desc
      case Some(i) =>
        if LacksContent(elements[i]) {
          elements := elements[i := WithContent(elements[i])];
          modified := true;
        }
      case None =>
        if !hasHead {
          ok := false;
          return;
        }
        elements := elements + [NewMeta];
        modified := true;
    }

    method FixLinkAt(i: nat)
      requires i < |elements|
      modifies this
      ensures elements == old(elements)[i := LinkFixed(old(elements)[i])]
      ensures hasHead == old(hasHead) && body == old(body)
      ensures modified == (old(modified) || LinkFires(old(elements)[i]))
    {
      var link := elements[i];
      if link.name == "link" && "href" in link.attrs {
        var href := Get(link, "href");
        if Contains(href, "main.css") && !Contains(href, "min.css") {
          elements := elements[i := link.(attrs := link.attrs["href" := Str(ReplaceAll(href, "main.css", "main.min.css"))])];
          modified := true;
        }
      }
    }

    /** Lines 40-43. */
    method UseMinifiedCss()
      modifies this
      ensures elements == Each(old(elements), LinkFixed)
      ensures hasHead == old(hasHead) && body == old(body)
      ensures modified == (old(modified) || AnyFires(old(elements), LinkFires))
    {
      ghost var start := elements;
      for i := 0 to |elements|
        invariant |elements| == |start|
        invariant forall j :: 0 <= j < i ==> elements[j] == LinkFixed(start[j])
        invariant forall j :: i <= j < |start| ==> elements[j] == start[j]
        invariant hasHead == old(hasHead) && body == old(body)
        invariant modified == (old(modified) || exists j :: 0 <= j < i && LinkFires(start[j]))
      {
        FixLinkAt(i);
      }
    }

    method DeferAt(i: nat)
      requires i < |elements|
      modifies this
      ensures elements == old(elements)[i := ScriptDeferred(old(elements)[i])]
      ensures hasHead == old(hasHead) && body == old(body)
      ensures modified == (old(modified) || ScriptFires(old(elements)[i]))
    {
      var script := elements[i];
      if script.name == "script" && "src" in script.attrs {
        var src := Get(script, "src");
        if Contains(src, "gtag") || Contains(src, "google-analytics") {
          return;
        }
        if "defer" !in script.attrs {
          elements := elements[i := script.(attrs := script.attrs["defer" := Flag])];
          modified := true;
        }
      }
    }

    /** Lines 46-52. */
    method DeferScripts()
      modifies this
      ensures elements == Each(old(elements), ScriptDeferred)
      ensures hasHead == old(hasHead) && body == old(body)
      ensures modified == (old(modified) || AnyFires(old(elements), ScriptFires))
    {
      ghost var start := elements;
      for i := 0 to |elements|
        invariant |elements| == |start|
        invariant forall j :: 0 <= j < i ==> elements[j] == ScriptDeferred(start[j])
        invariant forall j :: i <= j < |start| ==> elements[j] == start[j]
        invariant hasHead == old(hasHead) && body == old(body)
        invariant modified == (old(modified) || exists j :: 0 <= j < i && ScriptFires(start[j]))
      {
        DeferAt(i);
      }
    }

    /** Lines 55-76. */
    method WrapMain()
      modifies this
      ensures Doc() == Wrapped(old(Doc()))
      ensures modified == (old(modified) || WrapFires(old(Doc())))
    {
      if body.None? || HasMain(elements) {
        return;
      }
      var newBody := WrapChildren(body.value);
      body := Some(newBody);
      elements := elements + [MainTag];
      modified := true;
    }

    method EnhanceImageAt(i: nat, dims: map<Path, (nat, nat)>)
      requires i < |elements|
      modifies this
      ensures elements == old(elements)[i := ImageEnhanced(old(elements)[i], dims)]
      ensures hasHead == old(hasHead) && body == old(body)
      ensures modified == (old(modified) || ImageFires(old(elements)[i], dims))
    {
      var img, fired := EnhancedImage(elements[i], dims);
      elements := elements[i := img];
      modified := modified || fired;
    }

    /** Lines 79-103. */
    method EnhanceImages(dims: map<Path, (nat, nat)>)
      modifies this
      ensures elements == Each(old(elements), t => ImageEnhanced(t, dims))
      ensures hasHead == old(hasHead) && body == old(body)
      ensures modified == (old(modified) || AnyFires(old(elements), t => ImageFires(t, dims)))
    {
      ghost var start := elements;
      for i := 0 to |elements|
        invariant |elements| == |start|
        invariant forall j :: 0 <= j < i ==> elements[j] == ImageEnhanced(start[j], dims)
        invariant forall j :: i <= j < |start| ==> elements[j] == start[j]
        invariant hasHead == old(hasHead) && body == old(body)
        invariant modified == (old(modified) || exists j :: 0 <= j < i && ImageFires(start[j], dims))
      {
        EnhanceImageAt(i, dims);
      }
    }

    method NormaliseVideoAt(i: nat)
      requires i < |elements|
      modifies this
      ensures elements == old(elements)[i := VideoNormalised(old(elements)[i])]
      ensures hasHead == old(hasHead) && body == old(body)
      ensures modified == (old(modified) || VideoFires(old(elements)[i]))
    {
      var video, fired := NormalisedVideo(elements[i]);
      elements := elements[i := video];
      modified := modified || fired;
    }

    /** Lines 106-121. */
    method NormaliseVideos()
      modifies this
      ensures elements == Each(old(elements), VideoNormalised)
      ensures hasHead == old(hasHead) && body == old(body)
      ensures modified == (old(modified) || AnyFires(old(elements), VideoFires))
    {
      ghost var start := elements;
      for i := 0 to |elements|
        invariant |elements| == |start|
        invariant forall j :: 0 <= j < i ==> elements[j] == VideoNormalised(start[j])
        invariant forall j :: i <= j < |start| ==> elements[j] == start[j]
        invariant hasHead == old(hasHead) && body == old(body)
        invariant modified == (old(modified) || exists j :: 0 <= j < i && VideoFires(start[j]))
      {
        NormaliseVideoAt(i);
      }
    }

    /** The body of the script's loop for one parsed page; `ok` is false
        where the script stops. */
    method Enhance(dims: map<Path, (nat, nat)>) returns (ok: bool)
      modifies this
      ensures ok <==> Enhanced(old(Doc()), dims).Some?
      ensures ok ==> Doc() == Enhanced(old(Doc()), dims).value && (modified <==> Fires(old(Doc()), dims))
    {
      ghost var doc := Doc();
      modified := false;
      ok := Describe();
      if !ok {
        return;
      }
      UseMinifiedCss();
      DeferScripts();
      WrapMain();
      EnhanceImages(dims);
      NormaliseVideos();
    }
  }

  lemma FooterIndexIsFirst(kept: seq<Node>, i: nat)
    requires i <= |kept| && forall j :: 0 <= j < i ==> !IsFooter(kept[j])
    requires i < |kept| ==> IsFooter(kept[i])
    ensures FooterIndex(kept) == i
  {
  }

  /** Files the script visits: every `.html` file below the root, outside any path naming
      `partials` (the site root's own path does not). `glob` matches the
      suffix case-sensitively, as on POSIX systems. */
  predicate Visited(p: Path) {
    EndsWith(Name(p), ".html") && !Contains(p, "partials")
  }

  /** What the script leaves in a visited file: the rendered page when a
      rule fired, the file as it was when none did, `None` where it
      stops. */
  function Written(text: string, parse: string -> Document, render: Document -> string, dims: map<Path, (nat, nat)>): Option<string> {
    match Enhanced(parse(text), dims)
    case None => None
    case Some(e) => Some(if Fires(parse(text), dims) then render(e) else text)
  }

  /** Lines 23-127 for one file. */
  method EnhanceFile(text: string, parse: string -> Document, render: Document -> string, dims: map<Path, (nat, nat)>)
    returns (out: Option<string>)
    ensures out == Written(text, parse, render, dims)
  {
    var page := new Page(parse(text));
    var ok := page.Enhance(dims);
    if !ok {
      return None;
    }
    out := Some(if page.modified then render(page.Doc()) else text);
  }

  /** The script: each visited page is parsed, enhanced and, when a rule
      fired, rendered and written back. `stopped` names the page where it
      stops, if any; pages are visited in an order left open, so which
      pages were written before it stopped is left open too. */
  method Run(tree: Tree, parse: string -> Document, render: Document -> string, dims: map<Path, (nat, nat)>)
    returns (result: Tree, stopped: Option<Path>)
    ensures result.Keys == tree.Keys
    ensures forall p :: p in tree && !Visited(p) ==> result[p] == tree[p]
    ensures forall p :: p in tree && Visited(p) ==>
              result[p] == tree[p] || Written(tree[p], parse, render, dims) == Some(result[p])
    ensures stopped.Some? ==> stopped.value in tree && Visited(stopped.value) && Written(tree[stopped.value], parse, render, dims).None?
    ensures stopped.None? ==> forall p :: p in tree && Visited(p) ==> Written(tree[p], parse, render, dims) == Some(result[p])
  {
    result, stopped := tree, None;
    var selected := SelectPages(tree);
    var todo := selected;
    ghost var done: set<Path> := {};
    while todo != {}
      invariant todo <= selected && done <= selected && todo !! done
      invariant forall p :: p in selected ==> p in todo || p in done
      invariant result.Keys == tree.Keys
      invariant forall p :: p in tree && p !in done ==> result[p] == tree[p]
      invariant forall p :: p in done ==> Written(tree[p], parse, render, dims) == Some(result[p])
      decreases todo
    {
      var filePath :| filePath in todo;
      var out := EnhanceFile(tree[filePath], parse, render, dims);
      if out.None? {
        stopped := Some(filePath);
        return;
      }
      result := result[filePath := out.value];
      todo := todo - {filePath};
      done := done + {filePath};
    }
  }

  /** The files the script visits. */
  method SelectPages(tree: Tree) returns (selected: set<Path>)
    ensures forall p :: p in selected <==> p in tree && Visited(p)
  {
    selected := set p | p in tree && Visited(p);
  }
}
