/** scripts/update_html_for_cls_and_links.py: in every HTML page, drop the
    `.html` of internal links, give every local image its measured width and
    height, and write the page back through the serialiser when anything
    changed.

    A parsed page is the sequence of its elements in document order, each a
    tag name and its attribute map. Parsing, serialising and measuring images
    are parameters: `parse`, `render`, and `sizes`, which maps a `src`
    spelling with its leading `/` and `\\` stripped (see `Resolved`) to the
    size measured for the file it names below the site root, or to `None`
    when that image cannot be opened; a spelling missing from `sizes` names
    no regular file. */
module LinkAndSizeUpdate {
  import opened Strings
  import opened Paths

  /** A tag of the parsed page. */
  datatype Element = Element(tag: string, attrs: map<string, string>)

  /** An anchor, an absolute link or a mail link: never rewritten. */
  predicate External(href: string) {
    StartsWith(href, "#") || StartsWith(href, "http") || StartsWith(href, "mailto:")
  }

  /** The new value of an `href`: an internal link ending in `.html` loses
      exactly those five characters; any other is kept. */
  function StrippedHref(href: string): (r: string)
    ensures External(href) || !EndsWith(href, ".html") ==> r == href
    ensures !External(href) && EndsWith(href, ".html") ==> r + ".html" == href
  {
    if !External(href) && EndsWith(href, ".html") then href[..|href| - 5] else href
  }

  /** The rule strips one extension per run: applied again to its own
      output it strips the next one, so it is not idempotent on
      `x.html.html`. */
  lemma StripNotIdempotent(y: string)
    requires !External(y + ".html.html")
    ensures StrippedHref(y + ".html.html") == y + ".html"
    ensures StrippedHref(StrippedHref(y + ".html.html")) == y
  {
    var s := y + ".html.html";
    var t := y + ".html";
    assert s == t + ".html";
    assert s[|s| - 5..] == ".html";
    assert t[|t| - 5..] == ".html";
    forall p | StartsWith(t, p) ensures StartsWith(s, p) {
      assert s[..|p|] == t[..|p|];
    }
  }

  /** An `<a>` element with an `href`. */
  predicate IsLink(e: Element) {
    e.tag == "a" && "href" in e.attrs
  }

  /** The link loop rewrites this element. */
  predicate Strips(e: Element) {
    IsLink(e) && !External(e.attrs["href"]) && EndsWith(e.attrs["href"], ".html")
  }

  /** An element after the link loop. */
  function FixLink(e: Element): (r: Element)
    ensures r.tag == e.tag && r.attrs.Keys == e.attrs.Keys
    ensures forall k :: k in e.attrs && k != "href" ==> r.attrs[k] == e.attrs[k]
    ensures IsLink(e) ==> r.attrs["href"] == StrippedHref(e.attrs["href"])
    ensures !Strips(e) ==> r == e
  {
    if Strips(e) then e.(attrs := e.attrs["href" := StrippedHref(e.attrs["href"])]) else e
  }

  /** An `<img>` element with a `src`. */
  predicate IsSourcedImage(e: Element) {
    e.tag == "img" && "src" in e.attrs
  }

  /** Remote and inline images are not measured. */
  predicate SkippedSrc(src: string) {
    StartsWith(src, "http") || StartsWith(src, "data:")
  }

  /** `src.lstrip('/\\')`: the path below the site root. */
  function Resolved(src: string): (r: Path)
    ensures r == [] || (r[0] != '/' && r[0] != '\\')
    ensures EndsWith(src, r)
  {
    LStripChars(src, {'/', '\\'})
  }

  /** The dimensions the image loop uses for this element, if any. */
  function Measured(e: Element, sizes: map<Path, Option<(nat, nat)>>): Option<(nat, nat)> {
    if IsSourcedImage(e) && !SkippedSrc(e.attrs["src"]) && Resolved(e.attrs["src"]) in sizes
    then sizes[Resolved(e.attrs["src"])]
    else None
  }

  /** `img[key] = value` unless the attribute already holds it; the flag
      says whether it was assigned. */
  function SetAttr(attrs: map<string, string>, key: string, value: string): (r: (map<string, string>, bool))
    ensures key in r.0 && r.0[key] == value
    ensures forall k :: k != key ==> (k in r.0 <==> k in attrs) && (k in attrs ==> r.0[k] == attrs[k])
    ensures r.1 <==> key !in attrs || attrs[key] != value
  {
    if key !in attrs || attrs[key] != value then (attrs[key := value], true) else (attrs, false)
  }

  /** The image loop sets at least one of the two attributes of this
      element. */
  predicate Resizes(e: Element, sizes: map<Path, Option<(nat, nat)>>) {
    var m := Measured(e, sizes);
    && m.Some?
    && (|| "width" !in e.attrs || e.attrs["width"] != DecimalString(m.value.0)
        || "height" !in e.attrs || e.attrs["height"] != DecimalString(m.value.1))
  }

  /** An element after the image loop. */
  function SizeImage(e: Element, sizes: map<Path, Option<(nat, nat)>>): (r: Element)
    ensures r.tag == e.tag
    ensures Measured(e, sizes).None? ==> r == e
    ensures Measured(e, sizes).Some? ==>
      && r.attrs.Keys == e.attrs.Keys + {"width", "height"}
      && r.attrs["width"] == DecimalString(Measured(e, sizes).value.0)
      && r.attrs["height"] == DecimalString(Measured(e, sizes).value.1)
      && forall k :: k in e.attrs && k != "width" && k != "height" ==> r.attrs[k] == e.attrs[k]
  {
    match Measured(e, sizes)
    case None => e
    case Some(size) =>
      var (withWidth, _) := SetAttr(e.attrs, "width", DecimalString(size.0));
      var (withBoth, _) := SetAttr(withWidth, "height", DecimalString(size.1));
      e.(attrs := withBoth)
  }

  /** Measuring is settled by one pass: the sized element needs no more
      width or height, and sizing it again leaves it as it is. */
  lemma SizeImageSettles(e: Element, sizes: map<Path, Option<(nat, nat)>>)
    ensures !Resizes(SizeImage(e, sizes), sizes)
    ensures SizeImage(SizeImage(e, sizes), sizes) == SizeImage(e, sizes)
  {
    var r := SizeImage(e, sizes);
    assert IsSourcedImage(r) <==> IsSourcedImage(e);
    if IsSourcedImage(e) {
      assert r.attrs["src"] == e.attrs["src"];
    }
    assert Measured(r, sizes) == Measured(e, sizes);
    if Measured(e, sizes).Some? {
      assert r.attrs["width"] == DecimalString(Measured(r, sizes).value.0);
      assert r.attrs["height"] == DecimalString(Measured(r, sizes).value.1);
      assert SizeImage(r, sizes).attrs == r.attrs;
    }
  }

  /** The page after both loops. */
  function Final(elements: seq<Element>, sizes: map<Path, Option<(nat, nat)>>): (r: seq<Element>)
    ensures |r| == |elements|
    ensures forall i :: 0 <= i < |r| ==> r[i] == SizeImage(FixLink(elements[i]), sizes)
  {
    seq(|elements|, i requires 0 <= i < |elements| => SizeImage(FixLink(elements[i]), sizes))
  }

  /** The parsed page `soup`, whose tags the two loops update in place. */
  class Soup {
    var elements: seq<Element>

    constructor (parsed: seq<Element>)
      ensures elements == parsed
    {
      elements := parsed;
    }

    /** The link loop: the flag is raised exactly when some link is
        rewritten. */
    method UpdateHrefs() returns (changed: bool)
      modifies this
      ensures |elements| == |old(elements)|
      ensures forall i :: 0 <= i < |elements| ==> elements[i] == FixLink(old(elements)[i])
      ensures changed <==> exists i :: 0 <= i < |old(elements)| && Strips(old(elements)[i])
    {
      changed := false;
      ghost var before := elements;
      for i := 0 to |elements|
        invariant |elements| == |before|
        invariant forall j :: 0 <= j < i ==> elements[j] == FixLink(before[j])
        invariant forall j :: i <= j < |elements| ==> elements[j] == before[j]
        invariant changed <==> exists j :: 0 <= j < i && Strips(before[j])
      {
        var rewritten := UpdateHref(i);
        changed := changed || rewritten;
        assert rewritten ==> 0 <= i < i + 1 && Strips(before[i]);
      }
    }

    /** One pass of the link loop, on the element at `i`. */
    method UpdateHref(i: nat) returns (rewritten: bool)
      requires i < |elements|
      modifies this
      ensures elements == old(elements)[i := FixLink(old(elements)[i])]
      ensures rewritten <==> Strips(old(elements)[i])
    {
      rewritten := false;
      var a := elements[i];
      if a.tag == "a" && "href" in a.attrs {
        var href := a.attrs["href"];
        if External(href) {
          return;
        }
        if EndsWith(href, ".html") {
          var stripped := href[..|href| - 5];
          elements := elements[i := a.(attrs := a.attrs["href" := stripped])];
          rewritten := true;
        }
      }
    }

    /** The image loop: the flag is raised exactly when some width or
        height is assigned. */
    method AddSizes(sizes: map<Path, Option<(nat, nat)>>) returns (changed: bool)
      modifies this
      ensures |elements| == |old(elements)|
      ensures forall i :: 0 <= i < |elements| ==> elements[i] == SizeImage(old(elements)[i], sizes)
      ensures changed <==> exists i :: 0 <= i < |old(elements)| && Resizes(old(elements)[i], sizes)
    {
      changed := false;
      ghost var before := elements;
      for i := 0 to |elements|
        invariant |elements| == |before|
        invariant forall j :: 0 <= j < i ==> elements[j] == SizeImage(before[j], sizes)
        invariant forall j :: i <= j < |elements| ==> elements[j] == before[j]
        invariant changed <==> exists j :: 0 <= j < i && Resizes(before[j], sizes)
      {
        var resized := AddSize(i, sizes);
        changed := changed || resized;
        assert resized ==> 0 <= i < i + 1 && Resizes(before[i], sizes);
      }
    }

    /** One pass of the image loop, on the element at `i`. */
    method AddSize(i: nat, sizes: map<Path, Option<(nat, nat)>>) returns (resized: bool)
      requires i < |elements|
      modifies this
      ensures elements == old(elements)[i := SizeImage(old(elements)[i], sizes)]
      ensures resized <==> Resizes(old(elements)[i], sizes)
    {
      resized := false;
      var img := elements[i];
      if img.tag == "img" && "src" in img.attrs {
        var src := img.attrs["src"];
        if SkippedSrc(src) {
          return;
        }
        var relpath := Resolved(src);
        if relpath in sizes && sizes[relpath].Some? {
          var (w, h) := sizes[relpath].value;
          var (width, setWidth) := SetAttr(img.attrs, "width", DecimalString(w));
          var (height, setHeight) := SetAttr(width, "height", DecimalString(h));
          assert Measured(img, sizes) == Some((w, h));
          elements := elements[i := img.(attrs := height)];
          resized := setWidth || setHeight;
        } else {
          assert Measured(img, sizes) == None;
        }
      }
    }
  }

  /** `process_file`: the page is parsed into `parsed`; the text written
      back, if any, is the serialised page after both loops. */
  method ProcessFile(data: string, parsed: seq<Element>, render: seq<Element> -> string,
                     sizes: map<Path, Option<(nat, nat)>>)
    returns (written: Option<string>)
    ensures written.Some? <==>
      || (exists i :: 0 <= i < |parsed| && Strips(parsed[i]))
      || (exists i :: 0 <= i < |parsed| && Resizes(parsed[i], sizes))
      || render(Final(parsed, sizes)) != data
    ensures written.Some? ==> written.value == render(Final(parsed, sizes))
    ensures written.None? ==> render(Final(parsed, sizes)) == data
  {
    var soup := new Soup(parsed);
    var linksChanged := soup.UpdateHrefs();
    ghost var linked := soup.elements;
    var sizesChanged := soup.AddSizes(sizes);
    forall i | 0 <= i < |parsed| ensures Resizes(linked[i], sizes) <==> Resizes(parsed[i], sizes) {
      assert linked[i] == FixLink(parsed[i]);
    }
    assert soup.elements == Final(parsed, sizes);
    var changed := linksChanged || sizesChanged;
    var newHtml := render(soup.elements);
    if newHtml != data {
      changed := true;
    }
    written := if changed then Some(newHtml) else None;
  }

  /** `walk`: every HTML file of the site goes through `process_file`;
      whether written back or not, each ends up as the serialised page. */
  method Walk(tree: Tree, parse: string -> seq<Element>, render: seq<Element> -> string,
              sizes: map<Path, Option<(nat, nat)>>)
    returns (result: Tree)
    ensures result.Keys == tree.Keys
    ensures forall p :: p in tree && IsHtml(Name(p)) ==> result[p] == render(Final(parse(tree[p]), sizes))
    ensures forall p :: p in tree && !IsHtml(Name(p)) ==> result[p] == tree[p]
  {
    result := tree;
    var todo := tree.Keys;
    while todo != {}
      invariant todo <= tree.Keys
      invariant result.Keys == tree.Keys
      invariant forall p :: p in tree && p !in todo && IsHtml(Name(p)) ==> result[p] == render(Final(parse(tree[p]), sizes))
      invariant forall p :: p in tree && (p in todo || !IsHtml(Name(p))) ==> result[p] == tree[p]
      decreases todo
    {
      var path :| path in todo;
      todo := todo - {path};
      if IsHtml(Name(path)) {
        var written := ProcessFile(tree[path], parse(tree[path]), render, sizes);
        if written.Some? {
          result := result[path := written.value];
        }
      }
    }
  }
}
