/** The file tree the scripts walk, and the parts of `pathlib` they rely on.
    A tree maps each regular file's path (relative to the site root, with
    `/` as separator) to its text. */
module Paths {
  import opened Strings

  type Path = string
  type Tree = map<Path, string>

  /** A separator of a Windows path: `Path` is `WindowsPath` on the
      system the scripts were written for, where `/` and `\` both
      separate components. */
  predicate IsSeparator(c: char) { c == '/' || c == '\\' }

  /** The text after the last separator (all of `p` when it has none). */
  function LastSegment(p: string): (r: string)
    ensures forall k :: 0 <= k < |r| ==> !IsSeparator(r[k])
    ensures |r| <= |p| && r == p[|p| - |r|..]
    ensures |r| < |p| ==> IsSeparator(p[|p| - |r| - 1])
    decreases |p|
  {
    if p == [] || IsSeparator(p[|p| - 1]) then []
    else LastSegment(p[..|p| - 1]) + [p[|p| - 1]]
  }

  /** `Path(p).name`: the last component once empty components (from
      repeated or trailing separators) and `.` components are dropped. */
  function Name(p: string): (r: string)
    ensures forall k :: 0 <= k < |r| ==> !IsSeparator(r[k])
    ensures r != "."
    ensures |r| <= |p|
    decreases |p|
  {
    if p == [] then []
    else if IsSeparator(p[|p| - 1]) then Name(p[..|p| - 1])
    else
      var seg := LastSegment(p);
      if seg == "." then Name(p[..|p| - 1]) else seg
  }

  /** The last segment is the text after the last separator. */
  lemma {:induction false} LastSegmentAfter(a: string, c: char, b: string)
    requires IsSeparator(c) && forall k :: 0 <= k < |b| ==> !IsSeparator(b[k])
    ensures LastSegment(a + [c] + b) == b
    decreases |b|
  {
    var p := a + [c] + b;
    if b == [] {
      assert p[|p| - 1] == c;
    } else {
      var init := b[..|b| - 1];
      LastSegmentAfter(a, c, init);
      assert p[..|p| - 1] == a + [c] + init;
      assert b == init + [b[|b| - 1]];
    }
  }

  /** A backslash separates components too: `Path("img\\foto-1.jpg").name`
      is `foto-1.jpg`. */
  lemma NameAfterBackslash()
    ensures Name("img\\foto-1.jpg") == "foto-1.jpg"
  {
    var p := "img\\foto-1.jpg";
    assert p == "img" + ['\\'] + "foto-1.jpg";
    LastSegmentAfter("img", '\\', "foto-1.jpg");
  }

  /** `PurePath(name).suffix`: from the last `.` on, unless that dot is the
      first or the last character of the name. */
  function Suffix(name: string): (r: string)
    ensures r == [] || (|r| >= 2 && r[0] == '.' && '.' !in r[1..])
    ensures |r| < |name| || r == []
    ensures EndsWith(name, r)
  {
    var seg := LastIndex(name, '.');
    if seg.Some? && 0 < seg.value < |name| - 1 then name[seg.value..] else []
  }

  /** Position of the last `c` in `s` (`str.rfind`). */
  function LastIndex(s: string, c: char): (r: Option<nat>)
    ensures r.Some? ==> r.value < |s| && s[r.value] == c && c !in s[r.value + 1..]
    ensures r.None? ==> c !in s
    decreases |s|
  {
    if s == [] then None
    else if s[|s| - 1] == c then Some(|s| - 1)
    else
      var r := LastIndex(s[..|s| - 1], c);
      assert s == s[..|s| - 1] + [s[|s| - 1]];
      if r.Some? then
        assert s[r.value + 1..] == s[..|s| - 1][r.value + 1..] + [s[|s| - 1]];
        r
      else r
  }

  /** The name without its suffix (`PurePath.stem`). */
  function Stem(name: string): (r: string)
    ensures name == r + Suffix(name)
  {
    name[..|name| - |Suffix(name)|]
  }

  /** `PurePath(name).with_suffix(suffix)`. */
  function WithSuffix(name: string, suffix: string): (r: string)
    ensures StartsWith(r, Stem(name)) && EndsWith(r, suffix)
  {
    Stem(name) + suffix
  }

  /** `path.suffix.lower() in exts`. */
  predicate HasExtensionIn(p: Path, exts: set<string>) {
    Lower(Suffix(Name(p))) in exts
  }

  /** `fn.lower().endswith('.html')` for a file name `fn`. */
  predicate IsHtml(name: string) {
    EndsWith(Lower(name), ".html")
  }

  /** `ROOT.glob("*.html")`: a page directly in the site root. */
  predicate IsRootPage(p: Path) {
    '/' !in p && EndsWith(p, ".html")
  }

  function RootPages(tree: Tree): (r: set<Path>)
    ensures forall p :: p in r <==> p in tree && IsRootPage(p)
  {
    set p | p in tree && IsRootPage(p)
  }

  /** The common write-back step of the rewriting scripts: every selected
      file is read, transformed by `rewrite`, and written back only when the
      text changed; the other files are left alone. */
  method RewriteFiles(tree: Tree, selected: set<Path>, rewrite: string -> string)
    returns (result: Tree, written: set<Path>)
    ensures result.Keys == tree.Keys
    ensures forall p :: p in tree && p in selected ==> result[p] == rewrite(tree[p])
    ensures forall p :: p in tree && p !in selected ==> result[p] == tree[p]
    ensures written == set p | p in tree && p in selected && rewrite(tree[p]) != tree[p]
  {
    result, written := tree, {};
    var todo := tree.Keys * selected;
    while todo != {}
      invariant todo <= tree.Keys * selected
      invariant result.Keys == tree.Keys
      invariant forall p :: p in tree && p in selected && p !in todo ==> result[p] == rewrite(tree[p])
      invariant forall p :: p in tree && (p !in selected || p in todo) ==> result[p] == tree[p]
      invariant written == set p | p in tree && p in selected && p !in todo && rewrite(tree[p]) != tree[p]
      decreases todo
    {
      var p :| p in todo;
      var text := tree[p];
      var updated := rewrite(text);
      if updated != text {
        result := result[p := updated];
        written := written + {p};
      }
      todo := todo - {p};
    }
  }
}
