/** scripts/rename_files.py: rewrite the references of every HTML page to
    the renamed pages and directories, then rename `old.html` and the
    directory `old` of the site root for every entry of the table.

    The site root is a map from entry name to entry; a directory holds its
    files by path relative to it. */
module RenameFiles {
  import opened Strings
  import opened Paths

  /** `RENAMES`, in the order of the dictionary literal. */
  const Renames: seq<(string, string)> := [
    ("nosotros", "proposito"),
    ("constructora", "construimos"),
    ("desarrollos", "desarrollamos"),
    ("gerenciamiento", "gerenciamos"),
    ("casas", "proyectamos-dirigimos")
  ]

  predicate IsQuote(c: char) {
    c == '"' || c == '\''
  }

  /** The pattern `href=["'](name)["']` matches at the start of `s`. */
  predicate HrefAt(s: string, name: string) {
    && 7 + |name| <= |s|
    && s[..5] == "href=" && IsQuote(s[5])
    && s[6..6 + |name|] == name && IsQuote(s[6 + |name|])
  }

  /** `re.sub(r'href=["\'](name)["\']', 'href="repl"', s)`: scanning from
      the left, each match is replaced and the scan resumes after it. */
  function SubHref(s: string, name: string, repl: string): string
    decreases |s|
  {
    if s == [] then []
    else if HrefAt(s, name) then "href=\"" + repl + "\"" + SubHref(s[7 + |name|..], name, repl)
    else [s[0]] + SubHref(s[1..], name, repl)
  }

  /** The pattern `(["'])body` matches at the start of `s`. */
  predicate QuotedAt(s: string, body: string) {
    1 + |body| <= |s| && IsQuote(s[0]) && s[1..1 + |body|] == body
  }

  /** `re.sub(r'(["\'])body', r'\1repl', s)` for a literal `body`: the
      quote is kept and `body` becomes `repl`. */
  function SubQuoted(s: string, body: string, repl: string): string
    decreases |s|
  {
    if s == [] then []
    else if QuotedAt(s, body) then [s[0]] + repl + SubQuoted(s[1 + |body|..], body, repl)
    else [s[0]] + SubQuoted(s[1..], body, repl)
  }

  /** The three substitutions for one entry of the table. */
  function UpdateFor(s: string, name: string, repl: string): string {
    var t := SubHref(s, name, repl);
    var u := SubQuoted(t, "./" + name + "/", "./" + repl + "/");
    SubQuoted(u, name + "/", repl + "/")
  }

  /** The substitutions of every entry of the table, in order. */
  function Updated(s: string, renames: seq<(string, string)>): string
    decreases |renames|
  {
    if renames == [] then s
    else
      var last := renames[|renames| - 1];
      UpdateFor(Updated(s, renames[..|renames| - 1]), last.0, last.1)
  }

  /** A text with no `href` match is left as it is. */
  lemma {:induction false} SubHrefUntouched(s: string, name: string, repl: string)
    requires forall i :: 0 <= i < |s| ==> !HrefAt(s[i..], name)
    ensures SubHref(s, name, repl) == s
    decreases |s|
  {
    if s != [] {
      assert s[0..] == s;
      forall i | 0 <= i < |s[1..]| ensures !HrefAt(s[1..][i..], name) {
        assert s[1..][i..] == s[i + 1..];
      }
      SubHrefUntouched(s[1..], name, repl);
    }
  }

  /** At the first match the text becomes `href="repl"`; everything
      before it is kept and the scan resumes after it. */
  lemma {:induction false} SubHrefFirstMatch(s: string, k: nat, name: string, repl: string, u: string)
    requires k <= |s| && HrefAt(s[k..], name) && u == s[k + 7 + |name|..]
    requires NoHrefBefore(s, k, name)
    ensures SubHref(s, name, repl) == s[..k] + ("href=\"" + repl + "\"") + SubHref(u, name, repl)
    decreases k
  {
    var r := "href=\"" + repl + "\"";
    if k > 0 {
      var t := s[1..];
      SkipNoHref(s, k, name);
      SubHrefSkip(s, name, repl);
      TailSlices(s, k, k + 7 + |name|);
      SubHrefFirstMatch(t, k - 1, name, repl, u);
      ConsAssoc(s[0], t[..k - 1], r, SubHref(u, name, repl));
    } else {
      assert s[0..] == s;
      assert s[..0] == [];
    }
  }

  /** Slicing the tail of `s` is slicing `s` one place further on. */
  lemma TailSlices<T>(s: seq<T>, k: nat, j: nat)
    requires 1 <= k <= j <= |s|
    ensures s[1..][j - 1..] == s[j..] && s[..k] == [s[0]] + s[1..][..k - 1]
  {
  }

  lemma ConsAssoc<T>(c: T, a: seq<T>, b: seq<T>, d: seq<T>)
    ensures [c] + (a + b + d) == ([c] + a) + b + d
  {
  }

  /** Where no match starts, one character is copied. */
  lemma SubHrefSkip(s: string, name: string, repl: string)
    requires s != [] && !HrefAt(s, name)
    ensures SubHref(s, name, repl) == [s[0]] + SubHref(s[1..], name, repl)
  {
  }

  /** No match starts at any of the first `k` positions of `s`. */
  predicate NoHrefBefore(s: string, k: nat, name: string)
    decreases k
  {
    k <= |s| && (k == 0 || (!HrefAt(s, name) && NoHrefBefore(s[1..], k - 1, name)))
  }

  lemma SkipNoHref(s: string, k: nat, name: string)
    requires 0 < k && NoHrefBefore(s, k, name) && HrefAt(s[k..], name)
    ensures !HrefAt(s, name) && NoHrefBefore(s[1..], k - 1, name) && HrefAt(s[1..][k - 1..], name)
  {
    assert s[1..][k - 1..] == s[k..];
  }

  /** A quoted `href` naming exactly `name`, with either quote on either
      side, becomes `href="repl"`; the text around it is scanned as
      usual. */
  lemma SubHrefRewrites(x: string, q: char, q2: char, name: string, repl: string, y: string)
    requires IsQuote(q) && IsQuote(q2)
    requires NoHrefBefore(x + ("href=" + [q] + name + [q2]) + y, |x|, name)
    ensures SubHref(x + ("href=" + [q] + name + [q2]) + y, name, repl) == x + ("href=\"" + repl + "\"") + SubHref(y, name, repl)
  {
    var m := "href=" + [q] + name + [q2];
    var s := x + m + y;
    assert s[|x|..] == m + y;
    HrefMatch(q, q2, name, y);
    assert s[|x| + 7 + |name|..] == y;
    SubHrefFirstMatch(s, |x|, name, repl, y);
    assert s[..|x|] == x;
  }

  /** A quoted `href` naming `name` matches at the start. */
  lemma HrefMatch(q: char, q2: char, name: string, y: string)
    requires IsQuote(q) && IsQuote(q2)
    ensures var s := ("href=" + [q] + name + [q2]) + y;
            HrefAt(s, name) && s[7 + |name|..] == y
  {
    var s := ("href=" + [q] + name + [q2]) + y;
    assert s[..5] == "href=" && s[5] == q && s[6 + |name|] == q2;
    assert s[6..6 + |name|] == name;
    assert s[7 + |name|..] == y;
  }

  /** An `href` that only starts with `name` (here followed by a
      non-quote, as in `href="nosotros.html"`) is left unchanged. */
  lemma LongerHrefUntouched(name: string, repl: string, tail: string)
    requires '=' !in name && '=' !in tail
    requires tail != [] && !IsQuote(tail[0])
    ensures SubHref("href=\"" + name + tail, name, repl) == "href=\"" + name + tail
  {
    var s := "href=\"" + name + tail;
    forall i | 0 <= i < |s| ensures !HrefAt(s[i..], name) {
      if i == 0 {
        assert s[6 + |name|] == tail[0];
      } else if i + 4 < |s| {
        assert s[i..][4] == s[i + 4];
        if i + 4 < 6 + |name| {
          assert s[i + 4] == ("\"" + name)[i - 1];
        } else {
          assert s[i + 4] == tail[i + 4 - 6 - |name|];
        }
      }
    }
    SubHrefUntouched(s, name, repl);
  }

  /** A link to the page file itself, `href="nosotros.html"`, survives the
      renaming of `nosotros`. */
  lemma NosotrosHtmlUntouched()
    ensures SubHref("href=\"nosotros.html\"", "nosotros", "proposito") == "href=\"nosotros.html\""
  {
    LongerHrefUntouched("nosotros", "proposito", ".html\"");
    assert "href=\"" + "nosotros" + ".html\"" == "href=\"nosotros.html\"";
  }

  /** A text with no quoted `body` is left as it is. */
  lemma {:induction false} SubQuotedUntouched(s: string, body: string, repl: string)
    requires forall i :: 0 <= i < |s| ==> !QuotedAt(s[i..], body)
    ensures SubQuoted(s, body, repl) == s
    decreases |s|
  {
    if s != [] {
      assert s[0..] == s;
      forall i | 0 <= i < |s[1..]| ensures !QuotedAt(s[1..][i..], body) {
        assert s[1..][i..] == s[i + 1..];
      }
      SubQuotedUntouched(s[1..], body, repl);
    }
  }

  /** A quote followed by `body` becomes the same quote followed by
      `repl`. */
  lemma {:induction false} SubQuotedRewrites(x: string, q: char, body: string, repl: string, y: string)
    requires IsQuote(q)
    requires forall i :: 0 <= i < |x| ==> !QuotedAt((x + ([q] + body) + y)[i..], body)
    ensures SubQuoted(x + ([q] + body) + y, body, repl) == x + ([q] + repl) + SubQuoted(y, body, repl)
    decreases |x|
  {
    var m := [q] + body;
    var s := x + m + y;
    if x == [] {
      assert s == m + y;
      assert s[1..1 + |body|] == body;
      assert s[1 + |body|..] == y;
    } else {
      assert s[0..] == s;
      assert s[1..] == x[1..] + m + y;
      forall i | 0 <= i < |x[1..]| ensures !QuotedAt((x[1..] + m + y)[i..], body) {
        assert (x[1..] + m + y)[i..] == s[i + 1..];
      }
      SubQuotedRewrites(x[1..], q, body, repl, y);
    }
  }

  /** A page that mentions none of the three shapes for `name` is left as
      it is. */
  lemma UpdateForUntouched(s: string, name: string, repl: string)
    requires forall i :: 0 <= i < |s| ==> !HrefAt(s[i..], name)
    requires forall i :: 0 <= i < |s| ==> !QuotedAt(s[i..], "./" + name + "/")
    requires forall i :: 0 <= i < |s| ==> !QuotedAt(s[i..], name + "/")
    ensures UpdateFor(s, name, repl) == s
  {
    SubHrefUntouched(s, name, repl);
    SubQuotedUntouched(s, "./" + name + "/", "./" + repl + "/");
    SubQuotedUntouched(s, name + "/", repl + "/");
  }

  /** `update_references_in_file`: the substitutions of every entry, in
      table order; the result says whether the text changed, and so
      whether it is written back. */
  method UpdateReferencesInFile(content: string, renames: seq<(string, string)>)
    returns (changed: bool, text: string)
    ensures text == Updated(content, renames)
    ensures changed <==> text != content
  {
    text := content;
    var original := content;
    for j := 0 to |renames|
      invariant text == Updated(original, renames[..j])
    {
      assert renames[..j + 1][..j] == renames[..j];
      var oldName, newName := renames[j].0, renames[j].1;
      text := SubHref(text, oldName, newName);
      text := SubQuoted(text, "./" + oldName + "/", "./" + newName + "/");
      text := SubQuoted(text, oldName + "/", newName + "/");
    }
    assert renames[..|renames|] == renames;
    changed := text != original;
  }

  /** An entry of the site root. */
  datatype Entry = File(text: string) | Dir(files: Tree)

  type Root = map<string, Entry>

  /** An entry after step 1: its HTML files carry the new references, every
      other file is as it was. */
  function Refreshed(name: string, e: Entry, renames: seq<(string, string)>): (r: Entry)
    ensures r.File? <==> e.File?
    ensures e.File? && !IsHtml(name) ==> r == e
    ensures e.Dir? ==> r.files.Keys == e.files.Keys
    ensures e.Dir? ==> forall p :: p in e.files && !IsHtml(Name(p)) ==> r.files[p] == e.files[p]
  {
    match e
    case File(t) => if IsHtml(name) then File(Updated(t, renames)) else e
    case Dir(files) => Dir(map p | p in files :: if IsHtml(Name(p)) then Updated(files[p], renames) else files[p])
  }

  /** Step 1 of `main`: every HTML file of the site, at the root or inside
      a directory, has its references updated. */
  method UpdateAll(root: Root, renames: seq<(string, string)>) returns (result: Root)
    ensures result == map k | k in root :: Refreshed(k, root[k], renames)
  {
    result := root;
    var todo := root.Keys;
    while todo != {}
      invariant todo <= root.Keys
      invariant result.Keys == root.Keys
      invariant forall k :: k in root && k !in todo ==> result[k] == Refreshed(k, root[k], renames)
      invariant forall k :: k in todo ==> result[k] == root[k]
      decreases todo
    {
      var name :| name in todo;
      todo := todo - {name};
      var entry := RefreshEntry(name, root[name], renames);
      result := result[name := entry];
    }
  }

  /** One entry of the site root: a root HTML file or a directory. */
  method RefreshEntry(name: string, e: Entry, renames: seq<(string, string)>) returns (r: Entry)
    ensures r == Refreshed(name, e, renames)
  {
    r := e;
    match e
    case File(t) =>
      if IsHtml(name) {
        var changed, text := UpdateReferencesInFile(t, renames);
        if changed {
          r := File(text);
        }
      }
    case Dir(files) =>
      var updated := UpdateDir(files, renames);
      r := Dir(updated);
  }

  /** The walk of one directory: every HTML file below it. */
  method UpdateDir(files: Tree, renames: seq<(string, string)>) returns (result: Tree)
    ensures result == map p | p in files :: if IsHtml(Name(p)) then Updated(files[p], renames) else files[p]
  {
    result := files;
    var todo := files.Keys;
    while todo != {}
      invariant todo <= files.Keys
      invariant result.Keys == files.Keys
      invariant forall p :: p in files && p !in todo ==>
        result[p] == if IsHtml(Name(p)) then Updated(files[p], renames) else files[p]
      invariant forall p :: p in todo ==> result[p] == files[p]
      decreases todo
    {
      var p :| p in todo;
      todo := todo - {p};
      if IsHtml(Name(p)) {
        var changed, text := UpdateReferencesInFile(files[p], renames);
        if changed {
          result := result[p := text];
        }
      }
    }
  }

  /** `os.rename(from, to)` within the root. */
  function Move(root: Root, from: string, to: string): (r: Root)
    requires from in root
    ensures to in r && r[to] == root[from]
    ensures from != to ==> from !in r
    ensures forall k :: k != from && k != to ==> (k in r <==> k in root) && (k in r ==> r[k] == root[k])
  {
    (root - {from})[to := root[from]]
  }

  /** Step 2 for one entry of the table: rename `name.html` if it exists,
      then the directory `name` if there is one. `os.rename` fails when the
      target exists (the behaviour on Windows, where the site is kept), and
      the failure ends the script; the flag is false then, and the root is
      as the failure left it. */
  function RenamePair(root: Root, name: string, repl: string): (r: (Root, bool))
    ensures forall k :: k != name + ".html" && k != repl + ".html" && k != name && k != repl ==>
      (k in r.0 <==> k in root) && (k in r.0 ==> r.0[k] == root[k])
    ensures name + ".html" !in root && !(name in root && root[name].Dir?) ==> r == (root, true)
    ensures !r.1 ==> (name + ".html" in root && repl + ".html" in root) || repl in root || repl == repl + ".html" || repl == name + ".html"
    ensures Fresh(name, repl) && r.1 && name + ".html" in root ==>
      name + ".html" !in r.0 && repl + ".html" in r.0 && r.0[repl + ".html"] == root[name + ".html"]
    ensures Fresh(name, repl) && r.1 && name in root && root[name].Dir? ==>
      name !in r.0 && repl in r.0 && r.0[repl] == root[name]
  {
    var oldFile, newFile := name + ".html", repl + ".html";
    if oldFile in root && newFile in root then (root, false)
    else
      var r1 := if oldFile in root then Move(root, oldFile, newFile) else root;
      if name in r1 && r1[name].Dir? then
        if repl in r1 then (r1, false) else (Move(r1, name, repl), true)
      else (r1, true)
  }

  /** Step 2: the table entries in order, up to the first failing
      rename. */
  function RenamedAll(root: Root, renames: seq<(string, string)>): (Root, bool)
    decreases |renames|
  {
    if renames == [] then (root, true)
    else
      var step := RenamePair(root, renames[0].0, renames[0].1);
      if !step.1 then step else RenamedAll(step.0, renames[1..])
  }

  /** The rename loop of `main`. */
  method RenameAll(root0: Root, renames: seq<(string, string)>) returns (root: Root, ok: bool)
    ensures (root, ok) == RenamedAll(root0, renames)
  {
    root := root0;
    var j := 0;
    while j < |renames|
      invariant 0 <= j <= |renames|
      invariant RenamedAll(root, renames[j..]) == RenamedAll(root0, renames)
    {
      assert renames[j..][1..] == renames[j + 1..];
      var oldName, newName := renames[j].0, renames[j].1;
      var oldFile, newFile := oldName + ".html", newName + ".html";
      if oldFile in root {
        if newFile in root {
          return root, false;
        }
        root := Move(root, oldFile, newFile);
      }
      if oldName in root && root[oldName].Dir? {
        if newName in root {
          return root, false;
        }
        root := Move(root, oldName, newName);
      }
      j := j + 1;
    }
    assert renames[j..] == [];
    ok := true;
  }

  /** The four names one table entry touches are pairwise distinct. */
  predicate Fresh(name: string, repl: string) {
    && name + ".html" != repl + ".html" && name + ".html" != name && name + ".html" != repl
    && repl + ".html" != name && repl + ".html" != repl && name != repl
  }

  /** Every entry of the table moves its page and its directory to fresh
      names. */
  lemma RenamesFresh()
    ensures forall i :: 0 <= i < |Renames| ==> Fresh(Renames[i].0, Renames[i].1)
  {
    forall i | 0 <= i < |Renames| ensures Fresh(Renames[i].0, Renames[i].1) {
      var name, repl := Renames[i].0, Renames[i].1;
      assert |name| != |repl| && |name| + 5 != |repl| && |repl| + 5 != |name|;
    }
  }

  /** `main`: every HTML file is rewritten before any rename. */
  method Run(root: Root) returns (result: Root, ok: bool)
    ensures (result, ok) == RenamedAll(map k | k in root :: Refreshed(k, root[k], Renames), Renames)
  {
    var updated := UpdateAll(root, Renames);
    result, ok := RenameAll(updated, Renames);
  }
}
