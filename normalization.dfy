/** How the two "safe" unused-image scripts turn a reference found in a page,
    or a file's path below `img/`, into the key they compare:
    `normalize_filename` (scripts/find_unused_images_safe.py and its copy in
    scripts/delete_unused_images_safe.py) and the clean-up of a captured
    reference before it is normalised. */
module ImageNames {
  import opened Strings

  // ---------------------------------------------------------------------
  // Percent-decoding (`urllib.parse.unquote`), section 2.1 of RFC 3986.
  // ---------------------------------------------------------------------

  predicate IsHexDigit(c: char) {
    ('0' <= c <= '9') || ('a' <= c <= 'f') || ('A' <= c <= 'F')
  }

  function HexValue(c: char): (v: nat)
    requires IsHexDigit(c)
    ensures v < 16
  {
    if '0' <= c <= '9' then c as int - '0' as int
    else if 'a' <= c <= 'f' then c as int - 'a' as int + 10
    else c as int - 'A' as int + 10
  }

  /** `s` starts with a percent-encoded ASCII character `%XX`. */
  predicate EscapeAt(s: string) {
    |s| >= 3 && s[0] == '%' && IsHexDigit(s[1]) && IsHexDigit(s[2])
    && HexValue(s[1]) * 16 + HexValue(s[2]) < 128
  }

  /** `urllib.parse.unquote`: every `%XX` naming an ASCII character is
      replaced by that character, left to right; anything else, including a
      `%` not followed by two hex digits, is kept. */
  function Unquote(s: string): (r: string)
    ensures |r| <= |s|
    ensures '%' !in s ==> r == s
    decreases |s|
  {
    if s == [] then []
    else if EscapeAt(s) then [(HexValue(s[1]) * 16 + HexValue(s[2])) as char] + Unquote(s[3..])
    else [s[0]] + Unquote(s[1..])
  }

  /** How a file name is written inside a URL so that it decodes back to
      itself: a literal `%` becomes `%25` (section 2.4 of RFC 3986). */
  function EscapePercent(n: string): (r: string)
    ensures '%' !in n ==> r == n
    decreases |n|
  {
    if n == [] then []
    else (if n[0] == '%' then "%25" else [n[0]]) + EscapePercent(n[1..])
  }

  /** Decoding undoes the escaping of a file name. */
  lemma {:induction false} UnquoteEscapePercent(n: string)
    ensures Unquote(EscapePercent(n)) == n
    decreases |n|
  {
    if n != [] {
      UnquoteEscapePercent(n[1..]);
      var e := EscapePercent(n);
      var rest := EscapePercent(n[1..]);
      if n[0] == '%' {
        assert e == "%25" + rest;
        assert EscapeAt(e) && HexValue(e[1]) * 16 + HexValue(e[2]) == 37;
        assert e[3..] == rest;
        assert n == ['%'] + n[1..];
      } else {
        assert e == [n[0]] + rest;
        assert e[1..] == rest;
        assert n == [n[0]] + n[1..];
      }
    }
  }

  // ---------------------------------------------------------------------
  // `re.sub(r'\s+', ' ', s)`.
  // ---------------------------------------------------------------------

  /** No two whitespace characters in a row, and every whitespace character
      a plain space. */
  predicate Collapsed(s: string) {
    (forall i :: 0 <= i < |s| ==> IsSpace(s[i]) ==> s[i] == ' ')
    && (forall i :: 0 <= i < |s| - 1 ==> !(IsSpace(s[i]) && IsSpace(s[i + 1])))
  }

  /** The characters of `s` that are not whitespace, in order. */
  function Visible(s: string): string
    decreases |s|
  {
    if s == [] then [] else (if IsSpace(s[0]) then [] else [s[0]]) + Visible(s[1..])
  }

  /** Every maximal run of whitespace replaced by one space. */
  function Collapse(s: string): (r: string)
    ensures Collapsed(r)
    ensures s == [] <==> r == []
    ensures s != [] ==> (IsSpace(r[0]) <==> IsSpace(s[0]))
    ensures s != [] ==> (IsSpace(r[|r| - 1]) <==> IsSpace(s[|s| - 1]))
    decreases |s|
  {
    if s == [] then []
    else if IsSpace(s[0]) then [' '] + Collapse(LStrip(s[1..]))
    else [s[0]] + Collapse(s[1..])
  }

  lemma {:induction false} VisibleAllSpace(s: string)
    requires AllSpace(s)
    ensures Visible(s) == []
    decreases |s|
  {
    if s != [] {
      VisibleAllSpace(s[1..]);
    }
  }

  lemma {:induction false} VisibleConcat(x: string, y: string)
    ensures Visible(x + y) == Visible(x) + Visible(y)
    decreases |x|
  {
    if x != [] {
      VisibleConcat(x[1..], y);
      assert (x + y)[0] == x[0] && (x + y)[1..] == x[1..] + y;
      var head := if IsSpace(x[0]) then [] else [x[0]];
      assert Visible(x + y) == head + (Visible(x[1..]) + Visible(y));
      assert Visible(x) == head + Visible(x[1..]);
    } else {
      assert x + y == y;
    }
  }

  /** Collapsing keeps every visible character, in order. */
  lemma {:induction false} CollapseKeepsVisible(s: string)
    ensures Visible(Collapse(s)) == Visible(s)
    decreases |s|
  {
    if s != [] {
      if IsSpace(s[0]) {
        var rest := LStrip(s[1..]);
        CollapseKeepsVisible(rest);
        VisibleCons(' ', Collapse(rest));
        VisibleSkipsSpaces(s);
      } else {
        CollapseKeepsVisible(s[1..]);
        VisibleCons(s[0], Collapse(s[1..]));
      }
    }
  }

  lemma VisibleCons(c: char, r: string)
    ensures Visible([c] + r) == (if IsSpace(c) then [] else [c]) + Visible(r)
  {
    assert ([c] + r)[1..] == r;
  }

  /** A leading run of whitespace contributes nothing visible. */
  lemma VisibleSkipsSpaces(s: string)
    requires s != [] && IsSpace(s[0])
    ensures Visible(s) == Visible(LStrip(s[1..]))
  {
    var t := s[1..];
    var rest := LStrip(t);
    var k := |t| - |rest|;
    assert t == t[..k] + rest;
    VisibleConcat(t[..k], rest);
    VisibleAllSpace(t[..k]);
  }

  /** Text that is already collapsed is left alone. */
  lemma CollapsedTail(s: string)
    requires s != [] && Collapsed(s)
    ensures Collapsed(s[1..])
    ensures |s| > 1 && IsSpace(s[0]) ==> !IsSpace(s[1..][0])
  {
    var t := s[1..];
    forall i | 0 <= i < |t| ensures IsSpace(t[i]) ==> t[i] == ' ' {
      assert t[i] == s[i + 1];
    }
    forall i | 0 <= i < |t| - 1 ensures !(IsSpace(t[i]) && IsSpace(t[i + 1])) {
      assert t[i] == s[i + 1] && t[i + 1] == s[i + 2];
    }
    if |s| > 1 {
      assert t[0] == s[1];
      assert !(IsSpace(s[0]) && IsSpace(s[1]));
    }
  }

  lemma {:induction false} CollapseOfCollapsed(s: string)
    requires Collapsed(s)
    ensures Collapse(s) == s
    decreases |s|
  {
    if s != [] {
      CollapsedTail(s);
      CollapseOfCollapsed(s[1..]);
      if IsSpace(s[0]) {
        assert s[0] == ' ';
        LStripOfClean(s[1..]);
        assert Collapse(s) == [' '] + s[1..];
      } else {
        assert Collapse(s) == [s[0]] + s[1..];
      }
      assert s == [s[0]] + s[1..];
    }
  }

  // ---------------------------------------------------------------------
  // `normalize_filename`.
  // ---------------------------------------------------------------------

  /** `re.sub(r'\s+', ' ', s.lower().strip())`: the part of
      `normalize_filename` after the decoding. */
  function Canon(s: string): string {
    Collapse(Strip(Lower(s)))
  }

  /** `normalize_filename` (scripts/find_unused_images_safe.py; the copy in
      scripts/delete_unused_images_safe.py has the same body). */
  function NormalizeFilename(name: string): string {
    Canon(Unquote(name))
  }

  /** A canonical name is lower-case, trimmed and collapsed. */
  predicate IsCanonical(k: string) {
    NoUpper(k) && (k == [] || (!IsSpace(k[0]) && !IsSpace(k[|k| - 1]))) && Collapsed(k)
  }

  lemma {:induction false} CollapseNoUpper(s: string)
    requires NoUpper(s)
    ensures NoUpper(Collapse(s))
    decreases |s|
  {
    if s != [] {
      assert NoUpper(s[1..]);
      if IsSpace(s[0]) {
        var rest := LStrip(s[1..]);
        assert NoUpper(rest) by {
          forall i | 0 <= i < |rest| ensures !IsUpper(rest[i]) {
            assert rest[i] == s[1..][|s[1..]| - |rest| + i];
          }
        }
        CollapseNoUpper(rest);
      } else {
        CollapseNoUpper(s[1..]);
      }
    }
  }

  /** The shape of every key: no upper-case ASCII letter, no leading or
      trailing whitespace, no run of two whitespace characters. */
  lemma CanonIsCanonical(s: string)
    ensures IsCanonical(Canon(s))
  {
    var l := Lower(s);
    var t := Strip(l);
    assert NoUpper(t) by {
      var u := LStrip(l);
      forall i | 0 <= i < |u| ensures !IsUpper(u[i]) {
        assert u[i] == l[|l| - |u| + i];
      }
      forall i | 0 <= i < |t| ensures !IsUpper(t[i]) {
        assert t[i] == u[i];
      }
    }
    CollapseNoUpper(t);
  }

  lemma NormalizeFilenameIsCanonical(name: string)
    ensures IsCanonical(NormalizeFilename(name))
  {
    CanonIsCanonical(Unquote(name));
  }

  lemma {:induction false} CanonOfCanonical(k: string)
    requires IsCanonical(k)
    ensures Canon(k) == k
  {
    assert Lower(k) == k;
    StripOfClean(k);
    CollapseOfCollapsed(k);
  }

  /** Lower-casing, trimming and collapsing twice is the same as once. */
  lemma CanonIdempotent(s: string)
    ensures Canon(Canon(s)) == Canon(s)
  {
    CanonIsCanonical(s);
    CanonOfCanonical(Canon(s));
  }

  // ---------------------------------------------------------------------
  // The clean-up of a captured reference.
  // ---------------------------------------------------------------------

  /** `s.split(c)[0]`: the text before the first `c`. */
  function BeforeFirst(s: string, c: char): (r: string)
    ensures c !in r
    ensures |r| <= |s| && r == s[..|r|]
    ensures |r| < |s| ==> s[|r|] == c
    ensures c !in s ==> r == s
    ensures forall d :: d in r ==> d in s
    decreases |s|
  {
    if s == [] || s[0] == c then [] else [s[0]] + BeforeFirst(s[1..], c)
  }

  /** `img_ref.split('?')[0].split('#')[0].strip()`. */
  function CleanReference(ref: string): (r: string)
    ensures '?' !in r && '#' !in r
    ensures '?' !in ref && '#' !in ref ==> r == Strip(ref)
  {
    var noQuery := BeforeFirst(ref, '?');
    var noFragment := BeforeFirst(noQuery, '#');
    StripKeepsChars(noFragment, '?');
    StripKeepsChars(noFragment, '#');
    Strip(noFragment)
  }

  /** The key a captured reference is recorded under, if any: the capture
      must be non-empty (`if img_ref:`) and so must its key (`if normalized:`). */
  function ReferenceKey(capture: string): (k: Option<string>)
    ensures k.Some? ==> k.value != [] && IsCanonical(k.value)
    ensures k.Some? ==> k.value == NormalizeFilename(CleanReference(capture))
    ensures k.None? ==> capture == [] || NormalizeFilename(CleanReference(capture)) == []
  {
    if capture == [] then None
    else
      var normalized := NormalizeFilename(CleanReference(capture));
      NormalizeFilenameIsCanonical(CleanReference(capture));
      if normalized != [] then Some(normalized) else None
  }

  // ---------------------------------------------------------------------
  // Decoding twice.
  // ---------------------------------------------------------------------

  /** Text that lower-casing, trimming and collapsing leave alone: no
      upper-case letter, no whitespace. */
  predicate Settled(s: string) {
    forall i :: 0 <= i < |s| ==> !IsUpper(s[i]) && !IsSpace(s[i])
  }

  lemma {:induction false} SettledIsCanonical(k: string)
    requires Settled(k)
    ensures IsCanonical(k) && Canon(k) == k
  {
    CanonOfCanonical(k);
  }

  /** A leading escape is decoded; text without `%` after it is kept. */
  lemma {:induction false} UnquoteLeadingEscape(s: string)
    requires EscapeAt(s) && '%' !in s[3..]
    ensures Unquote(s) == [(HexValue(s[1]) * 16 + HexValue(s[2])) as char] + s[3..]
  {
  }

  lemma UnquotePercent25(rest: string)
    requires '%' !in rest
    ensures Unquote("%2541" + rest) == "%41" + rest
  {
    var s := "%2541" + rest;
    assert s[0] == '%' && s[1] == '2' && s[2] == '5';
    assert s[3..] == "41" + rest;
    UnquoteLeadingEscape(s);
  }

  lemma UnquotePercent41(rest: string)
    requires '%' !in rest
    ensures Unquote("%41" + rest) == "A" + rest
  {
    var s := "%41" + rest;
    assert s[0] == '%' && s[1] == '4' && s[2] == '1';
    assert s[3..] == rest;
    UnquoteLeadingEscape(s);
  }

  lemma SettledAfterPrefix(rest: string)
    requires Settled(rest)
    ensures Settled("%41" + rest) && Settled("a" + rest) && Lower("A" + rest) == "a" + rest
  {
  }

  /** `normalize_filename` is not idempotent: a name written `%2541...`
      normalises to `%41...`, which normalises again to `a...`. */
  lemma {:induction false} DecodedTwice(rest: string)
    requires Settled(rest) && '%' !in rest
    ensures NormalizeFilename("%2541" + rest) == "%41" + rest
    ensures NormalizeFilename("%41" + rest) == "a" + rest
  {
    UnquotePercent25(rest);
    UnquotePercent41(rest);
    SettledAfterPrefix(rest);
    SettledIsCanonical("%41" + rest);
    SettledIsCanonical("a" + rest);
  }

  lemma NormalizeFilenameNotIdempotent()
    ensures NormalizeFilename("%2541") == "%41"
    ensures NormalizeFilename(NormalizeFilename("%2541")) == "a"
  {
    DecodedTwice("");
    assert "%2541" + "" == "%2541" && "%41" + "" == "%41" && "a" + "" == "a";
  }

  /** The consequence for the scripts: a file name holding a `%` is written
      in a page with that `%` escaped, and the two keys differ. The image
      `img/%41.png`, referenced as `img/%2541.png`, gets the key `a.png`
      while its reference gets `%41.png`. */
  lemma {:induction false} EscapedNameMismatch(ext: string)
    requires Settled(ext) && '%' !in ext
    ensures EscapePercent("%41" + ext) == "%2541" + ext
    ensures NormalizeFilename(EscapePercent("%41" + ext)) == "%41" + ext
    ensures NormalizeFilename("%41" + ext) == "a" + ext
  {
    EscapePercent41(ext);
    DecodedTwice(ext);
  }

  lemma EscapePercent41(ext: string)
    requires '%' !in ext
    ensures EscapePercent("%41" + ext) == "%2541" + ext
  {
    EscapeLeadingPercent("41" + ext);
    assert ['%'] + ("41" + ext) == "%41" + ext;
    assert "%25" + ("41" + ext) == "%2541" + ext;
  }

  lemma {:induction false} EscapeLeadingPercent(rest: string)
    requires '%' !in rest
    ensures EscapePercent(['%'] + rest) == "%25" + rest
  {
    assert (['%'] + rest)[1..] == rest;
  }

  /** The evidently intended keys: a reference is a URL and is decoded once;
      a file name is already decoded and is only lower-cased, trimmed and
      collapsed. */
  function ReferenceName(ref: string): string {
    Canon(Unquote(ref))
  }

  function FileKey(name: string): string {
    Canon(name)
  }

  /** With those keys every file name matches its own escaped reference,
      and names without `%` get the same keys as before. */
  lemma IntendedKeysMatch(name: string)
    ensures ReferenceName(EscapePercent(name)) == FileKey(name)
    ensures '%' !in name ==> FileKey(name) == NormalizeFilename(name)
  {
    UnquoteEscapePercent(name);
  }
}
