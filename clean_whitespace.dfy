/** scripts/clean_whitespace.py: strip trailing whitespace from every line
    of the site's .html/.css/.js files and keep at most two blank lines in
    a row; a file is written back only when its line list changed. */
module WhitespaceCleaner {
  import opened Strings
  import opened Paths

  /** `line.rstrip() + '\n'`. */
  function NormalizeLine(line: string): string {
    RStrip(line) + "\n"
  }

  /** A normalised line is the input line without its trailing whitespace
      (its own newline included), ended by exactly one newline. */
  lemma NormalizeLineSpec(line: string)
    ensures var l := NormalizeLine(line);
      && |l| >= 1 && l[|l| - 1] == '\n'
      && |l| - 1 <= |line| && l[..|l| - 1] == line[..|l| - 1]
      && AllSpace(line[|l| - 1..])
      && (|l| == 1 || !IsSpace(l[|l| - 2]))
  {
  }

  /** A blank line: one that `l.strip() == ''` accepts, that is, one made of
      whitespace only (`Strings.StripEmptyIffAllSpace`). */
  predicate IsBlank(l: string) {
    AllSpace(l)
  }

  lemma {:induction false} NormalizeLineIdempotent(line: string)
    ensures NormalizeLine(NormalizeLine(line)) == NormalizeLine(line)
  {
    var r := RStrip(line);
    assert RStrip(r + "\n") == RStrip(r) by {
      assert (r + "\n")[..|r + "\n"| - 1] == r;
    }
    RStripOfClean(r);
  }

  /** A normalised line is blank exactly when it is a lone newline. */
  lemma {:induction false} BlankNormalized(line: string)
    ensures IsBlank(NormalizeLine(line)) <==> NormalizeLine(line) == "\n"
  {
    var l := NormalizeLine(line);
    if |l| > 1 {
      assert !IsSpace(l[|l| - 2]);
    }
  }

  /** The input lines, each normalised. */
  function NormalizeAll(lines: seq<string>): (r: seq<string>)
    ensures |r| == |lines|
    ensures forall i :: 0 <= i < |lines| ==> r[i] == NormalizeLine(lines[i])
  {
    if lines == [] then [] else [NormalizeLine(lines[0])] + NormalizeAll(lines[1..])
  }

  /** What the loop of `clean_file` appends for the remaining normalised
      lines `ls`, given the current value of its blank-run counter. */
  function Squeeze(ls: seq<string>, blankCount: nat): seq<string>
    decreases |ls|
  {
    if ls == [] then []
    else if IsBlank(ls[0]) then
      (if blankCount + 1 <= 2 then [ls[0]] else []) + Squeeze(ls[1..], blankCount + 1)
    else [ls[0]] + Squeeze(ls[1..], 0)
  }

  /** The `new_lines` that `clean_file` builds from `lines`. */
  function Clean(lines: seq<string>): seq<string> {
    Squeeze(NormalizeAll(lines), 0)
  }

  /** The loop of `clean_file`. */
  method CleanLines(lines: seq<string>) returns (newLines: seq<string>)
    ensures newLines == Clean(lines)
  {
    newLines := [];
    var blankCount: nat := 0;
    ghost var n := NormalizeAll(lines);
    for i := 0 to |lines|
      invariant newLines + Squeeze(n[i..], blankCount) == Clean(lines)
    {
      assert n[i..][1..] == n[i + 1..];
      var l := NormalizeLine(lines[i]);
      assert n[i..][0] == l;
      var blank := IsBlank(l);
      if blank {
        blankCount := blankCount + 1;
        if blankCount <= 2 {
          newLines := newLines + [l];
        }
      } else {
        blankCount := 0;
        newLines := newLines + [l];
      }
    }
    assert n[|lines|..] == [];
  }

  // ---------------------------------------------------------------------
  // Properties of the cleaned line list.
  // ---------------------------------------------------------------------

  /** `x` is `y` with some elements left out, the rest in order. */
  predicate IsSubsequence(x: seq<string>, y: seq<string>)
    decreases |y|
  {
    if x == [] then true
    else if y == [] then false
    else (x[0] == y[0] && IsSubsequence(x[1..], y[1..])) || IsSubsequence(x, y[1..])
  }

  lemma {:induction false} SqueezeIsSubsequence(ls: seq<string>, blankCount: nat)
    ensures IsSubsequence(Squeeze(ls, blankCount), ls)
    decreases |ls|
  {
    if ls != [] {
      var next := if IsBlank(ls[0]) then blankCount + 1 else 0;
      SqueezeIsSubsequence(ls[1..], next);
      var rest := Squeeze(ls[1..], next);
      if !IsBlank(ls[0]) || blankCount + 1 <= 2 {
        assert Squeeze(ls, blankCount) == [ls[0]] + rest;
        assert ([ls[0]] + rest)[1..] == rest;
      } else {
        assert Squeeze(ls, blankCount) == [] + rest == rest;
      }
    }
  }

  /** Every output line is an input line with its trailing whitespace
      replaced by one newline, and the output keeps the input's order. */
  lemma CleanIsSubsequence(lines: seq<string>)
    ensures IsSubsequence(Clean(lines), NormalizeAll(lines))
  {
    SqueezeIsSubsequence(NormalizeAll(lines), 0);
  }

  lemma {:induction false} SqueezeNotLonger(ls: seq<string>, blankCount: nat)
    ensures |Squeeze(ls, blankCount)| <= |ls|
    decreases |ls|
  {
    if ls != [] {
      SqueezeNotLonger(ls[1..], if IsBlank(ls[0]) then blankCount + 1 else 0);
    }
  }

  /** The output has at most as many lines as the input. */
  lemma CleanShrinks(lines: seq<string>)
    ensures |Clean(lines)| <= |lines|
  {
    SqueezeNotLonger(NormalizeAll(lines), 0);
  }

  /** The non-blank lines of a list, in order. */
  function NonBlank(lines: seq<string>): seq<string>
    decreases |lines|
  {
    if lines == [] then []
    else if IsBlank(lines[0]) then NonBlank(lines[1..])
    else [lines[0]] + NonBlank(lines[1..])
  }

  lemma {:induction false} NonBlankCons(l: string, rest: seq<string>)
    ensures NonBlank([l] + rest) == if IsBlank(l) then NonBlank(rest) else [l] + NonBlank(rest)
  {
    assert ([l] + rest)[1..] == rest;
  }

  lemma {:induction false} SqueezeKeepsNonBlank(ls: seq<string>, blankCount: nat)
    ensures NonBlank(Squeeze(ls, blankCount)) == NonBlank(ls)
    decreases |ls|
  {
    if ls != [] {
      var l := ls[0];
      var next := if IsBlank(l) then blankCount + 1 else 0;
      SqueezeKeepsNonBlank(ls[1..], next);
      var rest := Squeeze(ls[1..], next);
      NonBlankCons(l, ls[1..]);
      assert ls == [l] + ls[1..];
      if IsBlank(l) {
        if blankCount + 1 <= 2 {
          NonBlankCons(l, rest);
        } else {
          assert Squeeze(ls, blankCount) == rest;
        }
      } else {
        NonBlankCons(l, rest);
      }
    }
  }

  /** Every non-blank input line survives, normalised, in its original order. */
  lemma NonBlankLinesPreserved(lines: seq<string>)
    ensures NonBlank(Clean(lines)) == NonBlank(NormalizeAll(lines))
  {
    SqueezeKeepsNonBlank(NormalizeAll(lines), 0);
  }

  /** Number of blank lines at the start of a list. */
  function LeadingBlanks(lines: seq<string>): nat
    decreases |lines|
  {
    if lines != [] && IsBlank(lines[0]) then 1 + LeadingBlanks(lines[1..]) else 0
  }

  predicate NoThreeBlankInARow(r: seq<string>) {
    forall i :: 0 <= i && i + 2 < |r| ==> !(IsBlank(r[i]) && IsBlank(r[i + 1]) && IsBlank(r[i + 2]))
  }

  /** Putting a line in front of a list creates no run of three blank lines
      unless the line is blank and the list starts with two. */
  lemma {:induction false} NoThreeCons(l: string, rest: seq<string>)
    requires NoThreeBlankInARow(rest)
    requires IsBlank(l) ==> LeadingBlanks(rest) < 2
    ensures NoThreeBlankInARow([l] + rest)
  {
    var r := [l] + rest;
    if |rest| >= 2 {
      assert rest[1..][0] == rest[1];
      assert IsBlank(rest[0]) && IsBlank(rest[1]) ==> LeadingBlanks(rest) >= 2;
    }
    forall i | 0 <= i && i + 2 < |r|
      ensures !(IsBlank(r[i]) && IsBlank(r[i + 1]) && IsBlank(r[i + 2]))
    {
      if i == 0 {
        assert r[1] == rest[0] && r[2] == rest[1];
      } else {
        assert r[i] == rest[i - 1] && r[i + 1] == rest[i] && r[i + 2] == rest[i + 1];
      }
    }
  }

  lemma {:induction false} LeadingBlanksCons(l: string, rest: seq<string>)
    ensures LeadingBlanks([l] + rest) == if IsBlank(l) then 1 + LeadingBlanks(rest) else 0
  {
    assert ([l] + rest)[1..] == rest;
  }

  lemma {:induction false} SqueezeBlankRuns(ls: seq<string>, blankCount: nat)
    ensures NoThreeBlankInARow(Squeeze(ls, blankCount))
    ensures LeadingBlanks(Squeeze(ls, blankCount)) + (if blankCount < 2 then blankCount else 2) <= 2
    decreases |ls|
  {
    if ls != [] {
      var l := ls[0];
      var next := if IsBlank(l) then blankCount + 1 else 0;
      SqueezeBlankRuns(ls[1..], next);
      var rest := Squeeze(ls[1..], next);
      if (IsBlank(l) && blankCount + 1 <= 2) || !IsBlank(l) {
        assert Squeeze(ls, blankCount) == [l] + rest;
        NoThreeCons(l, rest);
        LeadingBlanksCons(l, rest);
      } else {
        assert Squeeze(ls, blankCount) == [] + rest == rest;
      }
    }
  }

  /** The output never holds more than two blank lines in a row. */
  lemma AtMostTwoBlankLines(lines: seq<string>)
    ensures NoThreeBlankInARow(Clean(lines))
  {
    SqueezeBlankRuns(NormalizeAll(lines), 0);
  }

  /** How many lines of a run of `k` blank lines the loop keeps when its
      counter stands at `c` as the run begins. */
  function Kept(k: nat, c: nat): nat {
    if c >= 2 then 0 else if k < 2 - c then k else 2 - c
  }

  /** One turn of the loop: the first line is kept unless it is a blank
      line past the second, and the counter moves on. */
  lemma SqueezeFirst(ls: seq<string>, c: nat, rest: seq<string>)
    requires ls != [] && rest == ls[1..]
    ensures Squeeze(ls, c) ==
              (if !IsBlank(ls[0]) || c + 1 <= 2 then [ls[0]] else []) +
              Squeeze(rest, if IsBlank(ls[0]) then c + 1 else 0)
  {
  }

  /** The kept part of a blank run: its first line, if the counter allows
      it, then the kept part of the rest of the run. */
  lemma KeptStep(run: seq<string>, c: nat, t: seq<string>)
    requires run != [] && t == run[1..]
    ensures Kept(|run|, c) <= |run| && Kept(|t|, c + 1) <= |t|
    ensures run[..Kept(|run|, c)] == (if c + 1 <= 2 then [run[0]] else []) + t[..Kept(|t|, c + 1)]
  {
    if c + 1 <= 2 {
      assert run[..Kept(|run|, c)] == [run[0]] + t[..Kept(|t|, c + 1)];
    }
  }

  /** A run of blank lines: the loop keeps its first lines while the
      counter stays at two or below, and goes on with the counter raised by
      the run's length. */
  lemma {:induction false} SqueezeBlankRun(run: seq<string>, rest: seq<string>, c: nat)
    requires forall i :: 0 <= i < |run| ==> IsBlank(run[i])
    ensures Kept(|run|, c) <= |run|
    ensures Squeeze(run + rest, c) == run[..Kept(|run|, c)] + Squeeze(rest, c + |run|)
    decreases |run|
  {
    if run == [] {
      assert run + rest == rest;
    } else {
      var t := run[1..];
      TailOfConcat(run, rest);
      SqueezeFirst(run + rest, c, t + rest);
      assert forall i :: 0 <= i < |t| ==> t[i] == run[i + 1];
      SqueezeBlankRun(t, rest, c + 1);
      KeptStep(run, c, t);
    }
  }

  /** A list that starts with a non-blank line, or is empty, does not
      depend on the counter. */
  lemma SqueezeFresh(ls: seq<string>, c: nat)
    requires ls == [] || !IsBlank(ls[0])
    ensures Squeeze(ls, c) == Squeeze(ls, 0)
  {
  }

  /** After a non-blank line the counter is back at zero. */
  lemma {:induction false} SqueezeAfterNonBlank(a: seq<string>, rest: seq<string>, c: nat)
    requires a != [] && !IsBlank(a[|a| - 1])
    ensures Squeeze(a + rest, c) == Squeeze(a, c) + Squeeze(rest, 0)
    decreases |a|
  {
    var l, t := a[0], a[1..];
    var next := if IsBlank(l) then c + 1 else 0;
    var h := if !IsBlank(l) || c + 1 <= 2 then [l] else [];
    TailOfConcat(a, rest);
    SqueezeFirst(a + rest, c, t + rest);
    SqueezeFirst(a, c, t);
    if t == [] {
      SqueezeEmptyFront(rest);
    } else {
      assert t[|t| - 1] == a[|a| - 1];
      SqueezeAfterNonBlank(t, rest, next);
    }
    AppendRegroup(h, Squeeze(t, next), Squeeze(rest, 0));
  }

  lemma SqueezeEmptyFront(rest: seq<string>)
    ensures Squeeze([] + rest, 0) == Squeeze([], 0) + Squeeze(rest, 0)
  {
    assert [] + rest == rest;
  }

  /** A line is blank exactly when its normalised form is. */
  lemma {:induction false} BlankOfNormalized(l: string)
    ensures IsBlank(NormalizeLine(l)) <==> IsBlank(l)
  {
    var r := RStrip(l);
    RStripAllSpace(l);
    assert NormalizeLine(l) == r + "\n";
    if r != [] {
      assert NormalizeLine(l)[|r| - 1] == r[|r| - 1];
    }
  }

  lemma NormalizeAllConcat(x: seq<string>, y: seq<string>)
    ensures NormalizeAll(x + y) == NormalizeAll(x) + NormalizeAll(y)
  {
  }

  /** The loop on normalised lines: a blank run between non-blank lines
      keeps its first two lines, and the lines around it are cleaned as if
      it were not there. */
  lemma {:induction false} SqueezeRunBetween(na: seq<string>, nb: seq<string>, nd: seq<string>)
    requires na == [] || !IsBlank(na[|na| - 1])
    requires forall i :: 0 <= i < |nb| ==> IsBlank(nb[i])
    requires nd == [] || !IsBlank(nd[0])
    ensures Kept(|nb|, 0) <= |nb|
    ensures Squeeze(na + nb + nd, 0) == Squeeze(na, 0) + nb[..Kept(|nb|, 0)] + Squeeze(nd, 0)
  {
    SqueezeBlankRun(nb, nd, 0);
    SqueezeFresh(nd, |nb|);
    if na != [] {
      SqueezeAfterNonBlank(na, nb + nd, 0);
      assert na + nb + nd == na + (nb + nd);
    } else {
      assert na + nb + nd == nb + nd;
    }
  }

  /** A run of blank input lines between non-blank ones, or at either end
      of the file, comes out in place as that many newlines when it has one
      or two lines, and as exactly two when it is longer. */
  lemma {:induction false} BlankRunsKeepTwo(a: seq<string>, b: seq<string>, d: seq<string>)
    requires a == [] || !IsBlank(a[|a| - 1])
    requires forall i :: 0 <= i < |b| ==> IsBlank(b[i])
    requires d == [] || !IsBlank(d[0])
    ensures Clean(a + b + d) == Clean(a) + seq(if |b| < 2 then |b| else 2, _ => "\n") + Clean(d)
  {
    var na, nb, nd := NormalizeAll(a), NormalizeAll(b), NormalizeAll(d);
    NormalizeAllConcat(a + b, d);
    NormalizeAllConcat(a, b);
    forall i | 0 <= i < |b| ensures IsBlank(nb[i]) && nb[i] == "\n" {
      BlankOfNormalized(b[i]);
      BlankNormalized(b[i]);
    }
    if d != [] {
      BlankOfNormalized(d[0]);
    }
    if a != [] {
      BlankOfNormalized(a[|a| - 1]);
    }
    SqueezeRunBetween(na, nb, nd);
    assert nb[..Kept(|b|, 0)] == seq(if |b| < 2 then |b| else 2, _ => "\n");
  }

  /** The counter only matters up to two. */
  lemma {:induction false} SqueezeSaturates(ls: seq<string>, c: nat, d: nat)
    requires c >= 2 && d >= 2
    ensures Squeeze(ls, c) == Squeeze(ls, d)
    decreases |ls|
  {
    if ls != [] {
      if IsBlank(ls[0]) {
        SqueezeSaturates(ls[1..], c + 1, d + 1);
      }
    }
  }

  lemma {:induction false} SqueezeIdempotent(ls: seq<string>, blankCount: nat)
    ensures Squeeze(Squeeze(ls, blankCount), blankCount) == Squeeze(ls, blankCount)
    decreases |ls|
  {
    if ls != [] {
      var l := ls[0];
      if IsBlank(l) {
        SqueezeIdempotent(ls[1..], blankCount + 1);
        var rest := Squeeze(ls[1..], blankCount + 1);
        if blankCount + 1 <= 2 {
          assert Squeeze(ls, blankCount) == [l] + rest;
          assert ([l] + rest)[0] == l && ([l] + rest)[1..] == rest;
        } else {
          assert Squeeze(ls, blankCount) == [] + rest == rest;
          SqueezeSaturates(rest, blankCount, blankCount + 1);
        }
      } else {
        SqueezeIdempotent(ls[1..], 0);
        var rest := Squeeze(ls[1..], 0);
        assert Squeeze(ls, blankCount) == [l] + rest;
        assert ([l] + rest)[0] == l && ([l] + rest)[1..] == rest;
      }
    }
  }

  lemma {:induction false} SubsequenceMember(x: seq<string>, y: seq<string>, i: nat)
    requires IsSubsequence(x, y) && i < |x|
    ensures exists j :: 0 <= j < |y| && x[i] == y[j]
    decreases |y|
  {
    if x[0] == y[0] && IsSubsequence(x[1..], y[1..]) {
      if i > 0 {
        SubsequenceMember(x[1..], y[1..], i - 1);
        var j :| 0 <= j < |y[1..]| && x[1..][i - 1] == y[1..][j];
        assert x[i] == y[j + 1];
      } else {
        assert x[0] == y[0];
      }
    } else {
      SubsequenceMember(x, y[1..], i);
      var j :| 0 <= j < |y[1..]| && x[i] == y[1..][j];
      assert x[i] == y[j + 1];
    }
  }

  /** Every cleaned line is some input line, normalised. */
  lemma CleanedLineOrigin(lines: seq<string>, i: nat)
    requires i < |Clean(lines)|
    ensures exists j :: 0 <= j < |lines| && Clean(lines)[i] == NormalizeLine(lines[j])
  {
    CleanIsSubsequence(lines);
    SubsequenceMember(Clean(lines), NormalizeAll(lines), i);
  }

  lemma {:induction false} NormalizeAllFixed(ls: seq<string>)
    requires forall i :: 0 <= i < |ls| ==> NormalizeLine(ls[i]) == ls[i]
    ensures NormalizeAll(ls) == ls
  {
  }

  /** Cleaning the cleaned lines again yields the same list. */
  lemma CleanIdempotent(lines: seq<string>)
    ensures Clean(Clean(lines)) == Clean(lines)
  {
    var r := Clean(lines);
    forall i | 0 <= i < |r|
      ensures NormalizeLine(r[i]) == r[i]
    {
      CleanedLineOrigin(lines, i);
      var j :| 0 <= j < |lines| && r[i] == NormalizeLine(lines[j]);
      NormalizeLineIdempotent(lines[j]);
    }
    NormalizeAllFixed(r);
    SqueezeIdempotent(NormalizeAll(lines), 0);
  }

  // ---------------------------------------------------------------------
  // The file level: `readlines`, the comparison, `writelines`.
  // ---------------------------------------------------------------------

  /** `f.readlines()`: the text cut after every newline. The text is the
      one a text-mode read returns, with `\r\n` and `\r` already read as
      `\n`. */
  function ReadLines(s: string): (r: seq<string>)
    ensures forall i :: 0 <= i < |r| ==> |r[i]| > 0
    decreases |s|
  {
    if s == [] then []
    else match IndexOf(s, '\n')
      case None => [s]
      case Some(i) => [s[..i + 1]] + ReadLines(s[i + 1..])
  }

  /** `''.join(lines)`, what `writelines` puts in the file. */
  function Concat(lines: seq<string>): string
    decreases |lines|
  {
    if lines == [] then [] else lines[0] + Concat(lines[1..])
  }

  /** A line as `readlines` produces it: newline-free but for a final newline. */
  predicate IsLine(l: string) {
    |l| > 0 && '\n' !in l[..|l| - 1]
  }

  /** Joining what `readlines` returns gives the text back. */
  lemma {:induction false} ConcatReadLines(s: string)
    ensures Concat(ReadLines(s)) == s
    ensures ReadLinesShape(s)
    decreases |s|
  {
    if s != [] {
      match IndexOf(s, '\n')
      case None =>
        assert ReadLines(s) == [s];
      case Some(i) =>
        ConcatReadLines(s[i + 1..]);
        assert Concat(ReadLines(s)) == s[..i + 1] + Concat(ReadLines(s[i + 1..]));
        assert s == s[..i + 1] + s[i + 1..];
    }
    ReadLinesAreLines(s);
  }

  /** Every line `readlines` returns is a line, and all but the last end
      with a newline. */
  predicate ReadLinesShape(s: string) {
    var r := ReadLines(s);
    && (forall i :: 0 <= i < |r| ==> IsLine(r[i]))
    && (forall i :: 0 <= i < |r| - 1 ==> r[i][|r[i]| - 1] == '\n')
  }

  lemma {:induction false} ReadLinesAreLines(s: string)
    ensures ReadLinesShape(s)
    decreases |s|
  {
    if s != [] {
      match IndexOf(s, '\n')
      case None =>
        assert ReadLines(s) == [s];
        assert '\n' !in s[..|s| - 1];
      case Some(i) =>
        ReadLinesAreLines(s[i + 1..]);
        var r := ReadLines(s);
        assert r == [s[..i + 1]] + ReadLines(s[i + 1..]);
        assert s[..i + 1][..i] == s[..i];
        assert IsLine(r[0]);
    }
  }

  /** The first newline of a text that starts with a whole line ends that line. */
  lemma FirstNewline(l: string, rest: string)
    requires IsLine(l) && l[|l| - 1] == '\n'
    ensures IndexOf(l + rest, '\n') == Some(|l| - 1)
  {
    var s := l + rest;
    var k := |l| - 1;
    assert s[k] == '\n';
    forall j | 0 <= j < k
      ensures s[j] != '\n'
    {
      assert s[j] == l[..k][j];
    }
  }

  /** Text made of newline-terminated lines reads back as those lines. */
  lemma {:induction false} ReadLinesConcat(lines: seq<string>)
    requires forall i :: 0 <= i < |lines| ==> IsLine(lines[i]) && lines[i][|lines[i]| - 1] == '\n'
    ensures ReadLines(Concat(lines)) == lines
    decreases |lines|
  {
    if lines != [] {
      var l := lines[0];
      var rest := Concat(lines[1..]);
      ReadLinesConcat(lines[1..]);
      assert Concat(lines) == l + rest;
      FirstNewline(l, rest);
      assert (l + rest)[..|l|] == l && (l + rest)[|l|..] == rest;
    }
  }

  /** Cleaning turns lines into newline-terminated lines. */
  lemma CleanedAreLines(lines: seq<string>)
    requires forall i :: 0 <= i < |lines| ==> IsLine(lines[i])
    ensures forall i :: 0 <= i < |Clean(lines)| ==> IsLine(Clean(lines)[i]) && Clean(lines)[i][|Clean(lines)[i]| - 1] == '\n'
  {
    var r := Clean(lines);
    forall i | 0 <= i < |r|
      ensures IsLine(r[i]) && r[i][|r[i]| - 1] == '\n'
    {
      CleanedLineOrigin(lines, i);
      var j :| 0 <= j < |lines| && r[i] == NormalizeLine(lines[j]);
      NormalizedIsLine(lines[j]);
    }
  }

  lemma NormalizedIsLine(x: string)
    requires IsLine(x)
    ensures IsLine(NormalizeLine(x))
  {
    var l := NormalizeLine(x);
    var k := |l| - 1;
    assert l[..k] == x[..k];
    if k == |x| {
      assert !IsSpace(x[|x| - 1]);
      assert '\n' !in x;
    } else {
      assert x[..k] == x[..|x| - 1][..k];
    }
  }

  /** The text `clean_file` leaves in a file holding `s`. */
  function CleanText(s: string): string {
    Concat(Clean(ReadLines(s)))
  }

  /** `clean_file` compares line lists; for the text this is the same as
      comparing the text before and after. */
  lemma WrittenIffTextChanged(s: string)
    ensures Clean(ReadLines(s)) != ReadLines(s) <==> CleanText(s) != s
  {
    var lines := ReadLines(s);
    ConcatReadLines(s);
    CleanedAreLines(lines);
    ReadLinesConcat(Clean(lines));
  }

  /** A second run over a cleaned file finds nothing to change, so it does
      not write the file again. */
  lemma CleanTextIdempotent(s: string)
    ensures Clean(ReadLines(CleanText(s))) == ReadLines(CleanText(s))
    ensures CleanText(CleanText(s)) == CleanText(s)
  {
    var lines := ReadLines(s);
    ConcatReadLines(s);
    CleanedAreLines(lines);
    ReadLinesConcat(Clean(lines));
    CleanIdempotent(lines);
  }

  /** `fn.lower().endswith(('.html', '.css', '.js'))`. */
  predicate IsTextAsset(p: Path) {
    var n := Lower(Name(p));
    EndsWith(n, ".html") || EndsWith(n, ".css") || EndsWith(n, ".js")
  }

  /** The module-level walk: every .html/.css/.js file under the root is
      cleaned; a file is rewritten only when its lines changed. */
  method CleanTree(tree: Tree) returns (result: Tree, written: set<Path>)
    ensures result.Keys == tree.Keys
    ensures forall p :: p in tree && IsTextAsset(p) ==> result[p] == CleanText(tree[p])
    ensures forall p :: p in tree && !IsTextAsset(p) ==> result[p] == tree[p]
    ensures forall p :: p in written <==> p in tree && IsTextAsset(p) && Clean(ReadLines(tree[p])) != ReadLines(tree[p])
  {
    var selected := set p | p in tree && IsTextAsset(p);
    result, written := RewriteFiles(tree, selected, CleanText);
    forall p | p in tree {
      WrittenIffTextChanged(tree[p]);
    }
  }
}
