# Site maintenance scripts, modelled in Dafny

The site is a static website kept in shape by ten one-shot Python scripts
under `scripts/`. Each of them walks the site, applies a small text, set or
markup transformation to some of its files, and writes a file back only when
its text changed. This project models what each script does to the site and
proves what it promises:

- `clean_whitespace.py` (module `WhitespaceCleaner`) strips trailing white
  space from every line and keeps at most two blank lines in a row.
- `find_unused_images_safe.py` (`FindUnusedImages`) reports the images of
  `img/` that no page, stylesheet or script refers to.
  `delete_unused_images_safe.py` (`DeleteUnusedImages`) deletes them after
  a confirmation. Both compare names through `normalize_filename`, which
  lives in `ImageNames`.
- `clean_unused_images.py` (`CleanUnusedImages`) deletes unreferenced images
  without asking. Its regular expression is modelled as written and as
  intended.
- `convert_to_webp.py` (`WebpConversion`) converts JPEG, PNG and GIF images
  to WebP, retargets the references and deletes the originals.
- `rename_files.py` (`RenameFiles`) rewrites references to renamed pages and
  directories, then renames them.
- `update_html_for_cls_and_links.py` (`LinkAndSizeUpdate`) drops `.html`
  from internal links and gives images their measured size.
- `fix_body_and_styles.py` (`BodyAndStyles`) repairs the `<body>` tags,
  appends four CSS classes and replaces four inline styles by them.
- `inject_head_partial.py` (`HeadPartial`) inserts the shared head include
  and removes the links it supersedes.
- `enhance_html.py` (`EnhanceHtml`) applies the SEO, accessibility and
  performance rules to every element of a page and wraps the body in
  `<main>`.

Two shared modules sit under them:

- `Strings` models the Python string builtins the scripts use, over ASCII:
  `lower`, `strip`, `in`, `find`, `replace`, `sorted` and `str(n)`.
- `Paths` holds the `pathlib` name functions and the file tree.

A file tree is a `map` from a path relative to the site root to the file's
text. Where a script updates state step by step, the model is a method
whose loop invariants tie it to a reference function:

- the blank-line counter loop;
- the deletion loops with their counters;
- the conversion loop;
- the in-place attribute edits on a parsed page, as classes `Soup` and
  `Page`.

The properties about that function are proved as lemmas.

Whatever the scripts obtain from outside Python's string and set operations
is a parameter:

- parsing and serialising HTML;
- image dimensions;
- the outcome of an image conversion or of an unlink;
- the user's answer;
- the values captured by the reporting scripts' regular expressions;
- which files could be read.

## Model

| member | source | states |
|---|---|---|
| WhitespaceCleaner.NormalizeLineSpec | scripts/clean_whitespace.py:13 | `line.rstrip() + '\n'`: the line without its trailing whitespace, ending in one newline, and the kept part is a prefix of the input followed only by whitespace |
| WhitespaceCleaner.NormalizeLineIdempotent | scripts/clean_whitespace.py:13 | normalising a normalised line changes nothing |
| WhitespaceCleaner.BlankNormalized | scripts/clean_whitespace.py:13-14 | a normalised line is blank exactly when it is the bare newline |
| WhitespaceCleaner.NormalizeAll | scripts/clean_whitespace.py:11-13 | one normalised line per input line, in order |
| WhitespaceCleaner.CleanLines | scripts/clean_whitespace.py:9-20 | the loop with `blank_count` computes the cleaned line list of the reference definition |
| WhitespaceCleaner.CleanIsSubsequence | scripts/clean_whitespace.py:14-20 | the output is the normalised input with some lines dropped, order kept |
| WhitespaceCleaner.CleanShrinks | scripts/clean_whitespace.py:14-20 | the output has no more lines than the input |
| WhitespaceCleaner.NonBlankLinesPreserved | scripts/clean_whitespace.py:18-20 | every non-blank line survives, in order: only blank lines are dropped |
| WhitespaceCleaner.AtMostTwoBlankLines | scripts/clean_whitespace.py:14-17 | the output never holds three blank lines in a row |
| WhitespaceCleaner.SqueezeBlankRun | scripts/clean_whitespace.py:14-20 | a run of blank lines is kept while the counter stays at most two and dropped after, and the counter grows by the run's length |
| WhitespaceCleaner.SqueezeRunBetween | scripts/clean_whitespace.py:14-20 | a blank run between non-blank lines, or at either end, is squeezed on its own: the lines around it are untouched by it |
| WhitespaceCleaner.BlankRunsKeepTwo | scripts/clean_whitespace.py:11-20 | a maximal run of k blank input lines comes out in place as min(k, 2) newlines, and the text before and after it is cleaned as if on its own |
| WhitespaceCleaner.SqueezeSaturates | scripts/clean_whitespace.py:15-16 | once two blank lines have been seen, a larger count behaves the same |
| WhitespaceCleaner.SqueezeIdempotent | scripts/clean_whitespace.py:14-20 | squeezing blank runs twice is squeezing once |
| WhitespaceCleaner.CleanedLineOrigin | scripts/clean_whitespace.py:13-20 | every output line is the normalisation of some input line |
| WhitespaceCleaner.CleanIdempotent | scripts/clean_whitespace.py:9-21 | cleaning a cleaned line list changes nothing, so a second run writes no file |
| WhitespaceCleaner.ReadLines | scripts/clean_whitespace.py:8 | `readlines()`: no line is empty |
| WhitespaceCleaner.ConcatReadLines | scripts/clean_whitespace.py:8 | the lines joined give back the text, and all but the last end in a newline |
| WhitespaceCleaner.ReadLinesConcat | scripts/clean_whitespace.py:8-23 | text written as newline-terminated lines reads back as those lines |
| WhitespaceCleaner.CleanedAreLines | scripts/clean_whitespace.py:13-20 | every cleaned line ends in its only newline |
| WhitespaceCleaner.WrittenIffTextChanged | scripts/clean_whitespace.py:21-23 | the file is written exactly when its text would change |
| WhitespaceCleaner.CleanTextIdempotent | scripts/clean_whitespace.py:6-23 | a cleaned file is left alone by a second run, and cleaning its text again changes nothing |
| WhitespaceCleaner.CleanTree | scripts/clean_whitespace.py:27-30 | `.html`, `.css` and `.js` files (any letter case) get the cleaned text and others are untouched; the written set is exactly the files whose lines change |
| ImageNames.Unquote | scripts/find_unused_images_safe.py:21 | `urllib.parse.unquote` never lengthens a name and leaves a name without `%` unchanged |
| ImageNames.UnquoteEscapePercent | scripts/find_unused_images_safe.py:21 | decoding undoes the escaping of `%` as `%25` (section 2.4 of RFC 3986) |
| ImageNames.Collapse | scripts/find_unused_images_safe.py:27 | `re.sub(r'\s+', ' ', …)`: the result has only single spaces as whitespace, and is empty, starts or ends with whitespace exactly when the input is or does |
| ImageNames.CollapseKeepsVisible | scripts/find_unused_images_safe.py:27 | collapsing keeps every non-whitespace character, in order |
| ImageNames.CollapseOfCollapsed | scripts/find_unused_images_safe.py:27 | text that is already collapsed is unchanged |
| ImageNames.CollapseNoUpper | scripts/find_unused_images_safe.py:25-27 | collapsing a lower-cased text keeps it free of upper-case letters |
| ImageNames.CanonIsCanonical | scripts/find_unused_images_safe.py:25-27 | lower-casing, stripping and collapsing give a canonical key: no upper case, no outer whitespace, single spaces |
| ImageNames.NormalizeFilenameIsCanonical | scripts/find_unused_images_safe.py:17-28 | every normalised name is canonical |
| ImageNames.CanonOfCanonical | scripts/find_unused_images_safe.py:25-27 | a canonical key is unchanged by those three steps |
| ImageNames.CanonIdempotent | scripts/find_unused_images_safe.py:25-27 | the three steps after decoding are idempotent |
| ImageNames.BeforeFirst | scripts/find_unused_images_safe.py:57 | `s.split(c)[0]`: the longest prefix without `c`, followed in `s` by `c` when it is shorter |
| ImageNames.CleanReference | scripts/find_unused_images_safe.py:57 | the cleaned reference has no `?` and no `#`, and is just stripped when it had neither |
| ImageNames.ReferenceKey | scripts/find_unused_images_safe.py:54-59 | a captured reference gives a key exactly when it is non-empty and normalises to a non-empty name, and that key is canonical |
| ImageNames.SettledIsCanonical | scripts/find_unused_images_safe.py:25-27 | a name with no upper case and no whitespace is its own key |
| ImageNames.UnquotePercent25 | scripts/find_unused_images_safe.py:21 | `%2541…` decodes to `%41…` |
| ImageNames.UnquotePercent41 | scripts/find_unused_images_safe.py:21 | `%41…` decodes to `A…` |
| ImageNames.DecodedTwice | scripts/find_unused_images_safe.py:17-28 | the name `%2541…` normalises to `%41…`, which normalises again to `a…` |
| ImageNames.NormalizeFilenameNotIdempotent | scripts/find_unused_images_safe.py:17-28 | `normalize_filename` is not idempotent: `%2541` gives `%41`, which gives `a` |
| ImageNames.EscapedNameMismatch | scripts/find_unused_images_safe.py:58-75 | a file named `%41…`, referenced correctly as `img/%2541…`, gets the key `%41…` from the reference but `a…` from the file listing |
| ImageNames.EscapePercent41 | scripts/find_unused_images_safe.py:58-75 | the correct URL spelling of the file name `%41…` is `%2541…` |
| ImageNames.IntendedKeysMatch | scripts/find_unused_images_safe.py:58-75 | decoding references once and never decoding file names gives every file the key of its correctly escaped reference, and agrees with the script for names without `%` |
| FindUnusedImages.CaptureKeys | scripts/find_unused_images_safe.py:54-59 | one key per captured group, in order, each the normalised cleaned reference or none |
| FindUnusedImages.FoundIff | scripts/find_unused_images_safe.py:59-60 | a key is recorded for a file exactly when one of its captures produced it |
| FindUnusedImages.KeysInIff | scripts/find_unused_images_safe.py:52-60 | the keys of a file's captures are exactly the non-empty normalised references, and each is canonical |
| FindUnusedImages.CollectReferences | scripts/find_unused_images_safe.py:30-64 | a file is listed under a key exactly when it is a searched file (`.html`, `.css`, `.js`, any case) that refers to it; no list is empty |
| FindUnusedImages.ListsAppend | scripts/find_unused_images_safe.py:60 | `references[n].append(p)` adds exactly the pair (n, p) to the listing |
| FindUnusedImages.RecordReferences | scripts/find_unused_images_safe.py:52-60 | the matches of one file add that file under exactly its found keys |
| FindUnusedImages.GetAllImages | scripts/find_unused_images_safe.py:66-78 | no `img` directory gives no images; otherwise every image file has its normalised name as a key, and every key maps back to an image file with that name; the keys are exactly the normalised names of the image files |
| FindUnusedImages.InventoryKeys | scripts/find_unused_images_safe.py:66-78 | a dictionary holding every image file's key, each mapped back to an image file with that key, has exactly the normalised names of the image files as keys |
| FindUnusedImages.KeyEach | scripts/find_unused_images_safe.py:72-76 | the dictionary loop: every file's key is present and maps to a file with that key (a later file with the same key overwrites) |
| FindUnusedImages.Partition | scripts/find_unused_images_safe.py:88-95 | every image lands in exactly one of `used` (with its referring files) and `unused`, according to whether its key was referenced; `used` has one entry per referenced key and `unused` one per unreferenced key, and `unused` has no repeated name when no two keys share a name |
| FindUnusedImages.UsedStep | scripts/find_unused_images_safe.py:91-92 | moving a referenced key to `used` keeps the loop's account of handled keys |
| FindUnusedImages.UnusedStep | scripts/find_unused_images_safe.py:93-94 | moving an unreferenced key to `unused` keeps the loop's account of handled keys |
| FindUnusedImages.PartitionDone | scripts/find_unused_images_safe.py:88-95 | once every key is handled, each image is in the list its key calls for, each entry comes from such a key, and an injective inventory gives no repeated unused name |
| FindUnusedImages.Analyse | scripts/find_unused_images_safe.py:80-123 | the report's total (`len(all_images)`) is the number of distinct normalised image names, `len(used)` the number of those some searched file refers to, and `len(unused)` the number of the others; every listed name is an image file that nothing refers to; every unreferenced key is represented by exactly one listed name |
| FindUnusedImages.UnusedKeysDistinct | scripts/find_unused_images_safe.py:70-94 | the unused names of an inventory keyed by normalised name have pairwise different keys |
| DeleteUnusedImages.CollectReferenceSet | scripts/delete_unused_images_safe.py:24-50 | the reference set is exactly the keys some searched file refers to |
| DeleteUnusedImages.GatherStep | scripts/delete_unused_images_safe.py:30-46 | scanning one more searched file keeps the reference set equal to the keys of the files scanned so far |
| DeleteUnusedImages.AddKeys | scripts/delete_unused_images_safe.py:39-46 | one file's matches add exactly its found keys |
| DeleteUnusedImages.SelectUnused | scripts/delete_unused_images_safe.py:62-68 | an image file is selected exactly when its normalised name is not referenced |
| DeleteUnusedImages.Unkeyed | scripts/delete_unused_images_safe.py:62-68 | the selection loop with the key function as a parameter |
| DeleteUnusedImages.ConfirmedIff | scripts/delete_unused_images_safe.py:81-83 | the answer confirms exactly when, stripped, it is `s` or `S` |
| DeleteUnusedImages.DeleteEach | scripts/delete_unused_images_safe.py:88-98 | the targets are removed except those whose unlink fails; `deleted` and `errors` count the two groups and add up to the number of targets |
| DeleteUnusedImages.Run | scripts/delete_unused_images_safe.py:52-102 | no `img` directory, nothing unused or no confirmation leave every image; on confirmation exactly the unreferenced images are removed, except failed unlinks, with matching counts |
| DeleteUnusedImages.ReferencedSurvives | scripts/delete_unused_images_safe.py:62-98 | an image whose key some searched file refers to is never deleted |
| CleanUnusedImages.Mark | scripts/clean_unused_images.py:16 | the literal text the pattern requires before a capture: `img\/` as written (the raw string doubles the backslash), `img/` in the intended reading |
| CleanUnusedImages.CaptureAt | scripts/clean_unused_images.py:16 | a capture found at a position is non-empty and ends inside the text, after that position |
| CleanUnusedImages.MatchAt | scripts/clean_unused_images.py:16-21 | a match starting at a position captures non-empty text and ends after that position |
| CleanUnusedImages.Scan | scripts/clean_unused_images.py:21-23 | `finditer` with `m.group(1) or m.group(2)`: no candidate is empty |
| CleanUnusedImages.MatchNeedsBackslash | scripts/clean_unused_images.py:16 | as written, nothing matches at any position of a text without a backslash |
| CleanUnusedImages.AsWrittenNeedsBackslash | scripts/clean_unused_images.py:16-24 | as written, a text without a backslash yields no candidate at all |
| CleanUnusedImages.ScanSkips | scripts/clean_unused_images.py:21 | positions where no match starts contribute nothing |
| CleanUnusedImages.IntendedFindsQuoted | scripts/clean_unused_images.py:16-24 | in the intended reading, a quoted `"img/<name>"` yields `<name>` as a candidate |
| CleanUnusedImages.QuotedMatch | scripts/clean_unused_images.py:16 | in the intended reading, a quote followed by `img/`, a name and a closing quote or parenthesis matches and captures the name |
| CleanUnusedImages.CollectReferences | scripts/clean_unused_images.py:14-25 | the set holds exactly the candidates found in files with a searched suffix |
| CleanUnusedImages.CollectStep | scripts/clean_unused_images.py:17-24 | scanning one more searched file keeps the collected set equal to the candidates of the files scanned so far |
| CleanUnusedImages.AddAll | scripts/clean_unused_images.py:21-24 | the non-empty candidates of one file are added |
| CleanUnusedImages.ListImages | scripts/clean_unused_images.py:28-34 | the image listing is every file under `img`, as a relative path |
| CleanUnusedImages.DeleteUnused | scripts/clean_unused_images.py:37-44 | the listed files are removed except those whose unlink fails |
| CleanUnusedImages.Run | scripts/clean_unused_images.py:47-61 | `unused` is exactly the sorted images no candidate names; every one of them is removed unless its unlink fails; the printed count is the length of the list, failures included |
| CleanUnusedImages.AsWrittenDeletesEverything | scripts/clean_unused_images.py:16-60 | as written, when no searched file holds a backslash nothing is referenced, so every image is deleted |
| CleanUnusedImages.IntendedKeepsQuoted | scripts/clean_unused_images.py:16-60 | in the intended reading an image named in quotes in a searched file is referenced, so it is kept |
| WebpConversion.WebpNameParts | scripts/convert_to_webp.py:39-55 | `with_suffix(".webp")` keeps the stem and replaces only the last suffix, so the new name's suffix is `.webp` |
| WebpConversion.WebpNotAttempted | scripts/convert_to_webp.py:30-38 | a produced WebP file is never itself a conversion candidate |
| WebpConversion.ImageExtensionShape | scripts/convert_to_webp.py:14-30 | a name whose lower-cased suffix is an image extension ends in a `.` followed by letters only |
| WebpConversion.NoCrossWebp | scripts/convert_to_webp.py:99-100 | an occurrence of `img/<new>` can never overlap an occurrence of `img/<old>`, so one replacement cannot create or break another |
| WebpConversion.RetargetRemovesOld | scripts/convert_to_webp.py:86-104 | after the substitutions for one image no reference `img/<old>` is left |
| WebpConversion.RetargetIdempotent | scripts/convert_to_webp.py:86-104 | running the substitutions for one image twice is running them once |
| WebpConversion.RetargetChanges | scripts/convert_to_webp.py:99-107 | the substitutions change the text exactly when it mentions `img/<old>` |
| WebpConversion.RewrittenUntouched | scripts/convert_to_webp.py:86-107 | a text that mentions no converted image is left unchanged |
| WebpConversion.ConvertImages | scripts/convert_to_webp.py:26-66 | the converted and failed lists are exactly the candidates that succeed or fail, in name order; skipped formats are never tried; the directory gains one WebP file per converted image |
| WebpConversion.ConvertListed | scripts/convert_to_webp.py:26-66 | the step-1 loop over the sorted listing, with the suffix and renaming functions as parameters, meets the same contract |
| WebpConversion.UpdateFileReferences | scripts/convert_to_webp.py:77-115 | the call succeeds exactly when the file is readable and no converted image's WebP name makes a template invalid; then the text is the four substitutions applied for each image in turn, and `changed` holds exactly when it differs; otherwise `(False, False)` and nothing is written |
| WebpConversion.ReadAfterGroup | scripts/convert_to_webp.py:90-100 | how `re` reads the WebP name pasted after `\2` or `\1`: literally when it does not start with a digit, as an octal escape when it starts with two octal digits, and as an invalid group reference otherwise |
| WebpConversion.WrappedMatch | scripts/convert_to_webp.py:90-97 | a match of one of the first three patterns at a position: its opening group, `img/` path group and the old name, then its closing group, all inside the text |
| WebpConversion.OctalMiddle | scripts/convert_to_webp.py:91-97 | the octal reading of a WebP name in the first three templates is one character of code 128 or more followed by the name from its third character on |
| WebpConversion.AppliedIsRewritten | scripts/convert_to_webp.py:86-104 | when every WebP name is read literally, the four substitutions for each image amount to retargeting `img/<old>` to `img/<new>` |
| WebpConversion.AppliedStep | scripts/convert_to_webp.py:86-104 | one more turn of the conversion loop applies that image's substitutions to the text so far, and keeps the templates valid if its own is |
| WebpConversion.SubWrappedUnopened | scripts/convert_to_webp.py:90-104 | a wrapped pattern that cannot open anywhere leaves the text as it is |
| WebpConversion.QuotedWholeMatch | scripts/convert_to_webp.py:91-92 | the quoted pattern replaces the whole of `"img/<old>"` by the quote, the template's middle and the quote |
| WebpConversion.OneJpgBadTemplate | scripts/convert_to_webp.py:91-92 | `1.jpg` becomes `1.webp`, which the template reads as a reference to group 21 |
| WebpConversion.DigitNameKeepsReference | scripts/convert_to_webp.py:86-115 | as written, with `1.jpg` converted, a page that mentions `img/1.jpg` keeps that reference, while the intended retargeting removes it |
| WebpConversion.OctalNameLosesDirectory | scripts/convert_to_webp.py:86-104 | as written, for a WebP name starting with two octal digits, a quoted reference `"img/<old>"` becomes the quote, one character for the two digits, the rest of the name and the quote, with no `img/` left |
| WebpConversion.UpdateAll | scripts/convert_to_webp.py:118-133 | readable `.html`, `.css` and `.php` files outside `.venv` and `node_modules` get the substituted text (their own text when a template is invalid), every other file is untouched, and the updated set is exactly the files that changed |
| WebpConversion.DeleteOriginals | scripts/convert_to_webp.py:139-149 | the converted originals are gone except those whose unlink fails, and the count is the number removed |
| WebpConversion.Run | scripts/convert_to_webp.py:21-160 | after the whole script an image file is gone exactly when it was a candidate, converted and unlinked; every converted image has its WebP file; `img/` holds only its own files and the WebP files of successful conversions; every readable referrer outside the skipped directories holds the script's substitutions for the converted images in name order, every other file keeps its text, and when some WebP name makes a template invalid no file changes and the updated count is 0; the summary counts are the converted candidates, the referrers whose text that rewriting changes, the converted originals whose unlink succeeds and the failed conversions |
| WebpConversion.ConvertedNames | scripts/convert_to_webp.py:26-66 | the keys of `converted_images`: the candidates whose conversion succeeds, in ascending order and each once |
| WebpConversion.DirectoryAfter | scripts/convert_to_webp.py:39-149 | an original is gone at the end exactly when it was converted and unlinked, every converted image has its WebP file, and nothing else is added |
| WebpConversion.UpdatedReferrers | scripts/convert_to_webp.py:118-135 | `updated_files` is exactly the readable referrers outside the skipped directories whose text the substitutions change; it is empty, and every file keeps its text, when some WebP name makes a template invalid |
| WebpConversion.DeletedImages | scripts/convert_to_webp.py:141-151 | the originals removed are the converted candidates whose unlink succeeds |
| WebpConversion.FailedCount | scripts/convert_to_webp.py:160 | `len(failed_images)` is the number of candidates whose conversion fails |
| WebpConversion.DistinctCard | scripts/convert_to_webp.py:157-160 | a list in strictly ascending order has as many entries as distinct names, so the summary counts are counts of files |
| RenameFiles.SubHrefUntouched | scripts/rename_files.py:26-30 | a text with no quoted `href` naming exactly the old name is left unchanged |
| RenameFiles.SubHrefFirstMatch | scripts/rename_files.py:26-30 | at the first match, `href=` with either quote around the old name becomes `href="new"`; the text before it is kept and the scan resumes after the closing quote |
| RenameFiles.SubHrefRewrites | scripts/rename_files.py:26-30 | the same for a match written out as `href=`, quote, name, quote |
| RenameFiles.LongerHrefUntouched | scripts/rename_files.py:27 | an `href` whose value only starts with the old name is not rewritten |
| RenameFiles.NosotrosHtmlUntouched | scripts/rename_files.py:11-64 | `href="nosotros.html"` is not rewritten, although the file it names is renamed in step 2 |
| RenameFiles.SubQuotedUntouched | scripts/rename_files.py:32-41 | a text where no quote is followed by the path prefix is left unchanged |
| RenameFiles.SubQuotedRewrites | scripts/rename_files.py:32-41 | a quote followed by `./old/` (or `old/`) keeps the quote and gets `./new/` (or `new/`), and the scan resumes after the prefix |
| RenameFiles.UpdateForUntouched | scripts/rename_files.py:24-41 | the three substitutions for one entry leave alone a text that none of their patterns matches |
| RenameFiles.UpdateReferencesInFile | scripts/rename_files.py:18-47 | the text after the substitutions of every entry, in table order, and `True` exactly when it differs from the original |
| RenameFiles.Refreshed | scripts/rename_files.py:51-56 | step 1 on one top-level entry: files stay files and directories keep their paths, and only `.html` files (any letter case) can change |
| RenameFiles.UpdateAll | scripts/rename_files.py:51-56 | step 1 on the whole root is step 1 on each top-level entry |
| RenameFiles.RefreshEntry | scripts/rename_files.py:51-56 | the walk over one top-level entry computes its refreshed form |
| RenameFiles.UpdateDir | scripts/rename_files.py:51-56 | inside a directory every `.html` file gets the updated text and every other file is untouched |
| RenameFiles.Move | scripts/rename_files.py:64-71 | `os.rename` moves the entry to its new name, the old name disappears and every other name is untouched |
| RenameFiles.RenamePair | scripts/rename_files.py:59-72 | one table entry in step 2: only the four names involved can change; with nothing to rename the root is unchanged; a failure means a target name was taken; on success `old.html` and the directory `old` now sit at their new names |
| RenameFiles.RenameAll | scripts/rename_files.py:59-72 | the step-2 loop computes the reference definition, stopping at the first failed rename |
| RenameFiles.RenamesFresh | scripts/rename_files.py:10-16 | in the table no new name clashes with an old one or with itself once `.html` is added |
| RenameFiles.Run | scripts/rename_files.py:49-72 | the whole script is step 1 on every entry followed by step 2 on the result |
| LinkAndSizeUpdate.StrippedHref | scripts/update_html_for_cls_and_links.py:24-30 | anchors, `http…` and `mailto:` links and hrefs not ending in `.html` are kept; otherwise exactly the final `.html` is removed |
| LinkAndSizeUpdate.StripNotIdempotent | scripts/update_html_for_cls_and_links.py:28-30 | only one `.html` is removed per run, so `x.html.html` becomes `x.html` and a second run gives `x` |
| LinkAndSizeUpdate.FixLink | scripts/update_html_for_cls_and_links.py:23-31 | a link keeps its tag and every other attribute, and its `href` becomes the stripped one; an element that does not strip is unchanged |
| LinkAndSizeUpdate.Resolved | scripts/update_html_for_cls_and_links.py:38 | `src.lstrip('/\\')`: a suffix of the source that does not start with a slash or a backslash |
| LinkAndSizeUpdate.SetAttr | scripts/update_html_for_cls_and_links.py:43-48 | the attribute gets the value, every other attribute is kept, and the flag is raised exactly when it was missing or different |
| LinkAndSizeUpdate.SizeImage | scripts/update_html_for_cls_and_links.py:33-50 | an image without measurable local source is unchanged; otherwise it gets `width` and `height` as decimal strings of the measured size and keeps every other attribute |
| LinkAndSizeUpdate.SizeImageSettles | scripts/update_html_for_cls_and_links.py:43-48 | a sized image does not resize again, so a second pass changes nothing |
| LinkAndSizeUpdate.Final | scripts/update_html_for_cls_and_links.py:22-50 | each element of the final page is its link fix followed by its size fix |
| LinkAndSizeUpdate.Soup.constructor | scripts/update_html_for_cls_and_links.py:20 | the soup holds the parsed elements |
| LinkAndSizeUpdate.Soup.UpdateHrefs | scripts/update_html_for_cls_and_links.py:23-31 | every element gets its link fix in place, and the flag is raised exactly when some link was rewritten |
| LinkAndSizeUpdate.Soup.UpdateHref | scripts/update_html_for_cls_and_links.py:24-31 | one element is fixed in place, the others are untouched |
| LinkAndSizeUpdate.Soup.AddSizes | scripts/update_html_for_cls_and_links.py:33-50 | every element gets its size fix in place, and the flag is raised exactly when some image was resized |
| LinkAndSizeUpdate.Soup.AddSize | scripts/update_html_for_cls_and_links.py:34-50 | one image is sized in place, the others are untouched |
| LinkAndSizeUpdate.ProcessFile | scripts/update_html_for_cls_and_links.py:16-59 | the page is written exactly when a link was stripped, an image resized or the serialised text differs, and then with the serialised final page |
| LinkAndSizeUpdate.Walk | scripts/update_html_for_cls_and_links.py:62-66 | every `.html` file (any letter case) gets the serialised final page and every other file is untouched |
| BodyAndStyles.FixPageTop | scripts/fix_body_and_styles.py:17-22 | without `<id="page-top">` the page is unchanged; otherwise its first occurrence becomes `<body id="page-top">` when the page has no `<body`, and is dropped when it has one |
| BodyAndStyles.CloseBody | scripts/fix_body_and_styles.py:24-26 | a page that already has `</body>`, or has no `</html>`, is unchanged |
| BodyAndStyles.FixPageTopKeeps | scripts/fix_body_and_styles.py:17-22 | fixing the page-top tag keeps every other tag that was there |
| BodyAndStyles.PageTopGivesBody | scripts/fix_body_and_styles.py:18-22 | a page that had `<id="page-top">` has a `<body` afterwards |
| BodyAndStyles.CloseBodyCloses | scripts/fix_body_and_styles.py:25-26 | a page with `</html>` has `</body>` afterwards |
| BodyAndStyles.FixBodyCloses | scripts/fix_body_and_styles.py:12-26 | after both body fixes a page with `</html>` has `</body>`, so a second closing pass changes nothing |
| BodyAndStyles.AdditionsEmpty | scripts/fix_body_and_styles.py:36-47 | nothing is appended exactly when every selector is already in the stylesheet |
| BodyAndStyles.AdditionsCover | scripts/fix_body_and_styles.py:38-45 | the text of every rule whose selector is missing lands in the additions |
| BodyAndStyles.RulesHoldSelectors | scripts/fix_body_and_styles.py:38-45 | each appended rule text contains the selector it was added for |
| BodyAndStyles.UpdateCss | scripts/fix_body_and_styles.py:33-48 | nothing is written exactly when all four selectors are present; otherwise the old text, a newline and the missing rules in order |
| BodyAndStyles.WriteCss | scripts/fix_body_and_styles.py:34-48 | only `css/main.css` changes, and it gets the updated text |
| BodyAndStyles.UpdateCssSettles | scripts/fix_body_and_styles.py:33-48 | the old stylesheet is kept as a prefix, and a second run appends nothing |
| BodyAndStyles.AppendedCoversAll | scripts/fix_body_and_styles.py:36-48 | once the missing rules are appended every selector is present |
| BodyAndStyles.RestyledKeepsOut | scripts/fix_body_and_styles.py:58-76 | a text that never straddles a replacement stays free of a string the replacements cannot create |
| BodyAndStyles.RestyledRemoves | scripts/fix_body_and_styles.py:58-76 | after the four replacements none of the inline styles is left |
| BodyAndStyles.RestyledAbsent | scripts/fix_body_and_styles.py:58-78 | a page with none of the inline styles is unchanged, so it is not written |
| BodyAndStyles.RestyleIdempotent | scripts/fix_body_and_styles.py:52-80 | no inline style survives, and a second run changes nothing |
| BodyAndStyles.InlineStylesSettle | scripts/fix_body_and_styles.py:58-76 | no replacement text can overlap any inline style that is replaced at the same time or later |
| BodyAndStyles.CleanCommentsChanges | scripts/fix_body_and_styles.py:86-89 | a footer changes exactly when it holds the old comment, and then gets shorter |
| BodyAndStyles.CleanFooters | scripts/fix_body_and_styles.py:83-91 | both footers get the cleaned text; at the first missing footer the script stops, the earlier footers are cleaned and the later ones untouched |
| BodyAndStyles.LayoutDistinct | scripts/fix_body_and_styles.py:13-91 | the stylesheet and the footers are not pages in the root, so the steps touch disjoint files |
| BodyAndStyles.Run | scripts/fix_body_and_styles.py:94-98 | pages in the root get the body fix and, when the stylesheet exists, the inline-style replacements; the stylesheet gets its rules; a missing stylesheet stops the script with both footers untouched; a missing footer stops it with the footers before it cleaned and the others untouched; both footers are cleaned when the run completes; no other file changes |
| BodyAndStyles.StylesAndFooters | scripts/fix_body_and_styles.py:96-98 | the last three passes from the tree the body repair leaves: the stylesheet gets its rules, root pages the inline-style replacements, and the footers are cleaned up to the first missing one |
| BodyAndStyles.FootersCarried | scripts/fix_body_and_styles.py:83-98 | the earlier passes leave the footers alone, so where the footer pass stopped holds of the original tree |
| HeadPartial.InsertSnippet | scripts/inject_head_partial.py:27-29 | a page with the marker or without `<head>` is unchanged; otherwise the snippet goes on a new line right after the first `<head>` and the rest is kept |
| HeadPartial.InsertSnippetOnce | scripts/inject_head_partial.py:27-29 | a page with a `<head>` carries the marker afterwards, and inserting a second time adds nothing |
| HeadPartial.RemoveLinksChanges | scripts/inject_head_partial.py:14-33 | removing one pattern's tags changes the text exactly when the pattern matches somewhere, and then removes at least a whole `<link…>` |
| HeadPartial.LinkMatchIgnoresCase | scripts/inject_head_partial.py:33 | a match does not depend on letter case (`re.IGNORECASE`) |
| HeadPartial.CollapseLead | scripts/inject_head_partial.py:36 | a leading run of three or more newlines becomes exactly two, and a shorter run is kept |
| HeadPartial.CollapseNoTriple | scripts/inject_head_partial.py:36 | after the substitution no three newlines in a row are left |
| HeadPartial.CollapseIdentity | scripts/inject_head_partial.py:36 | a text without three newlines in a row is unchanged |
| HeadPartial.CollapseIdempotent | scripts/inject_head_partial.py:36 | collapsing twice is collapsing once |
| HeadPartial.CollapseSplit | scripts/inject_head_partial.py:36 | a text cut after a character other than a newline collapses piece by piece |
| HeadPartial.InjectAndClean | scripts/inject_head_partial.py:23-41 | insert, remove the five link patterns in order, collapse newlines; `True` exactly when the text changed, and the result has no three newlines in a row |
| HeadPartial.RemoveLinksKeepsPrefix | scripts/inject_head_partial.py:33 | a prefix in which no `<link` starts, in any letter case, and which does not end in white space is kept in front of the removal of one pattern from the rest |
| HeadPartial.CleanedKeepsPrefix | scripts/inject_head_partial.py:32-33 | a prefix holding no `<link` and not ending in white space survives all five removal passes unchanged |
| HeadPartial.ProcessedKeepsMarker | scripts/inject_head_partial.py:27-36 | a page with a `<head>`, without the marker and with no `<link` before its first `<head>` carries the marker after the whole processing, so the next run inserts nothing |
| HeadPartial.RemoveAll | scripts/inject_head_partial.py:32-33 | the loop over the patterns removes them in list order |
| HeadPartial.Run | scripts/inject_head_partial.py:44-53 | when the root is itself named `partials` nothing is touched; otherwise every `.html` page directly in the root gets the processed text, every other file is untouched, and the count is the number of pages whose text changed |
| HeadPartial.LinkMatch | scripts/inject_head_partial.py:14-20 | a match of a link pattern at the start of the text spans at least `<link` and its closing `>` and stays within the text |
| HeadPartial.RemoveLinks | scripts/inject_head_partial.py:32-33 | deleting a pattern's tags never lengthens the text |
| EnhanceHtml.Each | scripts/enhance_html.py:40-41 | a `find_all` loop over the tags of a page: one result per tag, in order |
| EnhanceHtml.FindDescription | scripts/enhance_html.py:27 | `soup.find('meta', attrs={'name': 'description'})`: the first description tag, and none before it |
| EnhanceHtml.WithContent | scripts/enhance_html.py:29-30 | the tag gets a non-empty `content` and keeps its other attributes |
| EnhanceHtml.Described | scripts/enhance_html.py:26-37 | the description step changes only the tag list |
| EnhanceHtml.DescribedHasContent | scripts/enhance_html.py:26-37 | the step fails exactly when there is neither a description nor a `<head>`; otherwise the page then has a description with content, which is the default text whenever the step changed something, and nothing changes when it does not fire |
| EnhanceHtml.DescriptionKept | scripts/enhance_html.py:29-30 | filling in the content keeps the description tag the first one |
| EnhanceHtml.DescriptionAppended | scripts/enhance_html.py:33-36 | an appended description tag becomes the first one when there was none |
| EnhanceHtml.LinkFixed | scripts/enhance_html.py:40-43 | a link whose `href` has `main.css` and not `min.css` gets every `main.css` replaced by `main.min.css`; other tags are unchanged; a fixed link never fires again |
| EnhanceHtml.MinifiedNamesMin | scripts/enhance_html.py:41-42 | after the replacement the `href` contains `min.css`, so the link does not fire again |
| EnhanceHtml.ScriptDeferred | scripts/enhance_html.py:46-52 | a script with a `src` and no `defer`, other than analytics, gets `defer`; analytics scripts keep their `defer` state; a deferred script never fires again |
| EnhanceHtml.DropExtension | scripts/enhance_html.py:83 | `re.sub(r"\.[^.]+$", "", …)`: a prefix of the name, shorter exactly when the name ends in a dot and at least one non-dot |
| EnhanceHtml.AltText | scripts/enhance_html.py:82-84 | the alt text is the file name without its extension, character for character, with each `-` and each `_` turned into a space; so it is as long as that name and holds neither character |
| Strings.ReplaceCharAt | scripts/enhance_html.py:84 | `s.replace(a, b)` for single characters maps each `a` to `b` and keeps every other character in place, so the length is kept |
| EnhanceHtml.SpacedOut | scripts/enhance_html.py:84 | the two `replace` calls map each `-` and each `_` to a space and keep every other character in place |
| EnhanceHtml.SecondStripIsNoOp | scripts/enhance_html.py:94 | `src.lstrip('./').lstrip('/')` is a single strip of dots and slashes |
| EnhanceHtml.ResolveSkipsDotsAndSlashes | scripts/enhance_html.py:94 | the image path is the source without its leading dots and slashes |
| EnhanceHtml.WithAlt | scripts/enhance_html.py:80-84 | an image without `alt` gets the alt text from its file name; every attribute it had is kept |
| EnhanceHtml.WithLoading | scripts/enhance_html.py:87-88 | an image without `loading` gets `lazy`; every attribute it had is kept |
| EnhanceHtml.Measured | scripts/enhance_html.py:91-98 | a size is measured exactly when the image has a `src`, neither `width` nor `height`, and an existing file |
| EnhanceHtml.WithSize | scripts/enhance_html.py:99-100 | with a measured size the image gets `width` and `height` as decimal strings and keeps every other attribute; without one it is unchanged |
| EnhanceHtml.ImageEnhanced | scripts/enhance_html.py:79-103 | only `<img>` tags change, and they keep their tag name |
| EnhanceHtml.ImageEnhancedAttrs | scripts/enhance_html.py:79-103 | an image keeps every attribute it had, gains `alt` and `loading` when missing, and gains the measured `width` and `height` when it is measurable |
| EnhanceHtml.ImageEnhancedSettles | scripts/enhance_html.py:79-103 | an enhanced image never fires again, and an image that does not fire is unchanged |
| EnhanceHtml.SizeFiresAfterAltAndLoading | scripts/enhance_html.py:80-92 | adding `alt` and `loading` first does not change whether or how the image is measured |
| EnhanceHtml.VideoNormalised | scripts/enhance_html.py:106-121 | a video loses `width` and `height`, gets `playsinline`, and gets the responsive style appended unless its style has `aspect-ratio`; the other attributes are kept; other tags are unchanged; a normalised video never fires again |
| EnhanceHtml.AspectStyleHasRatio | scripts/enhance_html.py:114-116 | the appended style contains `aspect-ratio`, so it is appended once |
| EnhanceHtml.MovedKeptClassified | scripts/enhance_html.py:60-67 | the moved children are exactly the elements that are not nav or footer includes |
| EnhanceHtml.MovedKeptPartition | scripts/enhance_html.py:60-69 | moved and kept children together are the children, none lost or duplicated |
| EnhanceHtml.FooterIndex | scripts/enhance_html.py:71 | the position of the first footer include among the kept children, or the end |
| EnhanceHtml.WrappedBodyShape | scripts/enhance_html.py:58-75 | the new body is the kept children with one `<main>` holding the moved children inserted; all children are kept |
| EnhanceHtml.WrappedBeforeFooter | scripts/enhance_html.py:71-75 | `<main>` goes before the first footer include, or at the end when there is none |
| EnhanceHtml.InsertedAt | scripts/enhance_html.py:73-75 | inserting one node at a position keeps every other node in order |
| EnhanceHtml.Wrapped | scripts/enhance_html.py:55-76 | a page with a body and no `<main>` gets a `<main>` and the wrapped body; any other page is unchanged |
| EnhanceHtml.PipelineSettles | scripts/enhance_html.py:39-121 | after the link, script, image and video steps a tag is a fixed point of each of them, and a meta tag is untouched |
| EnhanceHtml.EachTwice | scripts/enhance_html.py:40-121 | two loops over the tags are one loop doing both steps |
| EnhanceHtml.RestElements | scripts/enhance_html.py:39-121 | the tag list after the steps that follow the description is each tag through all four tag steps, plus `<main>` when the page was wrapped |
| EnhanceHtml.RestOutput | scripts/enhance_html.py:39-121 | those steps keep `<head>` and body presence and every tag's name, leave meta tags alone, settle every tag, and leave a `<main>` whenever there is a body |
| EnhanceHtml.RestSettles | scripts/enhance_html.py:39-121 | on a page where every tag is settled and no wrap is due those steps change nothing and nothing fires |
| EnhanceHtml.EnhancedIsSettled | scripts/enhance_html.py:26-121 | an enhanced page has its description, needs no wrapping and has every tag settled |
| EnhanceHtml.EnhanceSettles | scripts/enhance_html.py:26-127 | enhancing an enhanced page gives it back and sets no `modified` flag, so a second run writes nothing |
| EnhanceHtml.DescriptionStays | scripts/enhance_html.py:26-121 | the later steps keep the first description tag where it was |
| EnhanceHtml.EnhancedImage | scripts/enhance_html.py:79-103 | the image loop body computes the enhanced image, and its flag is raised exactly when some image step fires |
| EnhanceHtml.NormalisedVideo | scripts/enhance_html.py:106-121 | the video loop body computes the normalised video, and its flag is raised exactly when some video step fires |
| EnhanceHtml.WrapChildren | scripts/enhance_html.py:58-75 | the two loops over the body children and the insertion compute the wrapped body |
| EnhanceHtml.FindFooter | scripts/enhance_html.py:71 | the search finds the first footer include |
| EnhanceHtml.FooterIndexIsFirst | scripts/enhance_html.py:71 | the first position holding a footer include, with none before it, is the footer index |
| EnhanceHtml.Page.constructor | scripts/enhance_html.py:22-24 | a page parsed from the file with the `modified` flag down |
| EnhanceHtml.Page.Describe | scripts/enhance_html.py:26-37 | the description step in place: it fails exactly when the page has no description and no `<head>`, and raises the flag exactly when it fires |
| EnhanceHtml.Page.FixLinkAt | scripts/enhance_html.py:41-43 | one link fixed in place; the flag is raised when it fires |
| EnhanceHtml.Page.UseMinifiedCss | scripts/enhance_html.py:40-43 | every tag gets the link fix in place; the flag is raised exactly when some link fires |
| EnhanceHtml.Page.DeferAt | scripts/enhance_html.py:47-52 | one script deferred in place; the flag is raised when it fires |
| EnhanceHtml.Page.DeferScripts | scripts/enhance_html.py:46-52 | every tag gets the script step in place; the flag is raised exactly when some script fires |
| EnhanceHtml.Page.WrapMain | scripts/enhance_html.py:55-76 | the page is wrapped in place, and the flag is raised exactly when the wrap is due |
| EnhanceHtml.Page.EnhanceImageAt | scripts/enhance_html.py:80-103 | one image enhanced in place; the flag is raised when it fires |
| EnhanceHtml.Page.EnhanceImages | scripts/enhance_html.py:79-103 | every tag gets the image steps in place; the flag is raised exactly when some image fires |
| EnhanceHtml.Page.NormaliseVideoAt | scripts/enhance_html.py:107-121 | one video normalised in place; the flag is raised when it fires |
| EnhanceHtml.Page.NormaliseVideos | scripts/enhance_html.py:106-121 | every tag gets the video steps in place; the flag is raised exactly when some video fires |
| EnhanceHtml.Page.Enhance | scripts/enhance_html.py:24-121 | the steps in the script's order: the page fails exactly when the description step fails; otherwise it becomes the enhanced page and the flag is raised exactly when some step fired |
| EnhanceHtml.EnhanceFile | scripts/enhance_html.py:22-127 | one file: parse, enhance, and the text to write back, if any |
| EnhanceHtml.Run | scripts/enhance_html.py:16-127 | files that are not `.html` pages or whose path mentions `partials` are untouched; every other page is untouched or gets its enhanced text; a stop happens only at a page whose enhancement fails; without a stop every page has its enhanced text |
| EnhanceHtml.SelectPages | scripts/enhance_html.py:16-21 | the visited files are exactly the `.html` files whose path does not mention `partials` |
| EnhanceHtml.FirstDescription | scripts/enhance_html.py:27 | `soup.find` returns the first tag that is a description `meta`, whatever follows it |
| Strings.LowerChar | scripts/clean_whitespace.py:29 | `str.lower` on one character leaves no upper-case letter, shifts `A`–`Z` by 32 and keeps every other character |
| Strings.Lower | scripts/find_unused_images_safe.py:25 | lower-casing keeps the length and lowers each character in place |
| Strings.RStrip | scripts/clean_whitespace.py:13 | `rstrip()` yields a prefix of the line, what it removes is all white space, and what it keeps does not end in white space |
| Strings.LStrip | scripts/enhance_html.py:29 | `lstrip()` yields a suffix, what it removes is all white space, and what it keeps does not start with white space |
| Strings.Strip | scripts/find_unused_images_safe.py:25 | `strip()` yields a string no longer than its input that neither starts nor ends with white space |
| Strings.RStripOfClean | scripts/clean_whitespace.py:13 | `rstrip()` leaves a line that does not end in white space unchanged |
| Strings.LStripOfClean | scripts/enhance_html.py:29 | `lstrip()` leaves a string that does not start with white space unchanged |
| Strings.StripOfClean | scripts/find_unused_images_safe.py:25 | `strip()` leaves a string with no white space at either end unchanged, so it is idempotent |
| Strings.StripKeepsChars | scripts/find_unused_images_safe.py:25 | every character of `strip()`'s result occurs in its input |
| Strings.RStripAllSpace | scripts/clean_whitespace.py:13-14 | `rstrip()` is empty exactly when the line is all white space |
| Strings.StripEmptyIffAllSpace | scripts/clean_whitespace.py:14 | `strip() == ''` holds exactly when the line is all white space, the test the blank-line check relies on |
| Strings.ContainsIffOccurs | scripts/fix_body_and_styles.py:18 | the `in` test on strings holds exactly when the needle occurs at some index |
| Strings.ContainsOfLonger | scripts/fix_body_and_styles.py:38-44 | a string that contains `a + b` contains `a` |
| Strings.ContainsOfLongerEnd | scripts/fix_body_and_styles.py:38-44 | a string that contains `a + b` contains `b` |
| Strings.ContainsShorter | scripts/fix_body_and_styles.py:18 | a needle found in a string is no longer than the string |
| Strings.ContainsItself | scripts/fix_body_and_styles.py:18 | every string contains itself |
| Strings.ContainsInMiddle | scripts/inject_head_partial.py:28-29 | `x + a + y` contains `a` |
| Strings.ContainsSuffix | scripts/fix_body_and_styles.py:18 | a needle found in a suffix is found in the whole string |
| Strings.ContainsPrefix | scripts/fix_body_and_styles.py:18 | a needle found in a prefix is found in the whole string |
| Strings.ContainsChar | scripts/enhance_html.py:114 | containing a one-character string is the same as containing that character |
| Strings.FindFirst | scripts/fix_body_and_styles.py:20 | finds an occurrence exactly when the needle is present, and the one it returns is the leftmost |
| Strings.OccursShift | scripts/fix_body_and_styles.py:18 | an occurrence at index `j >= 1` is an occurrence at `j - 1` in the tail |
| Strings.IndexOf | scripts/clean_whitespace.py:8 | the index returned holds the character, and no earlier index does; none is returned only when the character is absent |
| Strings.ReplaceFirst | scripts/fix_body_and_styles.py:20 | `replace(a, b, 1)` leaves a string without `a` unchanged, and otherwise swaps one occurrence of `a` for `b` |
| Strings.ReplaceAllAbsent | scripts/fix_body_and_styles.py:58-76 | `replace(a, b)` leaves a string without `a` unchanged |
| Strings.ReplaceAllChanges | scripts/fix_body_and_styles.py:58-76 | when `a != b`, `replace(a, b)` changes the string exactly when it contains `a` |
| Strings.ReplaceAllLength | scripts/enhance_html.py:42 | a replacement no shorter than the pattern never shortens the text, and one no longer never lengthens it |
| Strings.ReplaceAllLengthStrict | scripts/enhance_html.py:42 | when the pattern occurs and the lengths differ, the length changes in the matching direction |
| Strings.ReplaceAllIntroduces | scripts/fix_body_and_styles.py:58-76 | after replacing an occurring pattern the text contains the replacement |
| Strings.Incompatible | scripts/fix_body_and_styles.py:58-76 | two strings that differ at a shared index are not prefix-compatible |
| Strings.CompatibleOfPrefix | scripts/fix_body_and_styles.py:58-76 | a prefix of `b + rest` is prefix-compatible with `b` |
| Strings.ReplaceAllPrefixBack | scripts/fix_body_and_styles.py:58-76 | if the replacement cannot overlap a needle `c`, a tail of `c` at the start of the result was already at the start of the input |
| Strings.ContainsConcat | scripts/fix_body_and_styles.py:58-76 | an occurrence in `x + y` lies within `y` or starts inside `x` |
| Strings.ReplaceAllLeavesNo | scripts/fix_body_and_styles.py:58-76 | after `replace(a, b)`, a needle that cannot overlap `b` is absent if it was `a` itself or absent before |
| Strings.ReplaceAllIdempotent | scripts/fix_body_and_styles.py:58-76 | when the pattern cannot overlap the replacement, replacing twice equals replacing once |
| Strings.LessIrreflexive | scripts/clean_unused_images.py:51 | the code-point order `sorted` uses is irreflexive |
| Strings.LessTransitive | scripts/clean_unused_images.py:51 | the code-point order is transitive |
| Strings.LessTotal | scripts/clean_unused_images.py:51 | any two distinct names are ordered one way or the other |
| Strings.LeastExists | scripts/clean_unused_images.py:51 | every non-empty set of names has a least element |
| Strings.LeastUnique | scripts/clean_unused_images.py:51 | the least element of a set is unique |
| Strings.AscendingCons | scripts/clean_unused_images.py:51 | a name below every element of an ascending list extends it ascending |
| Strings.SortedNames | scripts/clean_unused_images.py:51 | `sorted` on a set gives a strictly ascending list with exactly the set's elements and its size |
| Strings.AscendingUnique | scripts/clean_unused_images.py:51 | two strictly ascending lists with the same members are equal: `sorted` has one result per set |
| Strings.LStripChars | scripts/enhance_html.py:94 | `lstrip(chars)` yields a suffix, removes only characters of the set and stops at the first character outside it |
| Strings.LStripCharsSkips | scripts/enhance_html.py:94 | `lstrip(chars)` of a run of set characters followed by a string that starts outside the set is that string |
| Strings.DecimalString | scripts/enhance_html.py:99-100 | `str(n)` is a non-empty run of digits with no leading zero |
| Strings.DecimalRoundTrip | scripts/enhance_html.py:99-100 | reading `str(n)` back as a decimal numeral gives `n` |
| Strings.DecimalInjective | scripts/enhance_html.py:99-100 | `str(m) == str(n)` exactly when `m == n` |
| Paths.LastSegment | scripts/enhance_html.py:82 | the text after the last separator (`/` or `\`) is a suffix of the path without a separator, preceded by one when shorter than the path |
| Paths.LastSegmentAfter | scripts/enhance_html.py:82 | the last segment of `a`, a separator and a separator-free `b` is `b` |
| Paths.Name | scripts/enhance_html.py:82 | `Path(p).name` contains neither `/` nor `\`, is never `.` and is no longer than the path |
| Paths.NameAfterBackslash | scripts/enhance_html.py:82 | `Path("img\foto-1.jpg").name` is `foto-1.jpg` |
| Paths.LastIndex | scripts/convert_to_webp.py:30 | the position returned holds the character and no later position does; none is returned only when the character is absent |
| Paths.Suffix | scripts/convert_to_webp.py:30 | `suffix` is empty or a dot followed by at least one dot-free character, is shorter than the name, and ends it |
| Paths.Stem | scripts/convert_to_webp.py:39 | the name is its stem followed by its suffix |
| Paths.WithSuffix | scripts/convert_to_webp.py:39 | `with_suffix` keeps the stem and ends with the new suffix |
| Paths.RootPages | scripts/fix_body_and_styles.py:13 | `ROOT.glob("*.html")` selects exactly the files directly in the root whose name ends in `.html` |
| Paths.RewriteFiles | scripts/inject_head_partial.py:38-51 | every selected file gets the rewritten text, every other file keeps its text, no path is added or removed, and the files written are exactly the selected ones whose text changed |

## Left out

- Console output, the report file of `find_unused_images_safe.py` and the size-reduction percentage of `convert_to_webp.py` are not modelled; they only print.
- Directory walking is modelled as the set of paths of a tree. The visiting order of `glob`, `rglob` and `os.walk` is left open wherever the result does not depend on it. Where the scripts sort a listing, the sorted order is modelled.
- Reading and writing files is modelled as looking up and updating the tree. Decoding with `errors="ignore"` is not modelled: a file's text is taken as already decoded. A read failure is modelled only in `convert_to_webp.py`, where it changes the result (the `unreadable` set). The scripts that catch and report such errors are modelled as if every file opened.
- Files are opened in text mode, so reading turns `\r\n` and a lone `\r` into `\n`, and writing turns `\n` back into the platform's line end. A file's text in the model is the text after that translation; a page with `\r\n` line ends is modelled by its translated text, and whether a write changes its line ends on disk is not modelled.
- Strict UTF-8 decoding raises `UnicodeDecodeError` on an undecodable file at `clean_whitespace.py:7`, `enhance_html.py:22`, `fix_body_and_styles.py:14`, `fix_body_and_styles.py:35`, `fix_body_and_styles.py:54`, `fix_body_and_styles.py:86`, `inject_head_partial.py:24` and `update_html_for_cls_and_links.py:18`, and nothing catches it, so the script stops there with the files before it already written. The model takes every file these scripts read as decodable.
- `glob` and `rglob` patterns (`*.html`, `**/*.css` and the like) are matched case-sensitively, as on POSIX; on Windows they ignore case, so a page named `INDEX.HTML` would be visited there and is not in the model. The scripts' own `.lower().endswith(…)` tests stay case-insensitive, as written.
- Pillow (image conversion, quality and mode handling, dimension measurement) is a parameter: which conversions succeed, and a map from an image path to its size.
- BeautifulSoup parsing, serialising and `prettify` are parameters (`parse`, `render`) or abstract element lists. The model does not say where in the document text a new `<meta>` or `<main>` lands, only which element list results.
- `EnhanceHtml`: only the direct children of `<body>` are searched for the navigation and footer includes; their descendants are not.
- An attribute value of a parsed page is text, `True` (`Flag`) or `None` (`Bare`). BeautifulSoup's multi-valued attributes such as `class` are not modelled.
- `enhance_html.py` skips a page when its absolute path contains `partials`. The model tests the path relative to the site root, which assumes the root's own path does not contain that word.
- `enhance_html.py:83` (`\.[^.]+$`) is modelled as dropping a final extension. The case of a name ending in a newline, where `$` also matches before it, is not modelled.
- `Strings.IsSpace` covers the Latin-1 white-space characters, and `Strings.Lower` only lower-cases `A` to `Z`. Python's full Unicode rules for `isspace`, `lower` and `\s` are not modelled. `re.IGNORECASE` is modelled by lower-casing the text before matching a lower-case pattern.
- `ImageNames.Unquote` decodes only `%XX` escapes of ASCII characters. Python's `unquote` would decode escapes of non-ASCII UTF-8 byte sequences, and those are kept as they are.
- `delete_unused_images_safe.py:14-22` repeats `normalize_filename` character for character, so both scripts use the single definition `ImageNames.NormalizeFilename`.
- The regular expressions that capture image references in `find_unused_images_safe.py` and `delete_unused_images_safe.py` are a parameter `extract`, giving the captured values per file. Only the clean-up and normalisation of each captured value is modelled. The single expression of `clean_unused_images.py` is hand-coded, because its shape is a finding.
- `WebpConversion.Substituted`: when the WebP name is read literally, the model applies only the fourth substitution pattern (`img/<old>` to `img/<new>`). For an image name with no quote and no parenthesis, the first three patterns then rewrite only occurrences of `img/<old>` and keep their surrounding groups, so they make no change the fourth would not make. This reduction is argued here, not proved. When the name is read as an octal escape, all four patterns are modelled as `re` applies them.
- `WebpConversion.Run`: image names are taken to contain no backslash, as on the Windows file systems the script was written for. Elsewhere a backslash in a name would be read as another template escape, and such escapes are not modelled.
- `Paths.Name`: paths are read as Windows paths, with `/` and `\` as separators. A drive (`c:`) or UNC share prefix is not recognised, so for a name such as `c:foto.jpg`, which Windows reads as `foto.jpg` on drive `c:`, the model keeps the whole text.
- `RenameFiles.Move`: `os.rename` is modelled with Windows semantics, so it fails when the target name already exists, as on the `c:/` paths the scripts were written for. A failure raises, and the script stops at that entry.
- `HeadPartial.Run`: the script skips every page whose parent directory is named `partials`. For pages taken directly from the site root, this happens exactly when the root itself is named `partials`, so the model returns early with nothing written.
- `HeadPartial.ProcessedKeepsMarker`: the promise that the marker survives is made only for a page with no `<link`, in any letter case, before its first `<head>`. Without that condition the removal passes can reach the inserted text: in `<li<link href="css/bootstrap.min.css">nk href="css/main.css" <link href="css/bootstrap.min.css" <head>`, removing the Bootstrap links joins `<li` and `nk` into a `main.css` link, the second Bootstrap match consumes the `>` of `<head>`, and the `main.css` pass then removes the text up to the `>` of the inserted `<meta>`, marker included. This input is argued here, not proved.
- `HeadPartial`: a page whose existing marker sits inside a link that a removal pass deletes, as in `<head><link data-head-include="partials/head-common.html" href="css/main.css">`, gets no new snippet on this run (the marker is present) and loses the marker, so the next run inserts the snippet. Only the page without the marker is covered by `HeadPartial.ProcessedKeepsMarker`.
- `CleanUnusedImages.IsWordChar`: the intended reading's `\w` is taken as ASCII letters, digits and `_`. Python's `\w` on a `str` also matches non-ASCII letters and digits, so a name with such characters after `img/` is captured further in Python than in the model.
- The interactive prompt of `delete_unused_images_safe.py` is replaced by the answer as a parameter.
- The JavaScript files of the site (animations, scroll handlers and the head loader) are not part of this model; they are browser behaviour and network I/O.

## Findings

| source | as written | input that shows it | evidently intended | confidence | as-written member | corrected member |
|---|---|---|---|---|---|---|
| scripts/find_unused_images_safe.py:17-28 | `normalize_filename` percent-decodes both the captured references and the inventory's file names, so a correctly escaped reference is decoded once more than the file name it names | an image file named `%41.png`, referenced as `img/%2541.png`: the reference key is `%41.png` but the file's key is `a.png`, so the image is reported (and, by `delete_unused_images_safe.py`, deleted) as unused | decode a reference once and compare it with the file's name undecoded | not executed | ImageNames.EscapedNameMismatch | ImageNames.IntendedKeysMatch |
| scripts/convert_to_webp.py:88-104 | the WebP name is pasted unescaped into the templates `\1\2<new>\4` and `\1<new>`, so a leading digit joins the group reference | `1.jpg`: `\21` names a group the pattern lacks, `re` raises, every page keeps `img/1.jpg` while step 3 deletes the file; `12x.jpg`: `\212` is an octal escape and `"img/12x.jpg"` becomes `"\x8ax.webp"` | insert the name literally (`\g<2>` or `re.escape`), so every reference becomes `img/<new>` | not executed | WebpConversion.DigitNameKeepsReference | WebpConversion.RetargetRemovesOld |
| scripts/clean_unused_images.py:16 | the pattern is a raw string with every backslash doubled, so each alternative needs a literal backslash before the slash (`img\/`) | any site whose pages, stylesheets and scripts contain no backslash: no reference is found and every image under `img/` is deleted | the single-escaped pattern, which captures the name in `"img/a.jpg"` | not executed | CleanUnusedImages.AsWrittenDeletesEverything | CleanUnusedImages.IntendedKeepsQuoted |
