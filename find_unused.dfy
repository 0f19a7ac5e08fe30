/** scripts/find_unused_images_safe.py: collect the image references of the
    site's pages, stylesheets and scripts, take the inventory of `img/`, and
    split the inventory into used and unused images for the report. Nothing
    is deleted. */
module FindUnusedImages {
  import opened Strings
  import opened Paths
  import opened ImageNames

  const SearchExtensions: set<string> := {".html", ".css", ".js"}
  const ImageExtensions: set<string> := {".jpg", ".jpeg", ".png", ".gif", ".webp", ".svg", ".ico", ".mp4"}

  /** A file whose references are collected. */
  predicate IsSearched(p: Path) {
    HasExtensionIn(p, SearchExtensions)
  }

  /** A file of the inventory, by its path below `img/`. */
  predicate IsImage(r: Path) {
    HasExtensionIn(r, ImageExtensions)
  }

  /** The key of each capture, in order. */
  function CaptureKeys(captures: seq<string>): (keys: seq<Option<string>>)
    ensures |keys| == |captures|
    ensures forall i :: 0 <= i < |captures| ==> keys[i] == ReferenceKey(captures[i])
  {
    if captures == [] then [] else [ReferenceKey(captures[0])] + CaptureKeys(captures[1..])
  }

  /** The keys found, whatever their order. */
  function Found(keys: seq<Option<string>>): set<string>
    decreases |keys|
  {
    if keys == [] then {}
    else
      var last := keys[|keys| - 1];
      Found(keys[..|keys| - 1]) + (if last.Some? then {last.value} else {})
  }

  /** The keys recorded for one file's text, given the group-1 captures of
      all matches of the four reference patterns in it. */
  function KeysIn(captures: seq<string>): set<string> {
    Found(CaptureKeys(captures))
  }

  /** A key is found exactly when some capture yields it. */
  lemma {:induction false} FoundIff(keys: seq<Option<string>>, k: string)
    ensures k in Found(keys) <==> exists i :: 0 <= i < |keys| && keys[i] == Some(k)
    decreases |keys|
  {
    if keys != [] {
      var init := keys[..|keys| - 1];
      FoundIff(init, k);
      if k in Found(init) {
        var i :| 0 <= i < |init| && init[i] == Some(k);
        assert keys[i] == Some(k);
      }
      if i :| 0 <= i < |keys| && keys[i] == Some(k) {
        if i < |init| {
          assert init[i] == Some(k);
        }
      }
    }
  }

  /** The keys of a file are the non-empty canonical keys of its captures. */
  lemma KeysInIff(captures: seq<string>, k: string)
    ensures k in KeysIn(captures) <==> exists i :: 0 <= i < |captures| && ReferenceKey(captures[i]) == Some(k)
    ensures k in KeysIn(captures) ==> k != [] && IsCanonical(k)
  {
    var keys := CaptureKeys(captures);
    FoundIff(keys, k);
    if k in KeysIn(captures) {
      var i :| 0 <= i < |keys| && keys[i] == Some(k);
      assert ReferenceKey(captures[i]) == Some(k);
    }
    if i :| 0 <= i < |captures| && ReferenceKey(captures[i]) == Some(k) {
      assert keys[i] == Some(k);
    }
  }

  /** The file `p` refers to the image key `k`. */
  predicate Refers(tree: Tree, extract: string -> seq<string>, p: Path, k: string) {
    p in tree && IsSearched(p) && k in KeysIn(extract(tree[p]))
  }

  /** The reference map lists file `q` under key `k`. */
  predicate Lists(refs: map<string, seq<Path>>, k: string, q: Path) {
    k in refs && q in refs[k]
  }

  /** `collect_image_references`: every key maps to the files that refer to
      it. */
  method CollectReferences(tree: Tree, extract: string -> seq<string>)
    returns (refs: map<string, seq<Path>>)
    ensures forall k, p :: Lists(refs, k, p) <==> Refers(tree, extract, p, k)
    ensures forall k :: k in refs ==> refs[k] != []
    ensures forall k :: k in refs <==> exists p :: Refers(tree, extract, p, k)
  {
    refs := map[];
    var searched := set p | p in tree && IsSearched(p);
    var todo := searched;
    while todo != {}
      invariant todo <= searched
      invariant forall k, q :: Lists(refs, k, q) <==> q in searched && q !in todo && k in KeysIn(extract(tree[q]))
      invariant forall k :: k in refs ==> refs[k] != []
      decreases todo
    {
      var p :| p in todo;
      refs := RecordReferences(refs, p, CaptureKeys(extract(tree[p])));
      todo := todo - {p};
    }
    forall k | k in refs ensures exists p :: Refers(tree, extract, p, k) {
      var p := refs[k][0];
      assert Lists(refs, k, p);
      assert Refers(tree, extract, p, k);
    }
  }

  /** Appending `p` to the list of `n` lists `p` under `n` and changes
      nothing else. */
  lemma ListsAppend(refs: map<string, seq<Path>>, n: string, p: Path)
    ensures var list := if n in refs then refs[n] else [];
      forall k, q :: Lists(refs[n := list + [p]], k, q) <==> Lists(refs, k, q) || (k == n && q == p)
  {
    var list := if n in refs then refs[n] else [];
    var updated := refs[n := list + [p]];
    forall k, q ensures Lists(updated, k, q) <==> Lists(refs, k, q) || (k == n && q == p) {
      if k == n {
        assert q in list + [p] <==> q in list || q == p;
      }
    }
  }

  /** The inner loop of `collect_image_references`: file `p` is appended to
      the list of each key found in it, once per capture that yields it.
      `keys` holds the key of each capture of the file, in order. */
  method RecordReferences(refs0: map<string, seq<Path>>, p: Path, keys: seq<Option<string>>)
    returns (refs: map<string, seq<Path>>)
    requires forall k :: k in refs0 ==> refs0[k] != []
    ensures forall k, q :: Lists(refs, k, q) <==> Lists(refs0, k, q) || (q == p && k in Found(keys))
    ensures forall k :: k in refs ==> refs[k] != []
  {
    refs := refs0;
    assert keys[..0] == [];
    for j := 0 to |keys|
      invariant forall k, q :: Lists(refs, k, q) <==> Lists(refs0, k, q) || (q == p && k in Found(keys[..j]))
      invariant forall k :: k in refs ==> refs[k] != []
    {
      assert keys[..j + 1][..j] == keys[..j] && keys[..j + 1][j] == keys[j];
      assert Found(keys[..j + 1]) == Found(keys[..j]) + (if keys[j].Some? then {keys[j].value} else {});
      if keys[j].Some? {
        var normalized := keys[j].value;
        var list := if normalized in refs then refs[normalized] else [];
        ListsAppend(refs, normalized, p);
        refs := refs[normalized := list + [p]];
      }
    }
    assert keys[..|keys|] == keys;
  }

  /** The keys of the inventory: the normalised names of the image files
      below `img/`, if it exists. */
  function ImageKeys(imgDirExists: bool, imgFiles: set<Path>): set<string> {
    set r | imgDirExists && r in imgFiles && IsImage(r) :: NormalizeFilename(r)
  }

  /** Some searched file refers to the key `k`. */
  ghost predicate Referenced(tree: Tree, extract: string -> seq<string>, k: string) {
    exists p :: Refers(tree, extract, p, k)
  }

  /** `get_all_images`: the inventory of `img/`, keyed by normalised
      path. `imgFiles` holds the regular files below `img/`, as paths
      relative to it. When two files share a key, the entry holds one of
      them. */
  method GetAllImages(imgDirExists: bool, imgFiles: set<Path>) returns (images: map<string, Path>)
    ensures !imgDirExists ==> images == map[]
    ensures imgDirExists ==> forall r :: r in imgFiles && IsImage(r) ==> NormalizeFilename(r) in images
    ensures forall k :: k in images ==> images[k] in imgFiles && IsImage(images[k])
    ensures forall k :: k in images ==> NormalizeFilename(images[k]) == k
    ensures images.Keys == ImageKeys(imgDirExists, imgFiles)
  {
    images := map[];
    if !imgDirExists {
      return;
    }
    var candidates := set r | r in imgFiles && IsImage(r);
    images := KeyEach(candidates, NormalizeFilename);
    InventoryKeys(images, imgFiles);
  }

  /** A map that holds every image file's key and maps each key back to an
      image file with that key has exactly the inventory's keys. */
  lemma InventoryKeys(images: map<string, Path>, imgFiles: set<Path>)
    requires forall r :: r in imgFiles && IsImage(r) ==> NormalizeFilename(r) in images
    requires forall k :: k in images ==> images[k] in imgFiles && IsImage(images[k]) && NormalizeFilename(images[k]) == k
    ensures images.Keys == ImageKeys(true, imgFiles)
  {
    forall k | k in images ensures k in ImageKeys(true, imgFiles) {
      var r := images[k];
      assert r in imgFiles && IsImage(r) && NormalizeFilename(r) == k;
    }
  }

  /** The loop of `get_all_images`: every file is entered under its key,
      a later file replacing an earlier one with the same key. */
  method KeyEach(files: set<Path>, key: Path -> string) returns (images: map<string, Path>)
    ensures forall r :: r in files ==> key(r) in images
    ensures forall k :: k in images ==> images[k] in files && key(images[k]) == k
  {
    images := map[];
    var todo := files;
    while todo != {}
      invariant todo <= files
      invariant forall r :: r in files && r !in todo ==> key(r) in images
      invariant forall k :: k in images ==> images[k] in files && key(images[k]) == k
      decreases todo
    {
      var relPath :| relPath in todo;
      var normalized := key(relPath);
      images := images[normalized := relPath];
      todo := todo - {relPath};
    }
  }

  /** The partition in `main`: an image is used exactly when its key is a
      reference key. */
  method Partition(images: map<string, string>, refs: map<string, seq<Path>>)
    returns (used: seq<(string, seq<Path>)>, unused: seq<string>)
    ensures |used| + |unused| == |images|
    ensures |used| == |set k | k in images && k in refs|
    ensures |unused| == |set k | k in images && k !in refs|
    ensures forall k :: k in images && k in refs ==> (images[k], refs[k]) in used
    ensures forall k :: k in images && k !in refs ==> images[k] in unused
    ensures forall e :: e in used ==> exists k :: k in images && k in refs && e == (images[k], refs[k])
    ensures forall n :: n in unused ==> exists k :: k in images && k !in refs && n == images[k]
    ensures Injective(images) ==> forall i, j :: 0 <= i < j < |unused| ==> unused[i] != unused[j]
  {
    used, unused := [], [];
    var todo := images.Keys;
    ghost var usedKeys: seq<string> := [];
    ghost var unusedKeys: seq<string> := [];
    while todo != {}
      invariant |used| + |unused| + |todo| == |images|
      invariant Handled(images, refs, todo, used, unused, usedKeys, unusedKeys)
      decreases todo
    {
      var normalizedName :| normalizedName in todo;
      var originalName := images[normalizedName];
      if normalizedName in refs {
        UsedStep(images, refs, todo, used, unused, usedKeys, unusedKeys, normalizedName);
        used := used + [(originalName, refs[normalizedName])];
        usedKeys := usedKeys + [normalizedName];
      } else {
        UnusedStep(images, refs, todo, used, unused, usedKeys, unusedKeys, normalizedName);
        unused := unused + [originalName];
        unusedKeys := unusedKeys + [normalizedName];
      }
      todo := todo - {normalizedName};
    }
    DoneAll(images, refs);
    PartitionDone(images, refs, used, unused, usedKeys, unusedKeys);
  }

  /** No two keys map to the same name. */
  predicate Injective(images: map<string, string>) {
    forall k1, k2 :: k1 in images && k2 in images && images[k1] == images[k2] ==> k1 == k2
  }

  /** The invariant of the partition loop: `usedKeys` and `unusedKeys` are
      the keys behind the entries of `used` and `unused`, and together they
      are exactly the keys handled so far, each once. */
  ghost predicate Handled(images: map<string, string>, refs: map<string, seq<Path>>, todo: set<string>,
                          used: seq<(string, seq<Path>)>, unused: seq<string>,
                          usedKeys: seq<string>, unusedKeys: seq<string>)
  {
    && todo <= images.Keys
    && |usedKeys| == |used| && |unusedKeys| == |unused|
    && (forall i :: 0 <= i < |used| ==>
         usedKeys[i] in images && usedKeys[i] in refs && usedKeys[i] !in todo && used[i] == (images[usedKeys[i]], refs[usedKeys[i]]))
    && (forall i :: 0 <= i < |unused| ==>
         unusedKeys[i] in images && unusedKeys[i] !in refs && unusedKeys[i] !in todo && unused[i] == images[unusedKeys[i]])
    && (forall k :: k in images && k !in todo ==> k in usedKeys || k in unusedKeys)
    && (forall i, j :: 0 <= i < j < |unused| ==> unusedKeys[i] != unusedKeys[j])
    && |used| == |Done(images, refs, todo, true)| && |unused| == |Done(images, refs, todo, false)|
  }

  /** A referenced key moves from `todo` to `used`. */
  lemma UsedStep(images: map<string, string>, refs: map<string, seq<Path>>, todo: set<string>,
                 used: seq<(string, seq<Path>)>, unused: seq<string>,
                 usedKeys: seq<string>, unusedKeys: seq<string>, n: string)
    requires Handled(images, refs, todo, used, unused, usedKeys, unusedKeys)
    requires n in todo && n in refs
    ensures Handled(images, refs, todo - {n}, used + [(images[n], refs[n])], unused, usedKeys + [n], unusedKeys)
  {
    DoneStep(images, refs, todo, n);
    var used', usedKeys' := used + [(images[n], refs[n])], usedKeys + [n];
    assert forall i :: 0 <= i < |used| ==> used'[i] == used[i] && usedKeys'[i] == usedKeys[i];
  }

  /** An unreferenced key moves from `todo` to `unused`. */
  lemma UnusedStep(images: map<string, string>, refs: map<string, seq<Path>>, todo: set<string>,
                   used: seq<(string, seq<Path>)>, unused: seq<string>,
                   usedKeys: seq<string>, unusedKeys: seq<string>, n: string)
    requires Handled(images, refs, todo, used, unused, usedKeys, unusedKeys)
    requires n in todo && n in images && n !in refs
    ensures Handled(images, refs, todo - {n}, used, unused + [images[n]], usedKeys, unusedKeys + [n])
  {
    DoneStep(images, refs, todo, n);
    var unused', unusedKeys' := unused + [images[n]], unusedKeys + [n];
    assert forall i :: 0 <= i < |unused| ==> unused'[i] == unused[i] && unusedKeys'[i] == unusedKeys[i];
  }

  /** What the partition loop's invariant gives once every key is
      handled. */
  lemma PartitionDone(images: map<string, string>, refs: map<string, seq<Path>>,
                      used: seq<(string, seq<Path>)>, unused: seq<string>,
                      usedKeys: seq<string>, unusedKeys: seq<string>)
    requires Handled(images, refs, {}, used, unused, usedKeys, unusedKeys)
    ensures forall k :: k in images && k in refs ==> (images[k], refs[k]) in used
    ensures forall k :: k in images && k !in refs ==> images[k] in unused
    ensures forall e :: e in used ==> exists k :: k in images && k in refs && e == (images[k], refs[k])
    ensures forall n :: n in unused ==> exists k :: k in images && k !in refs && n == images[k]
    ensures Injective(images) ==> forall i, j :: 0 <= i < j < |unused| ==> unused[i] != unused[j]
  {
    forall k | k in images && k in refs ensures (images[k], refs[k]) in used {
      var i :| 0 <= i < |usedKeys| && usedKeys[i] == k;
      assert used[i] == (images[k], refs[k]);
    }
    forall k | k in images && k !in refs ensures images[k] in unused {
      var i :| 0 <= i < |unusedKeys| && unusedKeys[i] == k;
      assert unused[i] == images[k];
    }
    forall e | e in used ensures exists k :: k in images && k in refs && e == (images[k], refs[k]) {
      var i :| 0 <= i < |used| && used[i] == e;
      assert e == (images[usedKeys[i]], refs[usedKeys[i]]);
    }
    forall n | n in unused ensures exists k :: k in images && k !in refs && n == images[k] {
      var i :| 0 <= i < |unused| && unused[i] == n;
      assert n == images[unusedKeys[i]];
    }
    if Injective(images) {
      forall i, j | 0 <= i < j < |unused| ensures unused[i] != unused[j] {
        assert unusedKeys[i] != unusedKeys[j];
      }
    }
  }

  /** The keys the partition loop has handled, used or unused. */
  ghost function Done(images: map<string, string>, refs: map<string, seq<Path>>, todo: set<string>, inRefs: bool): set<string> {
    set k | k in images && k !in todo && (k in refs <==> inRefs)
  }

  /** Handling one more key adds it to one of the two sets. */
  lemma DoneStep(images: map<string, string>, refs: map<string, seq<Path>>, todo: set<string>, n: string)
    requires n in todo && n in images
    ensures n in refs ==> Done(images, refs, todo - {n}, true) == Done(images, refs, todo, true) + {n}
    ensures n in refs ==> Done(images, refs, todo - {n}, false) == Done(images, refs, todo, false)
    ensures n !in refs ==> Done(images, refs, todo - {n}, true) == Done(images, refs, todo, true)
    ensures n !in refs ==> Done(images, refs, todo - {n}, false) == Done(images, refs, todo, false) + {n}
    ensures n !in Done(images, refs, todo, true) && n !in Done(images, refs, todo, false)
  {
  }

  /** With nothing left to do, the two sets are the used and unused keys. */
  lemma DoneAll(images: map<string, string>, refs: map<string, seq<Path>>)
    ensures Done(images, refs, {}, true) == set k | k in images && k in refs
    ensures Done(images, refs, {}, false) == set k | k in images && k !in refs
  {
  }

  /** The key sets the partition counts are the inventory's keys that are
      referenced and those that are not. */
  lemma ReportSets(imgDirExists: bool, imgFiles: set<Path>, tree: Tree, extract: string -> seq<string>,
                   allImages: map<string, Path>, references: map<string, seq<Path>>)
    requires allImages.Keys == ImageKeys(imgDirExists, imgFiles)
    requires forall k :: k in references <==> exists p :: Refers(tree, extract, p, k)
    ensures (set k | k in allImages && k in references) ==
      set k | k in ImageKeys(imgDirExists, imgFiles) && Referenced(tree, extract, k)
    ensures (set k | k in allImages && k !in references) ==
      set k | k in ImageKeys(imgDirExists, imgFiles) && !Referenced(tree, extract, k)
  {
  }

  /** The unused names of an inventory keyed by normalised name have
      pairwise different keys. */
  lemma UnusedKeysDistinct(images: map<string, Path>, refs: map<string, seq<Path>>, unused: seq<Path>)
    requires forall k :: k in images ==> NormalizeFilename(images[k]) == k
    requires forall n :: n in unused ==> exists k :: k in images && k !in refs && n == images[k]
    requires Injective(images) ==> forall i, j :: 0 <= i < j < |unused| ==> unused[i] != unused[j]
    ensures forall i, j :: 0 <= i < j < |unused| ==> NormalizeFilename(unused[i]) != NormalizeFilename(unused[j])
  {
    forall k1, k2 | k1 in images && k2 in images && images[k1] == images[k2] ensures k1 == k2 {
      assert NormalizeFilename(images[k1]) == k1;
    }
    forall i, j | 0 <= i < j < |unused| ensures NormalizeFilename(unused[i]) != NormalizeFilename(unused[j]) {
      assert unused[i] in unused && unused[j] in unused;
      var k1 :| k1 in images && k1 !in refs && unused[i] == images[k1];
      var k2 :| k2 in images && k2 !in refs && unused[j] == images[k2];
    }
  }

  /** The three counts of the report. */
  datatype Report = Report(analysed: nat, inUse: nat, notUsed: nat)

  /** The whole analysis: the report counts the inventory's keys, those
      some file refers to and the others; `unused` holds one image per
      unreferenced key. */
  method Analyse(imgDirExists: bool, tree: Tree, imgFiles: set<Path>, extract: string -> seq<string>)
    returns (report: Report, unused: seq<Path>)
    ensures report.analysed == report.inUse + report.notUsed
    ensures report.analysed == |ImageKeys(imgDirExists, imgFiles)|
    ensures report.inUse == |set k | k in ImageKeys(imgDirExists, imgFiles) && Referenced(tree, extract, k)|
    ensures report.notUsed == |set k | k in ImageKeys(imgDirExists, imgFiles) && !Referenced(tree, extract, k)|
    ensures forall i, j :: 0 <= i < j < |unused| ==> NormalizeFilename(unused[i]) != NormalizeFilename(unused[j])
    ensures report.notUsed == |unused|
    ensures forall n :: n in unused ==> n in imgFiles && IsImage(n)
    ensures forall n :: n in unused ==> forall p :: !Refers(tree, extract, p, NormalizeFilename(n))
    ensures imgDirExists ==> forall r :: r in imgFiles && IsImage(r) && (forall q :: !Refers(tree, extract, q, NormalizeFilename(r))) ==>
      exists n :: n in unused && NormalizeFilename(n) == NormalizeFilename(r)
  {
    var references := CollectReferences(tree, extract);
    var allImages := GetAllImages(imgDirExists, imgFiles);
    var used;
    used, unused := Partition(allImages, references);
    report := Report(|allImages|, |used|, |unused|);
    ReportSets(imgDirExists, imgFiles, tree, extract, allImages, references);
    UnusedKeysDistinct(allImages, references, unused);
    forall r | imgDirExists && r in imgFiles && IsImage(r) && (forall q :: !Refers(tree, extract, q, NormalizeFilename(r)))
      ensures exists n :: n in unused && NormalizeFilename(n) == NormalizeFilename(r)
    {
      var k := NormalizeFilename(r);
      assert k !in references;
      assert allImages[k] in unused;
    }
  }
}
