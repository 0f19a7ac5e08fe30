/** scripts/delete_unused_images_safe.py: the same reference collection as
    the report script, kept as a set of keys; then every image file whose
    key is not referenced is deleted, after an interactive confirmation. */
module DeleteUnusedImages {
  import opened Strings
  import opened Paths
  import opened ImageNames
  import opened FindUnusedImages

  /** `collect_image_references`: the keys referred to by some page,
      stylesheet or script. */
  method CollectReferenceSet(tree: Tree, extract: string -> seq<string>) returns (references: set<string>)
    ensures forall k :: k in references <==> exists p :: Refers(tree, extract, p, k)
  {
    references := {};
    var searched := set p | p in tree && IsSearched(p);
    var todo := searched;
    while todo != {}
      invariant todo <= searched <= tree.Keys
      invariant GatheredFrom(tree, extract, searched - todo, references)
      decreases todo
    {
      var p :| p in todo;
      var references' := AddKeys(references, CaptureKeys(extract(tree[p])));
      GatherStep(tree, extract, searched, todo, references, p, references');
      references, todo := references', todo - {p};
    }
    GatheredAll(tree, extract, searched, todo, references);
  }

  /** The keys in `references` are exactly those found in the files of
      `done`. */
  ghost predicate GatheredFrom(tree: Tree, extract: string -> seq<string>, done: set<Path>, references: set<string>)
    requires done <= tree.Keys
  {
    forall k :: k in references <==> exists q :: q in done && k in KeysIn(extract(tree[q]))
  }

  /** Scanning one more searched file adds exactly its keys. */
  lemma GatherStep(tree: Tree, extract: string -> seq<string>, searched: set<Path>, todo: set<Path>,
                   references: set<string>, p: Path, references': set<string>)
    requires todo <= searched <= tree.Keys && p in todo
    requires GatheredFrom(tree, extract, searched - todo, references)
    requires references' == references + KeysIn(extract(tree[p]))
    ensures GatheredFrom(tree, extract, searched - (todo - {p}), references')
  {
    var done := searched - todo;
    assert searched - (todo - {p}) == done + {p};
    forall k | k in references' ensures exists q :: q in done + {p} && k in KeysIn(extract(tree[q])) {
      if k !in references {
        assert p in done + {p};
      }
    }
  }

  /** Once every searched file is scanned, the keys are exactly those some
      searched file refers to. */
  lemma GatheredAll(tree: Tree, extract: string -> seq<string>, searched: set<Path>, todo: set<Path>,
                    references: set<string>)
    requires searched == set p | p in tree && IsSearched(p)
    requires todo <= searched && todo == {}
    requires GatheredFrom(tree, extract, searched - todo, references)
    ensures forall k :: k in references <==> exists p :: Refers(tree, extract, p, k)
  {
    assert searched - todo == searched;
    forall k | k in references ensures exists p :: Refers(tree, extract, p, k) {
      var q :| q in searched && k in KeysIn(extract(tree[q]));
      assert Refers(tree, extract, q, k);
    }
  }

  /** The inner loop of `collect_image_references`: every key found is
      added. `keys` holds the key of each capture of one file. */
  method AddKeys(references0: set<string>, keys: seq<Option<string>>) returns (references: set<string>)
    ensures references == references0 + Found(keys)
  {
    references := references0;
    assert keys[..0] == [];
    for j := 0 to |keys|
      invariant references == references0 + Found(keys[..j])
    {
      assert keys[..j + 1][..j] == keys[..j] && keys[..j + 1][j] == keys[j];
      if keys[j].Some? {
        references := references + {keys[j].value};
      }
    }
    assert keys[..|keys|] == keys;
  }

  /** The image files no file refers to: what the script offers to
      delete. */
  ghost function Unreferenced(tree: Tree, extract: string -> seq<string>, imgFiles: set<Path>): set<Path> {
    set r | r in imgFiles && IsImage(r) && forall p :: !Refers(tree, extract, p, NormalizeFilename(r))
  }

  /** The selection loop of `main`: the image files whose key is not among
      the references. */
  method SelectUnused(imgFiles: set<Path>, references: set<string>) returns (unused: set<Path>)
    ensures forall r :: r in unused <==> r in imgFiles && IsImage(r) && NormalizeFilename(r) !in references
  {
    var candidates := set r | r in imgFiles && IsImage(r);
    unused := Unkeyed(candidates, NormalizeFilename, references);
  }

  /** The files whose key is not in `references`; `key` is the
      normaliser. */
  method Unkeyed(files: set<Path>, key: Path -> string, references: set<string>) returns (unused: set<Path>)
    ensures forall r :: r in unused <==> r in files && key(r) !in references
  {
    unused := {};
    var todo := files;
    while todo != {}
      invariant todo <= files
      invariant forall r :: r in unused <==> r in files && r !in todo && key(r) !in references
      decreases todo
    {
      var imgPath :| imgPath in todo;
      var normalized := key(imgPath);
      if normalized !in references {
        unused := unused + {imgPath};
      }
      todo := todo - {imgPath};
    }
  }

  /** The answer confirms the deletion: `input().strip().lower() == 's'`. */
  predicate Confirmed(answer: string) {
    Lower(Strip(answer)) == "s"
  }

  /** Only a lone `s` or `S`, whitespace around it aside, confirms. */
  lemma ConfirmedIff(answer: string)
    ensures Confirmed(answer) <==> Strip(answer) == "s" || Strip(answer) == "S"
  {
    var t := Strip(answer);
    if Confirmed(answer) {
      assert |t| == 1 && LowerChar(t[0]) == 's';
      assert t == [t[0]];
    }
  }

  /** The deletion loop: every target is unlinked once; `fails` holds the
      targets whose unlink raises. */
  method DeleteEach(files: set<Path>, targets: set<Path>, fails: set<Path>)
    returns (remaining: set<Path>, deleted: nat, errors: nat)
    ensures remaining == files - (targets - fails)
    ensures deleted == |targets - fails| && errors == |targets * fails|
    ensures deleted + errors == |targets|
  {
    remaining, deleted, errors := files, 0, 0;
    ghost var gone: set<Path> := {};
    ghost var failed: set<Path> := {};
    var todo := targets;
    while todo != {}
      invariant todo <= targets
      invariant forall x :: x in gone <==> x in targets && x !in todo && x !in fails
      invariant forall x :: x in failed <==> x in targets && x !in todo && x in fails
      invariant remaining == files - gone
      invariant deleted == |gone| && errors == |failed|
      invariant deleted + errors + |todo| == |targets|
      decreases todo
    {
      var imgPath :| imgPath in todo;
      assert imgPath !in gone && imgPath !in failed;
      if imgPath !in fails {
        remaining := remaining - {imgPath};
        deleted := deleted + 1;
        gone := gone + {imgPath};
      } else {
        errors := errors + 1;
        failed := failed + {imgPath};
      }
      todo := todo - {imgPath};
    }
    assert gone == targets - fails && failed == targets * fails;
  }

  /** How a run ends. */
  datatype Outcome = MissingDir | NothingUnused | Cancelled | Completed(deleted: nat, errors: nat)

  /** `main`: `answer` is the line typed at the prompt and `fails` the files
      whose unlink raises; the result is the new set of files below `img/`. */
  method Run(tree: Tree, extract: string -> seq<string>, imgDirExists: bool, imgFiles: set<Path>,
             answer: string, fails: set<Path>)
    returns (outcome: Outcome, remaining: set<Path>)
    ensures !imgDirExists ==> outcome == MissingDir && remaining == imgFiles
    ensures imgDirExists && Unreferenced(tree, extract, imgFiles) == {} ==>
      outcome == NothingUnused && remaining == imgFiles
    ensures imgDirExists && Unreferenced(tree, extract, imgFiles) != {} && !Confirmed(answer) ==>
      outcome == Cancelled && remaining == imgFiles
    ensures imgDirExists && Unreferenced(tree, extract, imgFiles) != {} && Confirmed(answer) ==>
      var gone := Unreferenced(tree, extract, imgFiles);
      outcome == Completed(|gone - fails|, |gone * fails|) && remaining == imgFiles - (gone - fails)
  {
    var references := CollectReferenceSet(tree, extract);
    remaining := imgFiles;
    if !imgDirExists {
      return MissingDir, remaining;
    }
    var unusedImages := SelectUnused(imgFiles, references);
    assert unusedImages == Unreferenced(tree, extract, imgFiles);
    if unusedImages == {} {
      return NothingUnused, remaining;
    }
    var reply := Lower(Strip(answer));
    if reply != "s" {
      return Cancelled, remaining;
    }
    var deleted, errors;
    remaining, deleted, errors := DeleteEach(imgFiles, unusedImages, fails);
    outcome := Completed(deleted, errors);
  }

  /** A referenced image survives every run. */
  lemma ReferencedSurvives(tree: Tree, extract: string -> seq<string>, imgFiles: set<Path>, fails: set<Path>, r: Path, p: Path)
    requires r in imgFiles && Refers(tree, extract, p, NormalizeFilename(r))
    ensures r in imgFiles - (Unreferenced(tree, extract, imgFiles) - fails)
  {
  }
}
