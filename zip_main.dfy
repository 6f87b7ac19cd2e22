/** Model of main.cpp: the older, directories-only `list_subdirs(indir, depth)` and the
    `main` around it, which lists the sub-directories and, for `--dryrun`, prints them. */
module ZipMain {
  import opened FsModel
  import opened NestedLists
  import opened Szkarc

  /** `list_subdirs(indir, depth)` on a directory. Only directories are collected, so no
      recursive call can reach `directory_iterator` on a plain file and the listing below a
      directory never fails; it is the directories-only case of the listing of szkarc.cpp. */
  method ListDirsBelow(node: Node, path: Path, depth: int) returns (dirs: seq<Path>)
    requires node.Dir?
    ensures SubdirListing(node, path, depth, false) == Ok(dirs)
    decreases node
  {
    var list := CollectEntries(node, false);
    LevelListSelected(node, Subdirs(false));
    if depth == 0 {
      return PathsOf(path, list);
    }
    ghost var es := Entries(node, list, path, depth - 1, false);
    var subdirs: seq<seq<Path>> := [];
    for i := 0 to |list|
      invariant Collate(es[..i]) == Ok(subdirs)
    {
      var c := list[i];
      assert c in node.children;
      assert c.Dir?;
      var sub := ListDirsBelow(c, path + [c.name], depth - 1);
      EntriesAt(node, list, path, depth - 1, false, i);
      CollateStep(es, i, subdirs);
      subdirs := subdirs + [sub];
    }
    assert es[..|list|] == es;
    DeepListing(node, path, depth, false);
    dirs := FlattenNested(subdirs);
  }

  /** `list_subdirs(indir, depth)` on whatever `indir` names: a plain file makes the
      `directory_iterator` throw. */
  method ListDirs(node: Node, path: Path, depth: int) returns (r: Result<seq<Path>>)
    ensures r == SubdirListing(node, path, depth, false)
  {
    if node.File? {
      return Err(NotADirectory(path));
    }
    var dirs := ListDirsBelow(node, path, depth);
    return Ok(dirs);
  }

  /** What `main` does: the exit code and the lines printed on standard output. */
  datatype ZipOutcome = ZipOutcome(exit: int, printed: seq<Path>)

  /** `main` once the arguments are parsed: list the sub-directories of the input; a
      `filesystem_error` is caught and gives 1; a dry run prints the listing and returns 0;
      otherwise control leaves the `try` block and `main` returns 0 having done nothing
      more. */
  function ZipMainRun(root: Node, inDir: Path, depth: int, dryrun: bool): ZipOutcome
  {
    match SubdirListing(root, inDir, depth, false)
    case Err(_) => ZipOutcome(1, [])
    case Ok(dirs) => ZipOutcome(0, if dryrun then dirs else [])
  }

  /** The body of `main` after argument parsing. */
  method RunZipMain(root: Node, inDir: Path, depth: int, dryrun: bool) returns (o: ZipOutcome)
    ensures o == ZipMainRun(root, inDir, depth, dryrun)
  {
    var dirs := ListDirs(root, inDir, depth);
    if dirs.Err? {
      return ZipOutcome(1, []);
    }
    if dryrun {
      var printed: seq<Path> := [];
      for i := 0 to |dirs.value|
        invariant printed == dirs.value[..i]
      {
        printed := printed + [dirs.value[i]];
      }
      return ZipOutcome(0, printed);
    }
    return ZipOutcome(0, []);
  }

  // ---------------------------------------------------------------------------
  // Properties of the run

  /** `main` fails exactly when the input is not a directory; it prints only on a dry run
      that succeeds. */
  lemma ZipMainExit(root: Node, inDir: Path, depth: int, dryrun: bool)
    ensures var o := ZipMainRun(root, inDir, depth, dryrun);
      (o.exit == 0 || o.exit == 1) && (o.exit == 1 <==> root.File?) &&
      (o.exit == 1 || !dryrun ==> o.printed == [])
  {
    if root.Dir? {
      DirectoriesOnlyNeverFails(root, inDir, depth);
    }
  }

  /** A dry run on a directory prints, in strictly increasing path order, exactly the
      directories `depth + 1` levels below the input, and nothing for a negative depth. */
  lemma DryRunPrintsListing(root: Node, inDir: Path, depth: int)
    requires root.Dir? && WellFormed(root)
    ensures ZipMainRun(root, inDir, depth, true).exit == 0
    ensures var p := ZipMainRun(root, inDir, depth, true).printed;
      StrictlySorted(p) &&
      (depth < 0 ==> p == []) &&
      (depth >= 0 ==> forall q {:trigger q in p} :: q in p <==>
        (|q| == |inDir| + depth + 1 && inDir <= q && Reachable(root, q[|inDir|..], Subdirs(false))))
  {
    DirectoriesOnlyNeverFails(root, inDir, depth);
    var dirs := SubdirListing(root, inDir, depth, false).value;
    ListingSorted(root, inDir, depth, false, dirs);
    if depth < 0 {
      NegativeDepthEmpty(root, inDir, depth, false, dirs);
    } else {
      ListingMembers(root, inDir, depth, false, dirs);
    }
  }
}
