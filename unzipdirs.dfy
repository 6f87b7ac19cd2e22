/** Model of unzipdirs.cpp: find the zip archives `depth` directory levels below the input
    directory, optionally skip those whose output directory exists, and extract the rest
    with a pool of workers, each archive into the directory named after it. */
module UnzipDirs {
  import opened FsModel
  import opened NestedLists
  import opened Filters
  import opened Workers

  // ---------------------------------------------------------------------------
  // list_zipfiles

  /** What `list_zipfiles(indir, depth)` returns for the directory `node` found at `path`:
      for a positive depth, the sorted sub-directories are searched with `depth - 1` and the
      results flattened in order; otherwise (zero or negative) the sorted entries whose
      extension is ".zip". Opening a plain file as a directory is the only error. */
  function ZipListing(node: Node, path: Path, depth: int): Result<seq<Path>>
    decreases node, 1
  {
    if node.File? then Err(NotADirectory(path))
    else if depth > 0 then
      var level := LevelList(node, Subdirs(false));
      LevelListSpec(node, Subdirs(false));
      match Collate(ZipEntries(node, level, path, depth - 1))
      case Err(e) => Err(e)
      case Ok(nested) => Ok(Flatten(nested))
    else Ok(PathsOf(path, LevelList(node, ZipArchives)))
  }

  /** The `std::transform` over the sub-directories of a level. */
  function ZipEntries(parent: Node, level: seq<Node>, path: Path, depth: int): (rs: seq<Result<seq<Path>>>)
    requires parent.Dir?
    requires forall c :: c in level ==> c in parent.children
    ensures |rs| == |level|
    decreases parent, 0, |level|
  {
    if level == [] then []
    else
      var c := level[|level| - 1];
      assert c in parent.children;
      ZipEntries(parent, level[..|level| - 1], path, depth) + [ZipListing(c, path + [c.name], depth)]
  }

  lemma {:induction false} ZipEntriesAt(parent: Node, level: seq<Node>, path: Path, depth: int, i: nat)
    requires parent.Dir?
    requires forall c :: c in level ==> c in parent.children
    requires i < |level|
    ensures ZipEntries(parent, level, path, depth)[i] == ZipListing(level[i], path + [level[i].name], depth)
    decreases |level|
  {
    var n := |level| - 1;
    if i < n {
      var front := level[..n];
      assert front[i] == level[i];
      ZipEntriesAt(parent, front, path, depth, i);
    }
  }

  /** The recursive case of the search, unfolded once. */
  lemma DeepZipListing(node: Node, path: Path, depth: int)
    requires node.Dir? && depth > 0
    ensures (LevelListSpec(node, Subdirs(false));
      var e := Collate(ZipEntries(node, LevelList(node, Subdirs(false)), path, depth - 1));
      ZipListing(node, path, depth) == if e.Ok? then Ok(Flatten(e.value)) else Err(e.error))
  {
  }

  /** Only directories are descended into, so searching a directory never fails. */
  lemma {:induction false} ZipListingNeverFails(node: Node, path: Path, depth: int)
    requires node.Dir?
    ensures ZipListing(node, path, depth).Ok?
    decreases node
  {
    if depth > 0 {
      var level := LevelList(node, Subdirs(false));
      LevelListSpec(node, Subdirs(false));
      var es := ZipEntries(node, level, path, depth - 1);
      forall i | 0 <= i < |es| ensures es[i].Ok? {
        var c := level[i];
        assert c in node.children;
        ZipEntriesAt(node, level, path, depth - 1, i);
        ZipListingNeverFails(c, path + [c.name], depth - 1);
      }
      CollateSpec(es);
      DeepZipListing(node, path, depth);
    }
  }

  /** The levels searched: `depth` when positive, and 0 otherwise. */
  function Levels(depth: int): nat
  {
    if depth > 0 then depth else 0
  }

  /** A search holds exactly the paths `Levels(depth) + 1` components below `path` that lead
      through sub-directories to an entry whose extension is ".zip" (a directory so named
      included). A negative depth searches like depth 0. */
  lemma {:induction false} ZipMembers(node: Node, path: Path, depth: int, r: seq<Path>)
    requires ZipListing(node, path, depth) == Ok(r)
    ensures forall q {:trigger q in r} :: q in r <==>
      (|q| == |path| + Levels(depth) + 1 && path <= q && Reachable(node, q[|path|..], ZipArchives))
    decreases node, 2
  {
    assert node.Dir?;
    if depth > 0 {
      var level := LevelList(node, Subdirs(false));
      LevelListSpec(node, Subdirs(false));
      var es := ZipEntries(node, level, path, depth - 1);
      DeepZipListing(node, path, depth);
      assert Collate(es).Ok?;
      CollateValues(es);
      var nested := Collate(es).value;
      assert r == Flatten(nested);
      ZipEntriesMembers(node, level, path, depth - 1, es, nested);
      DeepMembers(node, Subdirs(false), ZipArchives, level, path, depth, nested);
    } else {
      var level := LevelList(node, ZipArchives);
      LevelListSpec(node, ZipArchives);
      assert r == PathsOf(path, level);
      LevelMembers(node, ZipArchives, level, path);
    }
  }

  lemma ZipEntriesMembers(node: Node, level: seq<Node>, path: Path, depth: int,
                          es: seq<Result<seq<Path>>>, nested: seq<seq<Path>>)
    requires node.Dir? && depth >= 0
    requires forall c :: c in level ==> c in node.children
    requires es == ZipEntries(node, level, path, depth)
    requires |nested| == |es| && forall i :: 0 <= i < |es| ==> es[i] == Ok(nested[i])
    ensures forall i :: 0 <= i < |level| ==> forall q {:trigger q in nested[i]} :: q in nested[i] <==>
      (|q| == |path| + depth + 2 && path + [level[i].name] <= q &&
       Reachable(level[i], q[|path| + 1..], ZipArchives))
    decreases node, 1
  {
    forall i | 0 <= i < |level|
      ensures forall q {:trigger q in nested[i]} :: q in nested[i] <==>
        (|q| == |path| + depth + 2 && path + [level[i].name] <= q &&
         Reachable(level[i], q[|path| + 1..], ZipArchives))
    {
      var c := level[i];
      assert c in node.children;
      ZipEntriesAt(node, level, path, depth, i);
      ZipMembers(c, path + [c.name], depth, nested[i]);
    }
  }

  /** The last component of a path reaching an archive has the extension ".zip". */
  lemma {:induction false} ReachableArchive(node: Node, rel: seq<string>)
    requires Reachable(node, rel, ZipArchives)
    ensures |rel| > 0 && Extension(rel[|rel| - 1]) == ".zip"
    decreases node
  {
    var c :| c in node.children && c.name == rel[0] &&
             (if |rel| == 1 then Selected(ZipArchives, c) else c.Dir? && Reachable(c, rel[1..], ZipArchives));
    if |rel| > 1 {
      ReachableArchive(c, rel[1..]);
    }
  }

  /** Every path found lies strictly below the input directory. */
  lemma ZipListingBelow(node: Node, path: Path, depth: int, r: seq<Path>)
    requires ZipListing(node, path, depth) == Ok(r)
    ensures forall q :: q in r ==> path < q
  {
    ZipMembers(node, path, depth, r);
  }

  /** Every path found lies strictly below the input directory and names an archive. */
  lemma ZipFilesAreArchives(node: Node, path: Path, depth: int, r: seq<Path>)
    requires ZipListing(node, path, depth) == Ok(r)
    ensures forall q :: q in r ==> path < q && Extension(q[|q| - 1]) == ".zip"
  {
    ZipMembers(node, path, depth, r);
    forall q | q in r ensures path < q && Extension(q[|q| - 1]) == ".zip" {
      ReachableArchive(node, q[|path|..]);
    }
  }

  /** The search is in strictly increasing path order. */
  lemma {:induction false} ZipListingSorted(node: Node, path: Path, depth: int, r: seq<Path>)
    requires WellFormed(node) && ZipListing(node, path, depth) == Ok(r)
    ensures StrictlySorted(r)
    ensures forall q {:trigger q in r} :: q in r ==> path < q
    decreases node, 2
  {
    assert node.Dir?;
    if depth > 0 {
      var level := LevelList(node, Subdirs(false));
      LevelListSpec(node, Subdirs(false));
      var es := ZipEntries(node, level, path, depth - 1);
      DeepZipListing(node, path, depth);
      assert Collate(es).Ok?;
      CollateValues(es);
      var nested := Collate(es).value;
      assert r == Flatten(nested);
      ZipEntriesSorted(node, level, path, depth - 1, es, nested);
      FlattenSorted(path, level, nested);
    } else {
      var level := LevelList(node, ZipArchives);
      LevelListSpec(node, ZipArchives);
      assert r == PathsOf(path, level);
      PathsOfSorted(path, level);
    }
  }

  lemma ZipEntriesSorted(node: Node, level: seq<Node>, path: Path, depth: int,
                         es: seq<Result<seq<Path>>>, nested: seq<seq<Path>>)
    requires node.Dir? && WellFormed(node)
    requires forall c :: c in level ==> c in node.children
    requires es == ZipEntries(node, level, path, depth)
    requires |nested| == |es| && forall i :: 0 <= i < |es| ==> es[i] == Ok(nested[i])
    ensures forall i :: 0 <= i < |nested| ==> StrictlySorted(nested[i])
    ensures forall i, q :: 0 <= i < |nested| && q in nested[i] ==> path + [level[i].name] <= q
    decreases node, 1
  {
    forall i | 0 <= i < |nested|
      ensures StrictlySorted(nested[i])
      ensures forall q {:trigger q in nested[i]} :: q in nested[i] ==> path + [level[i].name] <= q
    {
      var c := level[i];
      assert c in node.children;
      ZipEntriesAt(node, level, path, depth, i);
      ZipListingSorted(c, path + [c.name], depth, nested[i]);
    }
  }

  /** The directory loop of the positive-depth case, then `std::sort`. */
  method ListDirectories(node: Node) returns (list: seq<Node>)
    requires node.Dir?
    ensures list == LevelList(node, Subdirs(false))
  {
    list := [];
    for i := 0 to |node.children|
      invariant list == Collect(node.children[..i], Subdirs(false))
    {
      var ent := node.children[i];
      assert node.children[..i + 1][..i] == node.children[..i];
      if ent.Dir? {
        list := list + [ent];
      }
    }
    assert node.children[..|node.children|] == node.children;
    list := SortByName(list);
  }

  /** The archive loop of the last level, then `std::sort`. */
  method ListArchives(node: Node) returns (list: seq<Node>)
    requires node.Dir?
    ensures list == LevelList(node, ZipArchives)
  {
    list := [];
    for i := 0 to |node.children|
      invariant list == Collect(node.children[..i], ZipArchives)
    {
      var ent := node.children[i];
      assert node.children[..i + 1][..i] == node.children[..i];
      if Extension(ent.name) == ".zip" {
        list := list + [ent];
      }
    }
    assert node.children[..|node.children|] == node.children;
    list := SortByName(list);
  }

  /** `list_zipfiles(indir, depth)`. */
  method ListZipfiles(node: Node, path: Path, depth: int) returns (r: Result<seq<Path>>)
    ensures r == ZipListing(node, path, depth)
    decreases node
  {
    if node.File? {
      return Err(NotADirectory(path));
    }
    if depth <= 0 {
      var list := ListArchives(node);
      return Ok(PathsOf(path, list));
    }
    var list := ListDirectories(node);
    LevelListSpec(node, Subdirs(false));
    ghost var es := ZipEntries(node, list, path, depth - 1);
    DeepZipListing(node, path, depth);
    var nested: seq<seq<Path>> := [];
    for i := 0 to |list|
      invariant Collate(es[..i]) == Ok(nested)
    {
      var c := list[i];
      assert c in node.children;
      var sub := ListZipfiles(c, path + [c.name], depth - 1);
      ZipEntriesAt(node, list, path, depth - 1, i);
      assert es[i] == sub;
      CollatePrefix(es, i);
      if sub.Err? {
        assert Collate(es[..i + 1]) == Err(sub.error);
        CollateStopsAtError(es, i + 1);
        assert Collate(es) == Err(sub.error);
        return Err(sub.error);
      }
      nested := nested + [sub.value];
    }
    assert es[..|list|] == es;
    assert Collate(es) == Ok(nested);
    var flat := FlattenNested(nested);
    return Ok(flat);
  }

  /** The search does not depend on the order in which any directory of the tree reports
      its entries. */
  lemma ZipListingIgnoresEntryOrder(n1: Node, n2: Node, path: Path, depth: int)
    requires WellFormed(n1) && WellFormed(n2) && SameEntries(n1, n2)
    ensures ZipListing(n1, path, depth) == ZipListing(n2, path, depth)
  {
    if n1.Dir? {
      ZipListingNeverFails(n1, path, depth);
      ZipListingNeverFails(n2, path, depth);
      var r1 := ZipListing(n1, path, depth).value;
      var r2 := ZipListing(n2, path, depth).value;
      ZipMembers(n1, path, depth, r1);
      ZipMembers(n2, path, depth, r2);
      forall q ensures q in r1 <==> q in r2 {
        if path <= q {
        SameEntriesReachable(n1, n2, q[|path|..], ZipArchives);
      }
      }
      ZipListingSorted(n1, path, depth, r1);
      ZipListingSorted(n2, path, depth, r2);
      SortedPathsUnique(r1, r2);
    }
  }

  // ---------------------------------------------------------------------------
  // input2output

  /** `(output_dir / input.lexically_relative(input_dir).replace_extension(""))`: the path of
      the input relative to the input directory, with the extension of its last component
      removed, placed under the output directory. The relative path of the input directory
      itself is ".". */
  function Input2Output(inDir: Path, outDir: Path, input: Path): Path
    requires inDir <= input
  {
    var rel := input[|inDir|..];
    if rel == [] then outDir + ["."]
    else outDir + rel[..|rel| - 1] + [Stem(rel[|rel| - 1])]
  }

  /** An archive `in/a/b.zip` found below `in` is extracted into `out/a/b`. */
  lemma Input2OutputExample()
    ensures Input2Output(["in"], ["out"], ["in", "a", "b.zip"]) == ["out", "a", "b"]
    ensures Input2Output(["in"], ["out"], ["in", "c.tar.zip"]) == ["out", "c.tar"]
  {
    assert ["in", "a", "b.zip"][1..] == ["a", "b.zip"];
    assert ["in", "c.tar.zip"][1..] == ["c.tar.zip"];
    assert "b.zip"[1] == '.';
    assert Stem("b.zip") == "b";
    assert "c.tar.zip"[5] == '.';
    assert Stem("c.tar.zip") == "c.tar";
  }

  /** An archive named "...zip" has the extension ".zip" and the stem "..", so its output
      path names the parent of its own directory below the output directory: `in/a/...zip`
      goes to `out/a/..`, which is `out` itself once resolved, and `in/...zip` to `out/..`,
      outside the output directory. */
  lemma DotDotArchive()
    ensures Extension("...zip") == ".zip" && Stem("...zip") == ".."
    ensures Input2Output(["in"], ["out"], ["in", "a", "...zip"]) == ["out", "a", ".."]
    ensures Input2Output(["in"], ["out"], ["in", "...zip"]) == ["out", ".."]
  {
    assert "...zip"[2] == '.' && "...zip"[3] != '.' && "...zip"[4] != '.' && "...zip"[5] != '.';
    assert LastDot("...zip") == Some(2);
    assert ["in", "a", "...zip"][1..] == ["a", "...zip"];
    assert ["in", "...zip"][1..] == ["...zip"];
  }

  /** The output of a path strictly below the input directory lies strictly below the output
      directory at the same depth, in the same sub-directories. */
  lemma Input2OutputShape(inDir: Path, outDir: Path, input: Path)
    requires inDir < input
    ensures var out := Input2Output(inDir, outDir, input);
      |out| == |outDir| + |input| - |inDir| && outDir < out &&
      out[|outDir|..|out| - 1] == input[|inDir|..|input| - 1] &&
      out[|out| - 1] == Stem(input[|input| - 1])
  {
  }

  /** Where an extracted archive came from: put the ".zip" back and move the path from
      below the output directory to below the input directory. */
  function Output2Input(inDir: Path, outDir: Path, out: Path): Path
    requires outDir < out
  {
    inDir + out[|outDir|..|out| - 1] + [out[|out| - 1] + ".zip"]
  }

  /** For an archive found below the input directory, the output path determines it. */
  lemma Input2OutputInverse(inDir: Path, outDir: Path, input: Path)
    requires inDir < input && Extension(input[|input| - 1]) == ".zip"
    ensures outDir < Input2Output(inDir, outDir, input)
    ensures Output2Input(inDir, outDir, Input2Output(inDir, outDir, input)) == input
  {
    var name := input[|input| - 1];
    StemExtension(name);
    Input2OutputShape(inDir, outDir, input);
    var out := Input2Output(inDir, outDir, input);
    assert input == inDir + input[|inDir|..|input| - 1] + [name];
  }

  /** Two different archives found below the input directory get different output paths.
      The paths are compared as written: a stem "." or ".." is not resolved (see
      DotDotArchive). */
  lemma Input2OutputInjective(inDir: Path, outDir: Path, a: Path, b: Path)
    requires inDir < a && Extension(a[|a| - 1]) == ".zip"
    requires inDir < b && Extension(b[|b| - 1]) == ".zip"
    requires Input2Output(inDir, outDir, a) == Input2Output(inDir, outDir, b)
    ensures a == b
  {
    Input2OutputInverse(inDir, outDir, a);
    Input2OutputInverse(inDir, outDir, b);
  }

  // ---------------------------------------------------------------------------
  // main

  /** The `--skip` predicate: the output directory of the archive already exists. */
  function OutputExists(inDir: Path, outDir: Path, onDisk: Path -> bool): Path -> bool
  {
    zf => inDir <= zf && onDisk(Input2Output(inDir, outDir, zf))
  }

  /** The `--skip` step: drop the archives whose output exists, in place, and count them. */
  method SkipExisting(inDir: Path, outDir: Path, zipfiles: seq<Path>, onDisk: Path -> bool)
    returns (kept: seq<Path>, skipped: nat)
    requires forall zf :: zf in zipfiles ==> inDir <= zf
    ensures kept == Keep(zipfiles, OutputExists(inDir, outDir, onDisk))
    ensures forall zf :: zf in kept <==> zf in zipfiles && !onDisk(Input2Output(inDir, outDir, zf))
    ensures skipped == |zipfiles| - |kept|
  {
    kept := EraseIf(zipfiles, OutputExists(inDir, outDir, onDisk));
    KeepMembers(zipfiles, OutputExists(inDir, outDir, onDisk));
    skipped := |zipfiles| - |kept|;
  }

  /** The `--dryrun` listing: every archive with the directory it would be extracted into. */
  function Plan(inDir: Path, outDir: Path, zipfiles: seq<Path>): (plan: seq<(Path, Path)>)
    requires forall i :: 0 <= i < |zipfiles| ==> inDir <= zipfiles[i]
    ensures |plan| == |zipfiles|
    ensures forall i :: 0 <= i < |zipfiles| ==> plan[i] == (zipfiles[i], Input2Output(inDir, outDir, zipfiles[i]))
  {
    seq(|zipfiles|, i requires 0 <= i < |zipfiles| => (zipfiles[i], Input2Output(inDir, outDir, zipfiles[i])))
  }

  /** Which job indices fail: `unzip` throws for the archive at that index. */
  function JobFails(zipfiles: seq<Path>, unzipFails: Path -> bool): nat -> bool
  {
    (i: nat) => i < |zipfiles| && unzipFails(zipfiles[i])
  }

  /** The number of workers: `--jobs`, or the number of cores when `--jobs` is not
      positive. */
  function Jobs(jobsArg: int, cores: nat): (jobs: nat)
    requires cores >= 1
    ensures jobs >= 1
  {
    if jobsArg <= 0 then cores else jobsArg
  }

  /** The pool fails exactly when some extraction fails. */
  lemma JobsReportFailures(jobsArg: int, cores: nat, zs: seq<Path>, unzipFails: Path -> bool)
    requires cores >= 1
    ensures PoolFailed(PoolSpec(Jobs(jobsArg, cores), |zs|, JobFails(zs, unzipFails))) <==>
      exists i :: 0 <= i < |zs| && unzipFails(zs[i])
  {
    PoolFailsIff(Jobs(jobsArg, cores), |zs|, JobFails(zs, unzipFails));
    if exists i :: 0 <= i < |zs| && unzipFails(zs[i]) {
      var i :| 0 <= i < |zs| && unzipFails(zs[i]);
      assert JobFails(zs, unzipFails)(i);
    }
  }

  /** What a run of the program did. `skipped` is the count `--skip` reports, `plan` what
      `--dryrun` lists, `runs` what each worker did. */
  datatype Outcome = Outcome(exit: int, skipped: Option<nat>, plan: seq<(Path, Path)>, runs: seq<WorkerRun>)

  /** The archives left to extract once the search succeeded. */
  function ToExtract(inDir: Path, outDir: Path, found: seq<Path>, skip: bool, onDisk: Path -> bool)
    : (zs: seq<Path>)
    ensures |zs| <= |found|
    ensures forall zf :: zf in zs ==> zf in found
  {
    KeepMembers(found, OutputExists(inDir, outDir, onDisk));
    if skip then Keep(found, OutputExists(inDir, outDir, onDisk)) else found
  }

  /** `--output`, or the input directory when it is not given. */
  function OutputDir(inDir: Path, outArg: Option<Path>): Path
  {
    if outArg.Some? then outArg.value else inDir
  }

  /** The specification of `main` once the archives are found: `--skip`, then nothing to do,
      `--dryrun`, or the workers, whose stored exception makes the exit code 1. */
  function ExtractRun(inDir: Path, outDir: Path, found: seq<Path>, jobsArg: int, cores: nat,
                      skip: bool, dryrun: bool, onDisk: Path -> bool, unzipFails: Path -> bool): Outcome
    requires forall zf :: zf in found ==> inDir <= zf
    requires cores >= 1
  {
    var zs := ToExtract(inDir, outDir, found, skip, onDisk);
    assert forall i :: 0 <= i < |zs| ==> zs[i] in found;
    var skipped: Option<nat> := if skip then Some(|found| - |zs|) else None;
    if zs == [] then Outcome(0, skipped, [], [])
    else if dryrun then Outcome(0, skipped, Plan(inDir, outDir, zs), [])
    else
      var runs := PoolSpec(Jobs(jobsArg, cores), |zs|, JobFails(zs, unzipFails));
      Outcome(if PoolFailed(runs) then 1 else 0, skipped, [], runs)
  }

  /** The specification of `main` after argument parsing: an error of the search is
      reported with 1. */
  function UnzipDirsRun(root: Node, inDir: Path, outArg: Option<Path>, depth: int, jobsArg: int,
                        cores: nat, skip: bool, dryrun: bool, onDisk: Path -> bool,
                        unzipFails: Path -> bool): Outcome
    requires cores >= 1
  {
    match ZipListing(root, inDir, depth)
    case Err(_) => Outcome(1, None, [], [])
    case Ok(found) =>
      ZipListingBelow(root, inDir, depth, found);
      ExtractRun(inDir, OutputDir(inDir, outArg), found, jobsArg, cores, skip, dryrun, onDisk, unzipFails)
  }

  /** `main` from the `--skip` step on (unzipdirs.cpp, lines 110 to 179). */
  method Extract(inDir: Path, outDir: Path, found: seq<Path>, jobsArg: int, cores: nat,
                 skip: bool, dryrun: bool, onDisk: Path -> bool, unzipFails: Path -> bool)
    returns (o: Outcome)
    requires forall zf :: zf in found ==> inDir <= zf
    requires cores >= 1
    ensures o == ExtractRun(inDir, outDir, found, jobsArg, cores, skip, dryrun, onDisk, unzipFails)
  {
    var zipfiles := found;
    var skipped: Option<nat> := None;
    if skip {
      var count;
      zipfiles, count := SkipExisting(inDir, outDir, zipfiles, onDisk);
      skipped := Some(count);
    }
    assert zipfiles == ToExtract(inDir, outDir, found, skip, onDisk);
    assert forall i :: 0 <= i < |zipfiles| ==> zipfiles[i] in found;
    if zipfiles == [] {
      return Outcome(0, skipped, [], []);
    }
    if dryrun {
      return Outcome(0, skipped, Plan(inDir, outDir, zipfiles), []);
    }
    var runs, failed := RunPool(Jobs(jobsArg, cores), |zipfiles|, JobFails(zipfiles, unzipFails));
    return Outcome(if failed then 1 else 0, skipped, [], runs);
  }

  /** `main` after argument parsing, with the existence of outputs given by `onDisk` and the
      failure of `unzip` on an archive by `unzipFails`. */
  method UnzipDirsMain(root: Node, inDir: Path, outArg: Option<Path>, depth: int, jobsArg: int,
                       cores: nat, skip: bool, dryrun: bool, onDisk: Path -> bool,
                       unzipFails: Path -> bool)
    returns (o: Outcome)
    requires cores >= 1
    ensures o == UnzipDirsRun(root, inDir, outArg, depth, jobsArg, cores, skip, dryrun, onDisk, unzipFails)
  {
    var listing := ListZipfiles(root, inDir, depth);
    if listing.Err? {
      return Outcome(1, None, [], []);
    }
    ZipListingBelow(root, inDir, depth, listing.value);
    var outDir := OutputDir(inDir, outArg);
    o := Extract(inDir, outDir, listing.value, jobsArg, cores, skip, dryrun, onDisk, unzipFails);
  }

  /** The exit code once the archives are found: 1 exactly when archives are to be
      extracted (no `--dryrun`, something left after `--skip`) and the extraction of one of
      them fails; 0 otherwise. */
  lemma ExtractExit(inDir: Path, outDir: Path, found: seq<Path>, jobsArg: int, cores: nat,
                    skip: bool, dryrun: bool, onDisk: Path -> bool, unzipFails: Path -> bool)
    requires forall zf :: zf in found ==> inDir <= zf
    requires cores >= 1
    ensures var o := ExtractRun(inDir, outDir, found, jobsArg, cores, skip, dryrun, onDisk, unzipFails);
      var zs := ToExtract(inDir, outDir, found, skip, onDisk);
      (o.exit == 0 || o.exit == 1) &&
      (o.exit == 1 <==> !dryrun && exists i :: 0 <= i < |zs| && unzipFails(zs[i]))
  {
    var zs := ToExtract(inDir, outDir, found, skip, onDisk);
    JobsReportFailures(jobsArg, cores, zs, unzipFails);
  }

  /** The whole program exits with 1 exactly when the search fails or an extraction does. */
  lemma UnzipDirsExit(root: Node, inDir: Path, outArg: Option<Path>, depth: int, jobsArg: int,
                      cores: nat, skip: bool, dryrun: bool, onDisk: Path -> bool,
                      unzipFails: Path -> bool)
    requires cores >= 1
    ensures var o := UnzipDirsRun(root, inDir, outArg, depth, jobsArg, cores, skip, dryrun, onDisk, unzipFails);
      var listing := ZipListing(root, inDir, depth);
      (o.exit == 0 || o.exit == 1) &&
      (o.exit == 1 <==>
        listing.Err? ||
        (var zs := ToExtract(inDir, OutputDir(inDir, outArg), listing.value, skip, onDisk);
         !dryrun && exists i :: 0 <= i < |zs| && unzipFails(zs[i])))
  {
    var listing := ZipListing(root, inDir, depth);
    if listing.Ok? {
      ZipListingBelow(root, inDir, depth, listing.value);
      ExtractExit(inDir, OutputDir(inDir, outArg), listing.value, jobsArg, cores, skip, dryrun, onDisk, unzipFails);
    }
  }

  /** Workers are started only when archives are left to extract and `--dryrun` is not set;
      `--dryrun` lists every archive left with its output directory; `--skip` reports how
      many archives it dropped, and keeps exactly those whose output directory does not
      exist, in search order. */
  lemma ExtractWork(inDir: Path, outDir: Path, found: seq<Path>, jobsArg: int, cores: nat,
                    skip: bool, dryrun: bool, onDisk: Path -> bool, unzipFails: Path -> bool)
    requires forall zf :: zf in found ==> inDir <= zf
    requires cores >= 1
    ensures var o := ExtractRun(inDir, outDir, found, jobsArg, cores, skip, dryrun, onDisk, unzipFails);
      var zs := ToExtract(inDir, outDir, found, skip, onDisk);
      (o.runs != [] <==> zs != [] && !dryrun) &&
      (dryrun ==> |o.plan| == |zs|) &&
      (dryrun ==> forall i :: 0 <= i < |zs| ==>
        zs[i] in found && o.plan[i].0 == zs[i] && o.plan[i].1 == Input2Output(inDir, outDir, zs[i])) &&
      (!skip ==> zs == found && o.skipped.None?) &&
      (skip ==> o.skipped == Some(|found| - |zs|)) &&
      (skip ==> forall zf :: zf in zs <==> zf in found && !onDisk(Input2Output(inDir, outDir, zf)))
  {
    KeepMembers(found, OutputExists(inDir, outDir, onDisk));
  }

  // ---------------------------------------------------------------------------
  // The extraction jobs

  /** When no extraction fails, every archive is attempted by its worker. */
  lemma ArchiveAttempted(zs: seq<Path>, jobs: nat, unzipFails: Path -> bool, i: nat)
    requires jobs >= 1 && i < |zs|
    requires forall j :: 0 <= j < |zs| ==> !unzipFails(zs[j])
    ensures i in WorkerSpec(i % jobs, jobs, |zs|, JobFails(zs, unzipFails)).attempted
  {
    var f := JobFails(zs, unzipFails);
    assert forall j :: 0 <= j < |zs| ==> !f(j);
    AllAttemptedWithoutFailure(jobs, |zs|, f, i);
  }

  /** The archives of a search get pairwise different output paths, compared as written
      (a stem ".." is not resolved, see DotDotArchive). */
  lemma DistinctOutputs(inDir: Path, outDir: Path, zs: seq<Path>, i: nat, j: nat)
    requires forall zf :: zf in zs ==> inDir < zf && Extension(zf[|zf| - 1]) == ".zip"
    requires StrictlySorted(zs) && i < j < |zs|
    ensures Input2Output(inDir, outDir, zs[i]) != Input2Output(inDir, outDir, zs[j])
  {
    assert zs[i] in zs && zs[j] in zs;
    if Input2Output(inDir, outDir, zs[i]) == Input2Output(inDir, outDir, zs[j]) {
      Input2OutputInjective(inDir, outDir, zs[i], zs[j]);
      PathLtIrreflexive(zs[i]);
      assert false;
    }
  }
}
