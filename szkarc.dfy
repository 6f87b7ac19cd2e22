/** Model of `list_subdirs(indir, depth, include_files)` (szkarc.cpp): list one directory
    level, sort it, and either return it (depth 0) or recurse into every entry with
    `depth - 1` and flatten the results in level order. */
module Szkarc {
  import opened FsModel
  import opened NestedLists

  /** What `list_subdirs` returns for the directory `node` found at `path`; an `Err` is the
      `filesystem_error` thrown when `directory_iterator` is opened on a plain file. The
      code never compares `depth` with 0 other than for equality, so a negative depth
      recurses until the tree runs out. */
  function SubdirListing(node: Node, path: Path, depth: int, includeFiles: bool): Result<seq<Path>>
    decreases node, 1
  {
    if node.File? then Err(NotADirectory(path))
    else
      var level := LevelList(node, Subdirs(includeFiles));
      LevelListSpec(node, Subdirs(includeFiles));
      if depth == 0 then Ok(PathsOf(path, level))
      else match Collate(Entries(node, level, path, depth - 1, includeFiles))
        case Err(e) => Err(e)
        case Ok(nested) => Ok(Flatten(nested))
  }

  /** The `std::transform` over a level: the listing of every entry of `level` (children of
      `parent`), each at its own path below `path`, in level order. */
  function Entries(parent: Node, level: seq<Node>, path: Path, depth: int, includeFiles: bool)
    : (rs: seq<Result<seq<Path>>>)
    requires parent.Dir?
    requires forall c :: c in level ==> c in parent.children
    ensures |rs| == |level|
    decreases parent, 0, |level|
  {
    if level == [] then []
    else
      var c := level[|level| - 1];
      assert c in parent.children;
      Entries(parent, level[..|level| - 1], path, depth, includeFiles) +
        [SubdirListing(c, path + [c.name], depth, includeFiles)]
  }

  /** Entry i of the transform is the listing of the i-th entry of the level. */
  lemma {:induction false} EntriesAt(parent: Node, level: seq<Node>, path: Path, depth: int,
                                     includeFiles: bool, i: nat)
    requires parent.Dir?
    requires forall c :: c in level ==> c in parent.children
    requires i < |level|
    ensures Entries(parent, level, path, depth, includeFiles)[i] ==
            SubdirListing(level[i], path + [level[i].name], depth, includeFiles)
    decreases |level|
  {
    var n := |level| - 1;
    if i < n {
      var front := level[..n];
      assert front[i] == level[i];
      EntriesAt(parent, front, path, depth, includeFiles, i);
    }
  }

  /** The parent only bounds the recursion: two parents holding the entries of a level give
      the same transform of it. */
  lemma {:induction false} EntriesParentIrrelevant(p1: Node, p2: Node, level: seq<Node>, path: Path,
                                                   depth: int, includeFiles: bool)
    requires p1.Dir? && p2.Dir?
    requires forall c :: c in level ==> c in p1.children && c in p2.children
    ensures Entries(p1, level, path, depth, includeFiles) == Entries(p2, level, path, depth, includeFiles)
    decreases |level|
  {
    if level != [] {
      EntriesParentIrrelevant(p1, p2, level[..|level| - 1], path, depth, includeFiles);
    }
  }

  /** The recursive case of the listing, unfolded once. */
  lemma DeepListing(node: Node, path: Path, depth: int, includeFiles: bool)
    requires node.Dir? && depth != 0
    ensures (LevelListSpec(node, Subdirs(includeFiles));
      var e := Collate(Entries(node, LevelList(node, Subdirs(includeFiles)), path, depth - 1, includeFiles));
      SubdirListing(node, path, depth, includeFiles) == if e.Ok? then Ok(Flatten(e.value)) else Err(e.error))
  {
  }

  // ---------------------------------------------------------------------------
  // Properties of the listing

  /** Depth 0: the sorted current level itself, holding every directory child and the plain
      files only when `includeFiles` is set. */
  lemma DepthZeroListsLevel(node: Node, path: Path, includeFiles: bool)
    requires node.Dir? && WellFormed(node)
    ensures SubdirListing(node, path, 0, includeFiles).Ok?
    ensures var q := SubdirListing(node, path, 0, includeFiles).value;
      StrictlySorted(q) &&
      (forall c :: c in node.children ==> (path + [c.name] in q <==> c.Dir? || includeFiles)) &&
      (forall p :: p in q ==> |p| == |path| + 1 && path <= p)
  {
    var level := LevelList(node, Subdirs(includeFiles));
    LevelListSpec(node, Subdirs(includeFiles));
    var q := PathsOf(path, level);
    assert SubdirListing(node, path, 0, includeFiles) == Ok(q);
    PathsOfSorted(path, level);
    forall c | c in node.children ensures path + [c.name] in q <==> c.Dir? || includeFiles {
      if c.Dir? || includeFiles {
        var i :| 0 <= i < |level| && level[i] == c;
        assert q[i] == path + [c.name];
      }
      if path + [c.name] in q {
        var i :| 0 <= i < |q| && q[i] == path + [c.name];
        assert [c.name] == q[i][|path|..] == [level[i].name];
        assert level[i] in level;
        var a :| 0 <= a < |node.children| && node.children[a] == c;
        var b :| 0 <= b < |node.children| && node.children[b] == level[i];
        assert a == b;
      }
    }
  }

  /** For a depth d >= 0, a successful listing holds exactly the paths d + 1 components
      below `path` that lead through sub-directories to an entry of the last level kept. */
  lemma {:induction false} ListingMembers(node: Node, path: Path, depth: int, includeFiles: bool,
                                          r: seq<Path>)
    requires depth >= 0 && SubdirListing(node, path, depth, includeFiles) == Ok(r)
    ensures forall q {:trigger q in r} :: q in r <==>
      (|q| == |path| + depth + 1 && path <= q && Reachable(node, q[|path|..], Subdirs(includeFiles)))
    decreases node, 3
  {
    assert node.Dir?;
    if depth == 0 {
      var sel := Subdirs(includeFiles);
      var level := LevelList(node, sel);
      LevelListSpec(node, sel);
      assert r == PathsOf(path, level);
      LevelMembers(node, sel, level, path);
    } else {
      DeepListingMembers(node, path, depth, includeFiles, r);
    }
  }

  /** The recursive case of ListingMembers. */
  lemma DeepListingMembers(node: Node, path: Path, depth: int, includeFiles: bool, r: seq<Path>)
    requires depth > 0 && node.Dir? && SubdirListing(node, path, depth, includeFiles) == Ok(r)
    ensures forall q {:trigger q in r} :: q in r <==>
      (|q| == |path| + depth + 1 && path <= q && Reachable(node, q[|path|..], Subdirs(includeFiles)))
    decreases node, 2
  {
    var sel := Subdirs(includeFiles);
    var level := LevelList(node, sel);
    LevelListSelected(node, sel);
    var es := Entries(node, level, path, depth - 1, includeFiles);
    DeepListing(node, path, depth, includeFiles);
    assert Collate(es).Ok?;
    CollateValues(es);
    var nested := Collate(es).value;
    assert r == Flatten(nested);
    EntriesMembers(node, level, path, depth - 1, includeFiles, es, nested);
    DeepMembers(node, sel, sel, level, path, depth, nested);
  }

  /** ListingMembers for every entry of a level, each at its own path. */
  lemma EntriesMembers(node: Node, level: seq<Node>, path: Path, depth: int, includeFiles: bool,
                       es: seq<Result<seq<Path>>>, nested: seq<seq<Path>>)
    requires node.Dir? && depth >= 0
    requires forall c :: c in level ==> c in node.children
    requires es == Entries(node, level, path, depth, includeFiles)
    requires |nested| == |es| && forall i :: 0 <= i < |es| ==> es[i] == Ok(nested[i])
    ensures forall i :: 0 <= i < |level| ==> forall q {:trigger q in nested[i]} :: q in nested[i] <==>
      (|q| == |path| + depth + 2 && path + [level[i].name] <= q &&
       Reachable(level[i], q[|path| + 1..], Subdirs(includeFiles)))
    decreases node, 1
  {
    forall i | 0 <= i < |level|
      ensures forall q {:trigger q in nested[i]} :: q in nested[i] <==>
        (|q| == |path| + depth + 2 && path + [level[i].name] <= q &&
         Reachable(level[i], q[|path| + 1..], Subdirs(includeFiles)))
    {
      var c := level[i];
      assert c in node.children;
      EntriesAt(node, level, path, depth, includeFiles, i);
      ListingMembers(c, path + [c.name], depth, includeFiles, nested[i]);
    }
  }

  /** Every successful listing is in strictly increasing path order and lies below `path`:
      the flattened deep listing is sorted although only each level is sorted. */
  lemma {:induction false} ListingSorted(node: Node, path: Path, depth: int, includeFiles: bool,
                                         r: seq<Path>)
    requires WellFormed(node) && SubdirListing(node, path, depth, includeFiles) == Ok(r)
    ensures StrictlySorted(r)
    ensures forall q {:trigger q in r} :: q in r ==> path < q
    decreases node, 2
  {
    assert node.Dir?;
    var level := LevelList(node, Subdirs(includeFiles));
    LevelListSpec(node, Subdirs(includeFiles));
    if depth == 0 {
      assert r == PathsOf(path, level);
      PathsOfSorted(path, level);
    } else {
      var es := Entries(node, level, path, depth - 1, includeFiles);
      DeepListing(node, path, depth, includeFiles);
      assert Collate(es).Ok?;
      CollateValues(es);
      var nested := Collate(es).value;
      assert r == Flatten(nested);
      EntriesSorted(node, level, path, depth - 1, includeFiles, es, nested);
      FlattenSorted(path, level, nested);
    }
  }

  /** ListingSorted for every entry of a level, each at its own path. */
  lemma EntriesSorted(node: Node, level: seq<Node>, path: Path, depth: int, includeFiles: bool,
                      es: seq<Result<seq<Path>>>, nested: seq<seq<Path>>)
    requires node.Dir? && WellFormed(node)
    requires forall c :: c in level ==> c in node.children
    requires es == Entries(node, level, path, depth, includeFiles)
    requires |nested| == |es| && forall i :: 0 <= i < |es| ==> es[i] == Ok(nested[i])
    ensures forall i :: 0 <= i < |nested| ==> StrictlySorted(nested[i])
    ensures forall i, q :: 0 <= i < |nested| && q in nested[i] ==> path + [level[i].name] <= q
    decreases node, 1
  {
    forall i | 0 <= i < |nested|
      ensures StrictlySorted(nested[i])
      ensures forall q {:trigger q in nested[i]} :: q in nested[i] ==> path + [level[i].name] <= q
    {
      var c := level[i];
      assert c in node.children;
      EntriesAt(node, level, path, depth, includeFiles, i);
      ListingSorted(c, path + [c.name], depth, includeFiles, nested[i]);
    }
  }

  /** A negative depth never reaches the `depth == 0` case, so on a finite tree every
      successful listing is empty. */
  lemma {:induction false} NegativeDepthEmpty(node: Node, path: Path, depth: int, includeFiles: bool,
                                              r: seq<Path>)
    requires depth < 0 && SubdirListing(node, path, depth, includeFiles) == Ok(r)
    ensures r == []
    decreases node
  {
    assert node.Dir?;
    var level := LevelList(node, Subdirs(includeFiles));
    LevelListSpec(node, Subdirs(includeFiles));
    var es := Entries(node, level, path, depth - 1, includeFiles);
    DeepListing(node, path, depth, includeFiles);
    assert Collate(es).Ok?;
    CollateValues(es);
    var nested := Collate(es).value;
    forall i | 0 <= i < |nested| ensures nested[i] == [] {
      var c := level[i];
      assert c in node.children;
      EntriesAt(node, level, path, depth - 1, includeFiles, i);
      NegativeDepthEmpty(c, path + [c.name], depth - 1, includeFiles, nested[i]);
    }
    assert r == Flatten(nested);
    FlattenAllEmpty(nested);
  }

  /** Without `include_files` only directories are ever listed, so the enumeration of a
      directory cannot fail. */
  lemma {:induction false} DirectoriesOnlyNeverFails(node: Node, path: Path, depth: int)
    requires node.Dir?
    ensures SubdirListing(node, path, depth, false).Ok?
    decreases node
  {
    if depth != 0 {
      var level := LevelList(node, Subdirs(false));
      LevelListSpec(node, Subdirs(false));
      var es := Entries(node, level, path, depth - 1, false);
      forall i | 0 <= i < |es| ensures es[i].Ok? {
        var c := level[i];
        assert c in node.children;
        EntriesAt(node, level, path, depth - 1, false, i);
        DirectoriesOnlyNeverFails(c, path + [c.name], depth - 1);
      }
      CollateSpec(es);
      DeepListing(node, path, depth, false);
    }
  }

  /** With `include_files` and a non-zero depth, a plain file in the level is itself handed
      to `directory_iterator`, which fails the whole enumeration. */
  lemma FileEntryFails(node: Node, path: Path, depth: int, c: Node)
    requires node.Dir? && depth != 0 && c in node.children && c.File?
    ensures SubdirListing(node, path, depth, true).Err?
  {
    var level := LevelList(node, Subdirs(true));
    LevelListSpec(node, Subdirs(true));
    var es := Entries(node, level, path, depth - 1, true);
    var i :| 0 <= i < |level| && level[i] == c;
    EntriesAt(node, level, path, depth - 1, true, i);
    assert es[i].Err?;
    CollateSpec(es);
    DeepListing(node, path, depth, true);
  }

  /** The listing does not depend on the order in which the directory reports its entries. */
  lemma ListingIgnoresOrder(n1: Node, n2: Node, path: Path, depth: int, includeFiles: bool)
    requires n1.Dir? && n2.Dir? && DistinctNames(n1.children)
    requires multiset(n1.children) == multiset(n2.children)
    ensures SubdirListing(n1, path, depth, includeFiles) == SubdirListing(n2, path, depth, includeFiles)
  {
    LevelListIgnoresOrder(n1, n2, Subdirs(includeFiles));
    var level := LevelList(n1, Subdirs(includeFiles));
    LevelListSpec(n1, Subdirs(includeFiles));
    LevelListSpec(n2, Subdirs(includeFiles));
    assert forall c :: c in level ==> c in multiset(n2.children);
    if depth != 0 {
      EntriesParentIrrelevant(n1, n2, level, path, depth - 1, includeFiles);
      DeepListing(n1, path, depth, includeFiles);
      DeepListing(n2, path, depth, includeFiles);
    }
  }

  /** The listing does not depend on the order in which any directory of the tree reports
      its entries: trees with the same entries give the same successful listing, and
      without `include_files` the listing always succeeds, so it is the same outright. */
  lemma ListingIgnoresEntryOrder(n1: Node, n2: Node, path: Path, depth: int, includeFiles: bool)
    requires WellFormed(n1) && WellFormed(n2) && SameEntries(n1, n2)
    ensures n1.File? || !includeFiles ||
            (SubdirListing(n1, path, depth, includeFiles).Ok? && SubdirListing(n2, path, depth, includeFiles).Ok?)
            ==> SubdirListing(n1, path, depth, includeFiles) == SubdirListing(n2, path, depth, includeFiles)
  {
    if n1.Dir? {
      if !includeFiles {
        DirectoriesOnlyNeverFails(n1, path, depth);
        DirectoriesOnlyNeverFails(n2, path, depth);
      }
      var l1 := SubdirListing(n1, path, depth, includeFiles);
      var l2 := SubdirListing(n2, path, depth, includeFiles);
      if l1.Ok? && l2.Ok? {
        var r1, r2 := l1.value, l2.value;
        if depth < 0 {
          NegativeDepthEmpty(n1, path, depth, includeFiles, r1);
          NegativeDepthEmpty(n2, path, depth, includeFiles, r2);
        } else {
          ListingMembers(n1, path, depth, includeFiles, r1);
          ListingMembers(n2, path, depth, includeFiles, r2);
          forall q ensures q in r1 <==> q in r2 {
            if path <= q {
            SameEntriesReachable(n1, n2, q[|path|..], Subdirs(includeFiles));
          }
          }
          ListingSorted(n1, path, depth, includeFiles, r1);
          ListingSorted(n2, path, depth, includeFiles, r2);
          SortedPathsUnique(r1, r2);
        }
      }
    }
  }

  // ---------------------------------------------------------------------------
  // The imperative code

  /** The `directory_iterator` loop with its `push_back`s, then `std::sort`. */
  method CollectEntries(node: Node, includeFiles: bool) returns (list: seq<Node>)
    requires node.Dir?
    ensures list == LevelList(node, Subdirs(includeFiles))
  {
    list := [];
    for i := 0 to |node.children|
      invariant list == Collect(node.children[..i], Subdirs(includeFiles))
    {
      var ent := node.children[i];
      assert node.children[..i + 1][..i] == node.children[..i];
      if ent.Dir? {
        list := list + [ent];
      } else if includeFiles {
        list := list + [ent];
      }
    }
    assert node.children[..|node.children|] == node.children;
    list := SortByName(list);
  }

  /** `list_subdirs(indir, depth, include_files)`. */
  method ListSubdirs(node: Node, path: Path, depth: int, includeFiles: bool) returns (r: Result<seq<Path>>)
    ensures r == SubdirListing(node, path, depth, includeFiles)
    decreases node
  {
    if node.File? {
      return Err(NotADirectory(path));
    }
    var list := CollectEntries(node, includeFiles);
    LevelListSelected(node, Subdirs(includeFiles));
    if depth == 0 {
      return Ok(PathsOf(path, list));
    }
    ghost var es := Entries(node, list, path, depth - 1, includeFiles);
    var subdirs: seq<seq<Path>> := [];
    for i := 0 to |list|
      invariant Collate(es[..i]) == Ok(subdirs)
    {
      var c := list[i];
      assert c in node.children;
      var sub := ListSubdirs(c, path + [c.name], depth - 1, includeFiles);
      EntriesAt(node, list, path, depth - 1, includeFiles, i);
      CollateStep(es, i, subdirs);
      if sub.Err? {
        return Err(sub.error);
      }
      subdirs := subdirs + [sub.value];
    }
    assert es[..|list|] == es;
    DeepListing(node, path, depth, includeFiles);
    assert Collate(es) == Ok(subdirs);
    var flat := FlattenNested(subdirs);
    return Ok(flat);
  }
}
