/** An abstract, finite directory tree standing in for `std::filesystem`: paths as sequences
    of components, path ordering, file-name extensions, and the sorted listing of one
    directory level that every enumeration in the repository builds. */
module FsModel {
  import opened NestedLists

  /** A path is the sequence of its components: `in/a/b.zip` is ["in", "a", "b.zip"]. */
  type Path = seq<string>

  /** An entry of the tree. The order of `children` is the order in which
      `directory_iterator` happens to list them, which the program does not rely on. */
  datatype Node = File(name: string) | Dir(name: string, children: seq<Node>)

  datatype Option<T> = None | Some(value: T)

  /** The one failure of enumeration: `directory_iterator` opened on something that is not
      a directory throws `filesystem_error`. */
  datatype Error = NotADirectory(path: Path)

  datatype Result<T> = Ok(value: T) | Err(error: Error)

  /** The results of enumerating a sequence of entries, gathered in order as a
      `std::transform` that stops at the first exception does: the first error wins. */
  function Collate<T>(rs: seq<Result<T>>): Result<seq<T>>
  {
    if rs == [] then Ok([])
    else
      var last := rs[|rs| - 1];
      match Collate(rs[..|rs| - 1])
      case Err(e) => Err(e)
      case Ok(done) => if last.Err? then Err(last.error) else Ok(done + [last.value])
  }

  /** Gathering succeeds exactly when every result does, and then keeps the values in
      order; a failure carries the error of the first failed result. */
  lemma {:induction false} CollateSpec<T>(rs: seq<Result<T>>)
    ensures Collate(rs).Ok? <==> forall i :: 0 <= i < |rs| ==> rs[i].Ok?
    ensures Collate(rs).Ok? ==> |Collate(rs).value| == |rs| &&
                                forall i :: 0 <= i < |rs| ==> rs[i] == Ok(Collate(rs).value[i])
    ensures Collate(rs).Err? ==> exists i :: 0 <= i < |rs| && rs[i] == Err(Collate(rs).error) &&
                                             forall j :: 0 <= j < i ==> rs[j].Ok?
    decreases |rs|
  {
    if rs != [] {
      var n := |rs| - 1;
      var front := rs[..n];
      CollateSpec(front);
      assert forall i :: 0 <= i < n ==> front[i] == rs[i];
      var c := Collate(rs);
      if Collate(front).Err? {
        var i :| 0 <= i < n && front[i] == Err(Collate(front).error) && forall j :: 0 <= j < i ==> front[j].Ok?;
        assert rs[i] == Err(c.error);
      } else if rs[n].Err? {
        assert rs[n] == Err(c.error);
      } else {
        forall i | 0 <= i < |rs| ensures rs[i] == Ok(c.value[i]) {
          if i < n {
            assert c.value[i] == Collate(front).value[i];
          }
        }
      }
    }
  }

  /** The values of a successful gathering, one per result. */
  lemma CollateValues<T>(rs: seq<Result<T>>)
    requires Collate(rs).Ok?
    ensures |Collate(rs).value| == |rs|
    ensures forall i :: 0 <= i < |rs| ==> rs[i] == Ok(Collate(rs).value[i])
  {
    CollateSpec(rs);
  }

  /** Gathering one more result of a prefix, as one loop iteration does. */
  lemma CollatePrefix<T>(rs: seq<Result<T>>, i: nat)
    requires i < |rs|
    ensures Collate(rs[..i + 1]) == match Collate(rs[..i])
      case Err(e) => Err(e)
      case Ok(done) => if rs[i].Err? then Err(rs[i].error) else Ok(done + [rs[i].value])
  {
    assert rs[..i + 1][..i] == rs[..i];
  }

  /** One step of gathering from the front: a success extends the gathered values, and a
      failure is the failure of the whole sequence. */
  lemma CollateStep<T>(rs: seq<Result<T>>, i: nat, done: seq<T>)
    requires i < |rs| && Collate(rs[..i]) == Ok(done)
    ensures rs[i].Ok? ==> Collate(rs[..i + 1]) == Ok(done + [rs[i].value])
    ensures rs[i].Err? ==> Collate(rs) == Err(rs[i].error)
  {
    CollatePrefix(rs, i);
    if rs[i].Err? {
      CollateStopsAtError(rs, i + 1);
    }
  }

  /** A failure among the first k results is the failure of all of them. */
  lemma {:induction false} CollateStopsAtError<T>(rs: seq<Result<T>>, k: nat)
    requires k <= |rs| && Collate(rs[..k]).Err?
    ensures Collate(rs) == Collate(rs[..k])
    decreases |rs| - k
  {
    if k < |rs| {
      var n := |rs| - 1;
      assert rs[..n][..k] == rs[..k];
      CollateStopsAtError(rs[..n], k);
    } else {
      assert rs[..k] == rs;
    }
  }

  // ---------------------------------------------------------------------------
  // Ordering of names and paths

  /** Lexicographic order of names by character code, as `std::string` compares them. */
  predicate StrLt(a: string, b: string)
  {
    if a == [] then b != []
    else if b == [] then false
    else a[0] < b[0] || (a[0] == b[0] && StrLt(a[1..], b[1..]))
  }

  lemma {:induction false} StrLtIrreflexive(a: string)
    ensures !StrLt(a, a)
  {
    if a != [] {
      StrLtIrreflexive(a[1..]);
    }
  }

  lemma {:induction false} StrLtTransitive(a: string, b: string, c: string)
    requires StrLt(a, b) && StrLt(b, c)
    ensures StrLt(a, c)
  {
    if a != [] && b != [] && c != [] && a[0] == b[0] == c[0] {
      StrLtTransitive(a[1..], b[1..], c[1..]);
    }
  }

  lemma {:induction false} StrLtTotal(a: string, b: string)
    ensures a == b || StrLt(a, b) || StrLt(b, a)
  {
    if a != [] && b != [] && a[0] == b[0] {
      StrLtTotal(a[1..], b[1..]);
      if a[1..] == b[1..] {
        assert a == [a[0]] + a[1..] && b == [b[0]] + b[1..];
      }
    }
  }

  lemma StrLtAsymmetric(a: string, b: string)
    requires StrLt(a, b)
    ensures !StrLt(b, a)
  {
    if StrLt(b, a) {
      StrLtTransitive(a, b, a);
      StrLtIrreflexive(a);
    }
  }

  lemma StrLeTransitive(a: string, b: string, c: string)
    requires !StrLt(b, a) && !StrLt(c, b)
    ensures !StrLt(c, a)
  {
    StrLtTotal(a, b);
    StrLtTotal(b, c);
    if a != b && b != c {
      StrLtTransitive(a, b, c);
      StrLtAsymmetric(a, c);
    }
  }

  /** `std::filesystem::path` ordering: component by component, each by `StrLt`. */
  predicate PathLt(p: Path, q: Path)
  {
    if p == [] then q != []
    else if q == [] then false
    else StrLt(p[0], q[0]) || (p[0] == q[0] && PathLt(p[1..], q[1..]))
  }

  /** Two paths below two different entries of one directory compare as the entries'
      names do; so sorting entries that share a parent is sorting them by name, and the
      paths below an entry all come before the paths below a later entry. */
  lemma {:induction false} PathLtUnder(parent: Path, a: string, b: string, p: Path, q: Path)
    requires parent + [a] <= p && parent + [b] <= q
    ensures PathLt(p, q) <==> StrLt(a, b) || (a == b && PathLt(p[|parent| + 1..], q[|parent| + 1..]))
    decreases |parent|
  {
    if parent == [] {
      assert p[0] == a && q[0] == b;
      if a == b {
        assert p[1..] == p[|parent| + 1..];
      } else {
        assert p != [] && q != [];
      }
      if StrLt(a, b) || a == b {
      } else if PathLt(p, q) {
        StrLtTotal(a, b);
      }
    } else {
      assert p[0] == parent[0] == q[0];
      assert parent[1..] + [a] <= p[1..] && parent[1..] + [b] <= q[1..];
      PathLtUnder(parent[1..], a, b, p[1..], q[1..]);
      StrLtIrreflexive(p[0]);
      assert p[1..][|parent[1..]| + 1..] == p[|parent| + 1..];
      assert q[1..][|parent[1..]| + 1..] == q[|parent| + 1..];
    }
  }

  /** No path is below itself in the strict order. */
  lemma {:induction false} PathLtIrreflexive(p: Path)
    ensures !PathLt(p, p)
  {
    if p != [] {
      StrLtIrreflexive(p[0]);
      PathLtIrreflexive(p[1..]);
    }
  }

  /** A list of paths in strictly increasing order: sorted and free of duplicates. */
  ghost predicate StrictlySorted(s: seq<Path>)
  {
    forall i, j :: 0 <= i < j < |s| ==> PathLt(s[i], s[j])
  }

  lemma {:induction false} PathLtAsymmetric(p: Path, q: Path)
    requires PathLt(p, q)
    ensures !PathLt(q, p)
    decreases |p|
  {
    if p != [] && q != [] {
      if StrLt(p[0], q[0]) {
        StrLtAsymmetric(p[0], q[0]);
        StrLtIrreflexive(p[0]);
      } else {
        StrLtIrreflexive(p[0]);
        PathLtAsymmetric(p[1..], q[1..]);
      }
    }
  }

  /** The tail of a strictly sorted list holds every element but the head. */
  lemma SortedTailMembers(s: seq<Path>, q: Path)
    requires StrictlySorted(s) && s != []
    ensures StrictlySorted(s[1..])
    ensures q in s[1..] <==> q in s && q != s[0]
  {
    if q in s[1..] {
      var k :| 0 <= k < |s[1..]| && s[1..][k] == q;
      assert PathLt(s[0], s[k + 1]);
      PathLtIrreflexive(q);
    }
    if q in s && q != s[0] {
      var k :| 0 <= k < |s| && s[k] == q;
      assert s[1..][k - 1] == q;
    }
  }

  lemma HeadIn(a: seq<Path>)
    ensures a != [] ==> a[0] in a
  {
  }

  /** A strictly sorted list is determined by its elements. */
  lemma {:induction false} SortedPathsUnique(a: seq<Path>, b: seq<Path>)
    requires StrictlySorted(a) && StrictlySorted(b)
    requires forall q :: q in a <==> q in b
    ensures a == b
    decreases |a|
  {
    HeadIn(a);
    HeadIn(b);
    if a != [] && b != [] {
      assert a[0] in b;
      assert b != [];
      var j :| 0 <= j < |b| && b[j] == a[0];
      assert b[0] in a;
      var i :| 0 <= i < |a| && a[i] == b[0];
      if j > 0 {
        assert PathLt(b[0], b[j]);
        if i > 0 {
          assert PathLt(a[0], a[i]);
          PathLtAsymmetric(a[0], a[i]);
        } else {
          PathLtIrreflexive(a[0]);
        }
      }
      assert a[0] == b[0];
      forall q ensures q in a[1..] <==> q in b[1..] {
        SortedTailMembers(a, q);
        SortedTailMembers(b, q);
      }
      SortedPathsUnique(a[1..], b[1..]);
      assert a == [a[0]] + a[1..] && b == [b[0]] + b[1..];
    }
  }

  // ---------------------------------------------------------------------------
  // Extensions (`path::extension`, `path::replace_extension`)

  /** Index of the rightmost '.' in `s`. */
  function LastDot(s: string): (r: Option<nat>)
    ensures r.Some? ==> r.value < |s| && s[r.value] == '.'
    ensures r.Some? ==> forall j :: r.value < j < |s| ==> s[j] != '.'
    ensures r.None? ==> forall j :: 0 <= j < |s| ==> s[j] != '.'
  {
    if s == [] then None
    else if s[|s| - 1] == '.' then Some(|s| - 1)
    else LastDot(s[..|s| - 1])
  }

  /** Where the extension of a file name starts: at the rightmost '.', except that "." and
      ".." have none and a leading '.' (a hidden name such as ".zip") does not start one. */
  function ExtensionStart(name: string): (r: Option<nat>)
    ensures r.Some? ==> 0 < r.value < |name| && name[r.value] == '.'
  {
    if name == "." || name == ".." then None
    else match LastDot(name)
      case None => None
      case Some(k) => if k == 0 then None else Some(k)
  }

  /** `path(name).extension()` */
  function Extension(name: string): string
  {
    match ExtensionStart(name)
    case None => ""
    case Some(k) => name[k..]
  }

  /** `path(name).replace_extension("")`: the name without its extension. */
  function Stem(name: string): string
  {
    match ExtensionStart(name)
    case None => name
    case Some(k) => name[..k]
  }

  /** A name is its stem followed by its extension; a name with a non-empty extension has
      a non-empty stem. */
  lemma StemExtension(name: string)
    ensures Stem(name) + Extension(name) == name
    ensures Extension(name) != "" ==> Stem(name) != "" && |Stem(name)| < |name|
  {
    match ExtensionStart(name)
    case None =>
    case Some(k) =>
      assert name[..k] + name[k..] == name;
  }

  // ---------------------------------------------------------------------------
  // Well-formed trees

  predicate DistinctNames(s: seq<Node>)
  {
    forall i, j :: 0 <= i < j < |s| ==> s[i].name != s[j].name
  }

  /** Every directory of the tree holds at most one entry of each name. */
  predicate WellFormed(n: Node)
  {
    n.Dir? ==> DistinctNames(n.children) && forall c :: c in n.children ==> WellFormed(c)
  }

  /** `rel` leads from the directory `node` to an entry: every component but the last
      names a sub-directory, and the last names an entry the selector keeps. */
  ghost predicate Reachable(node: Node, rel: seq<string>, last: Selector)
    decreases node
  {
    node.Dir? && |rel| > 0 &&
    exists c :: c in node.children && c.name == rel[0] &&
      (if |rel| == 1 then Selected(last, c) else c.Dir? && Reachable(c, rel[1..], last))
  }

  // ---------------------------------------------------------------------------
  // One directory level: collect the entries to keep, then sort them

  /** The names of the entries of a directory. */
  function Names(s: seq<Node>): set<string>
  {
    set c | c in s :: c.name
  }

  /** Two trees that hold the same entries, each directory's entries possibly reported in
      another order: the trees that differ only in what `directory_iterator` does. Entries
      are matched by name, which identifies them in a well-formed tree. */
  ghost predicate SameEntries(n1: Node, n2: Node)
    decreases n1
  {
    n1.name == n2.name && n1.Dir? == n2.Dir? &&
    (n1.Dir? && n2.Dir? ==>
      Names(n1.children) == Names(n2.children) &&
      forall c1, c2 :: c1 in n1.children && c2 in n2.children && c1.name == c2.name ==> SameEntries(c1, c2))
  }

  /** In a well-formed tree, every tree has the same entries as itself. */
  lemma {:induction false} SameEntriesReflexive(n: Node)
    requires WellFormed(n)
    ensures SameEntries(n, n)
    decreases n
  {
    if n.Dir? {
      forall c1, c2 | c1 in n.children && c2 in n.children && c1.name == c2.name
        ensures SameEntries(c1, c2)
      {
        var i :| 0 <= i < |n.children| && n.children[i] == c1;
        var j :| 0 <= j < |n.children| && n.children[j] == c2;
        assert i == j;
        SameEntriesReflexive(c1);
      }
    }
  }

  /** Which paths lead to a kept entry does not depend on the order of any directory's
      entries. */
  lemma SameEntriesReachable(n1: Node, n2: Node, rel: seq<string>, last: Selector)
    requires SameEntries(n1, n2)
    ensures Reachable(n1, rel, last) <==> Reachable(n2, rel, last)
  {
    if Reachable(n1, rel, last) {
      ReachableForward(n1, n2, rel, last);
    }
    if Reachable(n2, rel, last) {
      ReachableBackward(n1, n2, rel, last);
    }
  }

  lemma {:induction false} ReachableForward(n1: Node, n2: Node, rel: seq<string>, last: Selector)
    requires SameEntries(n1, n2) && Reachable(n1, rel, last)
    ensures Reachable(n2, rel, last)
    decreases n1
  {
    var c1 :| c1 in n1.children && c1.name == rel[0] &&
      (if |rel| == 1 then Selected(last, c1) else c1.Dir? && Reachable(c1, rel[1..], last));
    assert rel[0] in Names(n1.children);
    var c2 :| c2 in n2.children && c2.name == rel[0];
    assert c2.name == rel[0] && c2.Dir? == c1.Dir?;
    if |rel| > 1 {
      ReachableForward(c1, c2, rel[1..], last);
    } else {
      assert Selected(last, c2);
    }
  }

  lemma {:induction false} ReachableBackward(n1: Node, n2: Node, rel: seq<string>, last: Selector)
    requires SameEntries(n1, n2) && Reachable(n2, rel, last)
    ensures Reachable(n1, rel, last)
    decreases n1
  {
    var c2 :| c2 in n2.children && c2.name == rel[0] &&
      (if |rel| == 1 then Selected(last, c2) else c2.Dir? && Reachable(c2, rel[1..], last));
    assert rel[0] in Names(n2.children);
    var c1 :| c1 in n1.children && c1.name == rel[0];
    assert c1.name == rel[0] && c1.Dir? == c2.Dir?;
    if |rel| > 1 {
      ReachableBackward(c1, c2, rel[1..], last);
    } else {
      assert Selected(last, c1);
    }
  }

  /** Which entries of a level a loop keeps: `Subdirs(f)` keeps directories, and plain files
      too when `f` is set (szkarc.cpp, main.cpp and the deep levels of unzipdirs.cpp);
      `ZipArchives` keeps every entry whose extension is ".zip" (unzipdirs.cpp, last level). */
  datatype Selector = Subdirs(includeFiles: bool) | ZipArchives

  predicate Selected(sel: Selector, c: Node)
  {
    match sel
    case Subdirs(includeFiles) => c.Dir? || includeFiles
    case ZipArchives => Extension(c.name) == ".zip"
  }

  /** The entries the `push_back` loop keeps, in listing order. */
  function Collect(entries: seq<Node>, sel: Selector): seq<Node>
  {
    if entries == [] then []
    else
      var last := entries[|entries| - 1];
      Collect(entries[..|entries| - 1], sel) + (if Selected(sel, last) then [last] else [])
  }

  /** In a list without duplicate names, no earlier entry shares the last entry's name. */
  lemma DistinctLast(s: seq<Node>)
    requires s != [] && DistinctNames(s)
    ensures forall y :: y in s[..|s| - 1] ==> y.name != s[|s| - 1].name
  {
    forall y | y in s[..|s| - 1] ensures y.name != s[|s| - 1].name {
      var k :| 0 <= k < |s| - 1 && s[..|s| - 1][k] == y;
      assert s[k] == y;
    }
  }

  /** The loop keeps exactly the selected entries, and distinct names stay distinct. */
  lemma {:induction false} CollectSpec(entries: seq<Node>, sel: Selector)
    ensures |Collect(entries, sel)| <= |entries|
    ensures forall c :: c in Collect(entries, sel) <==> c in entries && Selected(sel, c)
    ensures DistinctNames(entries) ==> DistinctNames(Collect(entries, sel))
    decreases |entries|
  {
    if entries != [] {
      var last := entries[|entries| - 1];
      var front := entries[..|entries| - 1];
      assert forall c :: c in entries <==> c in front || c == last;
      CollectSpec(front, sel);
      var kept := Collect(front, sel);
      if DistinctNames(entries) {
        DistinctLast(entries);
        forall i | 0 <= i < |kept| ensures kept[i].name != last.name {
          assert kept[i] in front;
        }
      }
    }
  }

  lemma {:induction false} CollectCount(entries: seq<Node>, sel: Selector, x: Node)
    ensures multiset(Collect(entries, sel))[x] == if Selected(sel, x) then multiset(entries)[x] else 0
    decreases |entries|
  {
    if entries != [] {
      var front := entries[..|entries| - 1];
      var last := entries[|entries| - 1];
      var tail := if Selected(sel, last) then [last] else [];
      assert |front| < |entries|;
      CollectCount(front, sel, x);
      assert multiset(entries) == multiset(front) + multiset{last} by {
        assert entries == front + [last];
      }
      assert multiset(Collect(entries, sel)) == multiset(Collect(front, sel)) + multiset(tail);
    }
  }

  predicate NameSorted(s: seq<Node>)
  {
    forall i, j :: 0 <= i < j < |s| ==> !StrLt(s[j].name, s[i].name)
  }

  /** Insert `x` into a name-sorted list, in front of the first entry not smaller. */
  function Insert(x: Node, s: seq<Node>): seq<Node>
  {
    if s == [] then [x]
    else if !StrLt(s[0].name, x.name) then [x] + s
    else [s[0]] + Insert(x, s[1..])
  }

  lemma {:induction false} InsertSpec(x: Node, s: seq<Node>)
    requires NameSorted(s)
    ensures NameSorted(Insert(x, s))
    ensures multiset(Insert(x, s)) == multiset(s) + multiset{x}
    decreases |s|
  {
    if s == [] {
    } else if !StrLt(s[0].name, x.name) {
      InsertInFront(x, s);
    } else {
      InsertSpec(x, s[1..]);
      assert s == [s[0]] + s[1..];
      InsertBehind(x, s, Insert(x, s[1..]));
    }
  }

  lemma InsertInFront(x: Node, s: seq<Node>)
    requires NameSorted(s) && s != [] && !StrLt(s[0].name, x.name)
    ensures NameSorted([x] + s)
  {
    forall j | 0 <= j < |s| ensures !StrLt(s[j].name, x.name) {
      if j > 0 {
        StrLeTransitive(x.name, s[0].name, s[j].name);
      }
    }
  }

  lemma InsertBehind(x: Node, s: seq<Node>, rest: seq<Node>)
    requires NameSorted(s) && s != [] && StrLt(s[0].name, x.name)
    requires NameSorted(rest) && multiset(rest) == multiset(s[1..]) + multiset{x}
    ensures NameSorted([s[0]] + rest)
  {
    forall y | y in rest ensures !StrLt(y.name, s[0].name) {
      assert y in multiset(rest);
      if y != x {
        assert y in s[1..];
      } else {
        StrLtAsymmetric(s[0].name, x.name);
      }
    }
    var t := [s[0]] + rest;
    forall i, j | 0 <= i < j < |t| ensures !StrLt(t[j].name, t[i].name) {
      if i > 0 {
        assert t[i] == rest[i - 1] && t[j] == rest[j - 1];
      } else {
        assert t[j] in rest;
      }
    }
  }

  /** Putting an entry with a new name in front of a list keeps the names distinct. */
  lemma DistinctCons(a: Node, t: seq<Node>)
    requires DistinctNames(t)
    requires forall y :: y in t ==> y.name != a.name
    ensures DistinctNames([a] + t)
  {
    var u := [a] + t;
    forall i, j | 0 <= i < j < |u| ensures u[i].name != u[j].name {
      if i > 0 {
        assert u[i] == t[i - 1] && u[j] == t[j - 1];
      } else {
        assert u[j] in t;
      }
    }
  }

  /** In a list without duplicate names, no later entry shares the first entry's name. */
  lemma DistinctHead(s: seq<Node>)
    requires s != [] && DistinctNames(s)
    ensures forall y :: y in s[1..] ==> y.name != s[0].name
  {
    forall y | y in s[1..] ensures y.name != s[0].name {
      var m :| 0 <= m < |s| - 1 && s[1..][m] == y;
      assert s[m + 1] == y;
    }
  }

  /** Inserting an entry whose name is new keeps the names distinct. */
  lemma {:induction false} InsertDistinct(x: Node, s: seq<Node>)
    requires NameSorted(s) && DistinctNames(s)
    requires forall y :: y in s ==> y.name != x.name
    ensures DistinctNames(Insert(x, s))
    decreases |s|
  {
    if s == [] {
    } else if !StrLt(s[0].name, x.name) {
      DistinctCons(x, s);
    } else {
      var tail := s[1..];
      assert forall y :: y in tail ==> y in s;
      InsertDistinct(x, tail);
      InsertSpec(x, tail);
      var rest := Insert(x, tail);
      DistinctHead(s);
      forall y | y in rest ensures y.name != s[0].name {
        assert y in multiset(rest);
      }
      DistinctCons(s[0], rest);
    }
  }

  /** Stands for `std::sort` on the paths of one level: as they share a parent, this orders
      them by name (PathLtUnder). */
  function SortByName(s: seq<Node>): seq<Node>
  {
    if s == [] then [] else Insert(s[0], SortByName(s[1..]))
  }

  /** The sort returns a name-sorted permutation of its input. */
  lemma {:induction false} SortByNameSpec(s: seq<Node>)
    ensures NameSorted(SortByName(s))
    ensures multiset(SortByName(s)) == multiset(s)
    decreases |s|
  {
    if s != [] {
      SortByNameSpec(s[1..]);
      InsertSpec(s[0], SortByName(s[1..]));
      assert s == [s[0]] + s[1..];
    }
  }

  lemma {:induction false} SortByNameDistinct(s: seq<Node>)
    requires DistinctNames(s)
    ensures DistinctNames(SortByName(s))
    decreases |s|
  {
    if s != [] {
      var rest := SortByName(s[1..]);
      SortByNameDistinct(s[1..]);
      SortByNameSpec(s[1..]);
      assert s == [s[0]] + s[1..];
      forall y | y in rest ensures y.name != s[0].name {
        assert y in multiset(s[1..]);
        var m :| 0 <= m < |s[1..]| && s[1..][m] == y;
        assert s[m + 1] == y;
      }
      InsertDistinct(s[0], rest);
    }
  }

  /** The sorted list of the entries of one directory that `sel` keeps. */
  function LevelList(node: Node, sel: Selector): seq<Node>
    requires node.Dir?
  {
    SortByName(Collect(node.children, sel))
  }

  /** A level holds exactly the selected children, sorted by name, and no name twice when
      the directory holds no name twice. */
  /** The entries of a level are exactly the selected children of the directory. */
  lemma LevelListSelected(node: Node, sel: Selector)
    requires node.Dir?
    ensures forall c :: c in LevelList(node, sel) <==> c in node.children && Selected(sel, c)
  {
    LevelListSpec(node, sel);
  }

  lemma LevelListSpec(node: Node, sel: Selector)
    requires node.Dir?
    ensures |LevelList(node, sel)| <= |node.children|
    ensures forall c :: c in LevelList(node, sel) <==> c in node.children && Selected(sel, c)
    ensures NameSorted(LevelList(node, sel))
    ensures DistinctNames(node.children) ==> DistinctNames(LevelList(node, sel))
  {
    var kept := Collect(node.children, sel);
    var r := SortByName(kept);
    CollectSpec(node.children, sel);
    SortByNameSpec(kept);
    if DistinctNames(node.children) {
      SortByNameDistinct(kept);
    }
    assert |r| == |multiset(r)| == |multiset(kept)| == |kept|;
    assert forall c :: c in r <==> c in multiset(kept);
  }

  /** The paths of the entries of a level, below `parent`. */
  function PathsOf(parent: Path, level: seq<Node>): (r: seq<Path>)
    ensures |r| == |level|
    ensures forall i :: 0 <= i < |level| ==> r[i] == parent + [level[i].name]
  {
    seq(|level|, i requires 0 <= i < |level| => parent + [level[i].name])
  }

  /** A sorted level without duplicate names gives paths in strictly increasing order. */
  lemma PathsOfSorted(parent: Path, level: seq<Node>)
    requires NameSorted(level) && DistinctNames(level)
    ensures StrictlySorted(PathsOf(parent, level))
    ensures forall q :: q in PathsOf(parent, level) ==> parent < q
  {
    var r := PathsOf(parent, level);
    forall i, j | 0 <= i < j < |r| ensures PathLt(r[i], r[j]) {
      StrLtTotal(level[i].name, level[j].name);
      PathLtUnder(parent, level[i].name, level[j].name, r[i], r[j]);
    }
    forall q | q in r ensures parent < q {
      var i :| 0 <= i < |r| && r[i] == q;
      assert q == parent + [level[i].name];
    }
  }

  /** Concatenating, in level order, lists of paths that each lie below their own entry of
      a sorted level gives a strictly increasing list of paths below `parent`: the result of
      a deep enumeration is sorted although nothing sorts it after flattening. */
  lemma {:induction false} FlattenSorted(parent: Path, level: seq<Node>, nested: seq<seq<Path>>)
    requires NameSorted(level) && DistinctNames(level) && |nested| == |level|
    requires forall i :: 0 <= i < |nested| ==> StrictlySorted(nested[i])
    requires forall i, q :: 0 <= i < |nested| && q in nested[i] ==> parent + [level[i].name] <= q
    ensures StrictlySorted(Flatten(nested))
    ensures forall q :: q in Flatten(nested) ==> parent < q
    decreases |nested|
  {
    if nested != [] {
      var n := |nested| - 1;
      var front := nested[..n];
      FlattenSorted(parent, level[..n], front);
      var a := Flatten(front);
      var b := nested[n];
      forall x, y | x in a && y in b ensures PathLt(x, y) {
        FlattenMember(front, x);
        var i :| 0 <= i < n && x in front[i];
        StrLtTotal(level[i].name, level[n].name);
        PathLtUnder(parent, level[i].name, level[n].name, x, y);
      }
      forall i, j | 0 <= i < j < |a + b| ensures PathLt((a + b)[i], (a + b)[j]) {
        if j < |a| {
        } else if i >= |a| {
          assert (a + b)[i] == b[i - |a|] && (a + b)[j] == b[j - |a|];
        } else {
          assert (a + b)[i] in a && (a + b)[j] in b;
        }
      }
      forall q | q in a + b ensures parent < q {
        if q in b {
          assert parent + [level[n].name] <= q;
        }
      }
    }
  }

  // ---------------------------------------------------------------------------
  // The listing does not depend on the order `directory_iterator` reports entries in

  /** Two name-sorted lists without duplicate names holding the same entries start with
      the same entry. */
  lemma SortedSameHead(a: seq<Node>, b: seq<Node>)
    requires NameSorted(a) && NameSorted(b) && DistinctNames(a)
    requires a != [] && b != [] && multiset(a) == multiset(b)
    ensures a[0] == b[0]
  {
    assert b[0] in multiset(a) && a[0] in multiset(b);
    var i :| 0 <= i < |a| && a[i] == b[0];
    var j :| 0 <= j < |b| && b[j] == a[0];
    StrLtIrreflexive(a[0].name);
    StrLtIrreflexive(b[0].name);
    assert !StrLt(a[i].name, a[0].name);
    assert !StrLt(b[j].name, b[0].name);
    StrLtTotal(a[0].name, b[0].name);
    assert a[0].name == a[i].name;
    assert i == 0;
  }

  /** Dropping the first entry keeps a list sorted and its names distinct. */
  lemma SortedTail(a: seq<Node>)
    requires NameSorted(a) && a != []
    ensures NameSorted(a[1..])
    ensures DistinctNames(a) ==> DistinctNames(a[1..])
  {
    var t := a[1..];
    forall i, j | 0 <= i < j < |t| ensures !StrLt(t[j].name, t[i].name) && (DistinctNames(a) ==> t[i].name != t[j].name) {
      assert t[i] == a[i + 1] && t[j] == a[j + 1];
    }
  }

  /** Two name-sorted lists without duplicate names holding the same entries are equal. */
  lemma {:induction false} SortedUnique(a: seq<Node>, b: seq<Node>)
    requires NameSorted(a) && NameSorted(b) && DistinctNames(a)
    requires multiset(a) == multiset(b)
    ensures a == b
    decreases |a|
  {
    assert |a| == |multiset(a)| == |multiset(b)| == |b|;
    if a != [] {
      SortedSameHead(a, b);
      var a', b' := a[1..], b[1..];
      assert a == [a[0]] + a' && b == [b[0]] + b';
      assert multiset(a) == multiset{a[0]} + multiset(a');
      assert multiset(b) == multiset{a[0]} + multiset(b');
      SortedTail(a);
      SortedTail(b);
      assert multiset(a') == multiset(b') by {
        assert multiset(a') == multiset(a) - multiset{a[0]};
        assert multiset(b') == multiset(b) - multiset{a[0]};
      }
      SortedUnique(a', b');
    }
  }

  /** Reordering the entries of a directory does not change any of its level lists. */
  lemma LevelListIgnoresOrder(n1: Node, n2: Node, sel: Selector)
    requires n1.Dir? && n2.Dir? && DistinctNames(n1.children)
    requires multiset(n1.children) == multiset(n2.children)
    ensures LevelList(n1, sel) == LevelList(n2, sel)
  {
    var k1 := Collect(n1.children, sel);
    var k2 := Collect(n2.children, sel);
    forall x ensures multiset(k1)[x] == multiset(k2)[x] {
      CollectCount(n1.children, sel, x);
      CollectCount(n2.children, sel, x);
    }
    assert multiset(k1) == multiset(k2);
    SortByNameSpec(k1);
    SortByNameSpec(k2);
    LevelListSpec(n1, sel);
    SortedUnique(LevelList(n1, sel), LevelList(n2, sel));
  }

  // ---------------------------------------------------------------------------
  // Which paths a listing holds

  /** The paths of a level are the paths one component below `path` naming a kept entry. */
  lemma LevelMembers(node: Node, sel: Selector, level: seq<Node>, path: Path)
    requires node.Dir?
    requires forall c :: c in level <==> c in node.children && Selected(sel, c)
    ensures forall q {:trigger q in PathsOf(path, level)} :: q in PathsOf(path, level) <==>
      (|q| == |path| + 1 && path <= q && Reachable(node, q[|path|..], sel))
  {
    var r := PathsOf(path, level);
    forall q ensures q in r <==> (|q| == |path| + 1 && path <= q && Reachable(node, q[|path|..], sel)) {
      if q in r {
        var i :| 0 <= i < |r| && r[i] == q;
        assert q[|path|..] == [level[i].name];
        assert level[i] in level;
      }
      if |q| == |path| + 1 && path <= q && Reachable(node, q[|path|..], sel) {
        var c :| c in node.children && c.name == q[|path|..][0] && Selected(sel, c);
        var i :| 0 <= i < |level| && level[i] == c;
        assert q == path + [c.name];
        assert r[i] == q;
      }
    }
  }

  /** Flattening the listings of the entries of a level, each holding the paths reachable
      from its entry, gives the paths reachable from the directory through a
      sub-directory (`levelSel` keeps the directories of the level, `sel` chooses the entries
      of the last level). */
  lemma DeepMembers(node: Node, levelSel: Selector, sel: Selector, level: seq<Node>, path: Path,
                    depth: int, nested: seq<seq<Path>>)
    requires node.Dir? && levelSel.Subdirs? && depth > 0 && |nested| == |level|
    requires forall c :: c in level <==> c in node.children && Selected(levelSel, c)
    requires forall i :: 0 <= i < |level| ==> forall q {:trigger q in nested[i]} :: q in nested[i] <==>
      (|q| == |path| + depth + 1 && path + [level[i].name] <= q && Reachable(level[i], q[|path| + 1..], sel))
    ensures forall q {:trigger q in Flatten(nested)} :: q in Flatten(nested) <==>
      (|q| == |path| + depth + 1 && path <= q && Reachable(node, q[|path|..], sel))
  {
    forall q ensures q in Flatten(nested) <==>
      (|q| == |path| + depth + 1 && path <= q && Reachable(node, q[|path|..], sel))
    {
      FlattenMember(nested, q);
      if q in Flatten(nested) {
        var i :| 0 <= i < |nested| && q in nested[i];
        var c := level[i];
        var rel := q[|path|..];
        assert rel[0] == c.name && rel[1..] == q[|path| + 1..];
        assert c in level;
      }
      if |q| == |path| + depth + 1 && path <= q && Reachable(node, q[|path|..], sel) {
        var rel := q[|path|..];
        var c :| c in node.children && c.name == rel[0] &&
                 (if |rel| == 1 then Selected(sel, c) else c.Dir? && Reachable(c, rel[1..], sel));
        assert |rel| > 1;
        assert c in level;
        var i :| 0 <= i < |level| && level[i] == c;
        assert path + [c.name] <= q;
        assert rel[1..] == q[|path| + 1..];
        assert q in nested[i];
      }
    }
  }
}
