/** Model of deldirs.cpp: list the directories `depth` levels below the input directory,
    keep those meeting every present condition (the named entry exists in it) and every
    absent condition (the named entry does not exist in it), then list them, or delete them
    one by one after a Y/N confirmation read from standard input unless `--yes` is set. */
module DelDirs {
  import opened FsModel
  import opened Filters
  import opened Szkarc

  // ---------------------------------------------------------------------------
  // The conditions

  /** `std::any_of(names, exists(dir / name))`. */
  predicate AnyExists(dir: Path, names: seq<string>, onDisk: Path -> bool)
  {
    exists i :: 0 <= i < |names| && onDisk(dir + [names[i]])
  }

  /** `std::any_of(names, !exists(dir / name))`. */
  predicate AnyMissing(dir: Path, names: seq<string>, onDisk: Path -> bool)
  {
    exists i :: 0 <= i < |names| && !onDisk(dir + [names[i]])
  }

  /** The `remove_if` predicate as written: the absent test runs over the absent names, and
      so does the present test, so the present names are never looked at. */
  function UnmetAsWritten(present: seq<string>, absent: seq<string>, onDisk: Path -> bool): Path -> bool
  {
    dir => AnyExists(dir, absent, onDisk) || AnyMissing(dir, absent, onDisk)
  }

  /** As written, a directory is dropped exactly when some absent condition is given,
      whatever is on disk and whatever the present conditions say. */
  lemma UnmetAsWrittenIgnoresConditions(present: seq<string>, absent: seq<string>, onDisk: Path -> bool,
                                        dir: Path)
    ensures UnmetAsWritten(present, absent, onDisk)(dir) <==> absent != []
  {
    if absent != [] {
      if !onDisk(dir + [absent[0]]) {
        assert AnyMissing(dir, absent, onDisk);
      } else {
        assert AnyExists(dir, absent, onDisk);
      }
    }
  }

  /** So, as written, every listed directory is a candidate when only present conditions are
      given, and none when an absent condition is given. */
  lemma CandidatesAsWritten(subdirs: seq<Path>, present: seq<string>, absent: seq<string>,
                            onDisk: Path -> bool)
    ensures Keep(subdirs, UnmetAsWritten(present, absent, onDisk)) == if absent == [] then subdirs else []
  {
    forall i | 0 <= i < |subdirs|
      ensures UnmetAsWritten(present, absent, onDisk)(subdirs[i]) <==> absent != []
    {
      UnmetAsWrittenIgnoresConditions(present, absent, onDisk, subdirs[i]);
    }
    KeepExtremes(subdirs, UnmetAsWritten(present, absent, onDisk));
  }

  /** The intended predicate: drop a directory holding an absent name or missing a present
      name. */
  function Unmet(present: seq<string>, absent: seq<string>, onDisk: Path -> bool): Path -> bool
  {
    dir => AnyExists(dir, absent, onDisk) || AnyMissing(dir, present, onDisk)
  }

  /** A directory is a candidate for deletion exactly when every present name exists in it
      and no absent name does. */
  lemma CandidatesMeetConditions(subdirs: seq<Path>, present: seq<string>, absent: seq<string>,
                                 onDisk: Path -> bool)
    ensures forall dir {:trigger dir in Keep(subdirs, Unmet(present, absent, onDisk))} ::
      dir in Keep(subdirs, Unmet(present, absent, onDisk)) <==>
      dir in subdirs &&
      (forall i :: 0 <= i < |present| ==> onDisk(dir + [present[i]])) &&
      (forall i :: 0 <= i < |absent| ==> !onDisk(dir + [absent[i]]))
  {
    KeepMembers(subdirs, Unmet(present, absent, onDisk));
  }

  /** Input that shows the difference: with the present condition "keep" alone and nothing
      on disk, the code as written deletes `d` although it lacks "keep". */
  lemma PresentConditionIgnored()
    ensures var nothing := (p: Path) => false;
      Keep([["d"]], UnmetAsWritten(["keep"], [], nothing)) == [["d"]] &&
      Keep([["d"]], Unmet(["keep"], [], nothing)) == []
  {
    var nothing := (p: Path) => false;
    KeepOne(["d"], UnmetAsWritten(["keep"], [], nothing));
    KeepOne(["d"], Unmet(["keep"], [], nothing));
    assert !nothing(["d"] + [["keep"][0]]);
    assert AnyMissing(["d"], ["keep"], nothing);
  }

  /** With the absent condition "x" alone and nothing on disk, the code as written deletes
      nothing although `d` lacks "x". */
  lemma AbsentConditionInverted()
    ensures var nothing := (p: Path) => false;
      Keep([["d"]], UnmetAsWritten([], ["x"], nothing)) == [] &&
      Keep([["d"]], Unmet([], ["x"], nothing)) == [["d"]]
  {
    var nothing := (p: Path) => false;
    KeepOne(["d"], UnmetAsWritten([], ["x"], nothing));
    KeepOne(["d"], Unmet([], ["x"], nothing));
    assert !nothing(["d"] + [["x"][0]]);
    assert AnyMissing(["d"], ["x"], nothing);
  }

  // ---------------------------------------------------------------------------
  // Confirmation

  predicate IsYes(ans: string) { ans == "y" || ans == "Y" }

  predicate IsNo(ans: string) { ans == "n" || ans == "N" }

  /** The fate of one confirmation prompt: the answer, with how many words of standard
      input it read, or no answer at all (input ran out: `cin >> ans` leaves `ans` empty
      and the prompt repeats for ever). */
  datatype Reply = Confirmed(used: nat) | Declined(used: nat) | NoReply

  /** How the first y/Y/n/N word of `answers` ends a prompt; other words are re-prompted. */
  function FirstReply(answers: seq<string>): Reply
  {
    if answers == [] then NoReply
    else if IsYes(answers[0]) then Confirmed(1)
    else if IsNo(answers[0]) then Declined(1)
    else match FirstReply(answers[1..])
      case Confirmed(u) => Confirmed(u + 1)
      case Declined(u) => Declined(u + 1)
      case NoReply => NoReply
  }

  /** `bool yes = a_yes.isSet(); while (!yes) { ... }`: with `--yes` nothing is read. */
  function Ask(answers: seq<string>, assumeYes: bool): Reply
  {
    if assumeYes then Confirmed(0) else FirstReply(answers)
  }

  /** A reply is the first word that is y/Y (confirmed) or n/N (declined), counting how many
      words were read up to it; there is no reply exactly when no word is either. */
  lemma {:induction false} FirstReplySpec(answers: seq<string>)
    ensures var r := FirstReply(answers);
      (r.NoReply? <==> forall j :: 0 <= j < |answers| ==> !IsYes(answers[j]) && !IsNo(answers[j])) &&
      (!r.NoReply? ==> 1 <= r.used <= |answers|) &&
      (!r.NoReply? ==> forall j :: 0 <= j < r.used - 1 ==> !IsYes(answers[j]) && !IsNo(answers[j])) &&
      (!r.NoReply? ==> (r.Confirmed? <==> IsYes(answers[r.used - 1]))) &&
      (!r.NoReply? ==> (r.Declined? <==> !IsYes(answers[r.used - 1]) && IsNo(answers[r.used - 1])))
    decreases |answers|
  {
    if answers != [] && !IsYes(answers[0]) && !IsNo(answers[0]) {
      var rest := answers[1..];
      FirstReplySpec(rest);
      assert forall j :: 0 < j < |answers| ==> answers[j] == rest[j - 1];
    }
  }

  /** The prompt loop for one directory. `hangs` stands for the endless re-prompting once
      standard input is exhausted. */
  method Confirm(answers: seq<string>, assumeYes: bool) returns (yes: bool, used: nat, hangs: bool)
    ensures hangs <==> Ask(answers, assumeYes).NoReply?
    ensures !hangs ==> yes == Ask(answers, assumeYes).Confirmed? && used == Ask(answers, assumeYes).used
    ensures used <= |answers|
  {
    yes := assumeYes;
    used := 0;
    hangs := false;
    while !yes
      invariant used <= |answers|
      invariant !yes ==> FirstReply(answers) == ShiftReply(FirstReply(answers[used..]), used)
      invariant yes ==> assumeYes || FirstReply(answers) == Confirmed(used)
      invariant yes ==> assumeYes ==> used == 0
      decreases |answers| - used, !yes
    {
      if used == |answers| {
        hangs := true;
        return;
      }
      var ans := answers[used];
      assert answers[used..][1..] == answers[used + 1..];
      used := used + 1;
      if IsYes(ans) {
        yes := true;
        break;
      }
      if IsNo(ans) {
        yes := false;
        return;
      }
    }
  }

  /** A reply reads no more words than standard input delivers. */
  lemma AskUsed(answers: seq<string>, assumeYes: bool)
    ensures var r := Ask(answers, assumeYes);
      !r.NoReply? ==> (assumeYes ==> r.used == 0) && r.used <= |answers|
  {
    FirstReplySpec(answers);
  }

  /** A reply read after `k` words that were neither yes nor no. */
  function ShiftReply(r: Reply, k: nat): Reply
  {
    match r
    case Confirmed(u) => Confirmed(u + k)
    case Declined(u) => Declined(u + k)
    case NoReply => NoReply
  }

  // ---------------------------------------------------------------------------
  // Deletion

  /** What the deletion loop did: the directories removed, in order, the words of standard
      input read, and whether it ended waiting for an answer that never comes. */
  datatype Deletion = Deletion(removed: seq<Path>, used: nat, hangs: bool)

  /** The `for (subdir : subdirs)` loop: ask for each directory in turn, reading the answers
      for later directories after those for earlier ones, and remove it when confirmed. */
  function DeleteSpec(subdirs: seq<Path>, assumeYes: bool, answers: seq<string>): (d: Deletion)
    decreases |subdirs|
  {
    if subdirs == [] then Deletion([], 0, false)
    else
      AskUsed(answers, assumeYes);
      match Ask(answers, assumeYes)
      case NoReply => Deletion([], |answers|, true)
      case Confirmed(u) =>
        var rest := DeleteSpec(subdirs[1..], assumeYes, answers[u..]);
        Deletion([subdirs[0]] + rest.removed, u + rest.used, rest.hangs)
      case Declined(u) =>
        var rest := DeleteSpec(subdirs[1..], assumeYes, answers[u..]);
        Deletion(rest.removed, u + rest.used, rest.hangs)
  }

  /** One turn of the deletion loop: the first directory is asked about, and the rest of the
      loop reads the words after the reply. */
  lemma DeleteStep(subdirs: seq<Path>, assumeYes: bool, answers: seq<string>)
    requires subdirs != []
    ensures var d := DeleteSpec(subdirs, assumeYes, answers);
      var r := Ask(answers, assumeYes);
      (r.NoReply? ==> d.removed == [] && d.hangs) &&
      (!r.NoReply? ==>
         (r.used <= |answers| &&
          var rest := DeleteSpec(subdirs[1..], assumeYes, answers[r.used..]);
          d.removed == (if r.Confirmed? then [subdirs[0]] else []) + rest.removed &&
          d.hangs == rest.hangs))
  {
    AskUsed(answers, assumeYes);
  }

  /** The deletion loop with `remove_all` recorded as the list of directories removed. */
  method DeleteAll(subdirs: seq<Path>, assumeYes: bool, answers: seq<string>)
    returns (removed: seq<Path>, hangs: bool)
    ensures removed == DeleteSpec(subdirs, assumeYes, answers).removed
    ensures hangs == DeleteSpec(subdirs, assumeYes, answers).hangs
  {
    removed := [];
    hangs := false;
    var input := answers;
    ghost var whole := DeleteSpec(subdirs, assumeYes, answers);
    for i := 0 to |subdirs|
      invariant removed + DeleteSpec(subdirs[i..], assumeYes, input).removed == whole.removed
      invariant DeleteSpec(subdirs[i..], assumeYes, input).hangs == whole.hangs
    {
      DeleteStep(subdirs[i..], assumeYes, input);
      var yes, used, stuck := Confirm(input, assumeYes);
      if stuck {
        hangs := true;
        return;
      }
      assert subdirs[i..][1..] == subdirs[i + 1..];
      if yes {
        removed := removed + [subdirs[i]];
      }
      input := input[used..];
    }
    assert subdirs[|subdirs|..] == [];
  }

  /** With `--yes`, every candidate is removed, in order, and nothing is read. */
  lemma {:induction false} DeleteYesRemovesAll(subdirs: seq<Path>, answers: seq<string>)
    ensures DeleteSpec(subdirs, true, answers) == Deletion(subdirs, 0, false)
    decreases |subdirs|
  {
    if subdirs != [] {
      DeleteYesRemovesAll(subdirs[1..], answers);
      assert answers[0..] == answers;
    }
  }

  /** Only candidates are removed, each at most once and in candidate order: the removed
      directories are the candidates for which a word confirmed the deletion. */
  lemma {:induction false} DeleteOnlyCandidates(subdirs: seq<Path>, assumeYes: bool, answers: seq<string>)
    ensures var d := DeleteSpec(subdirs, assumeYes, answers);
      |d.removed| <= |subdirs| && d.used <= |answers| &&
      forall x {:trigger x in d.removed} :: x in d.removed ==> x in subdirs
    decreases |subdirs|
  {
    if subdirs != [] {
      FirstReplySpec(answers);
      var r := Ask(answers, assumeYes);
      if !r.NoReply? {
        DeleteOnlyCandidates(subdirs[1..], assumeYes, answers[r.used..]);
      }
    }
  }

  /** Answering "n" to every prompt removes nothing. */
  lemma {:induction false} DeleteAllDeclined(subdirs: seq<Path>, answers: seq<string>)
    requires |answers| >= |subdirs|
    requires forall j :: 0 <= j < |answers| ==> answers[j] == "n"
    ensures DeleteSpec(subdirs, false, answers) == Deletion([], |subdirs|, false)
    decreases |subdirs|
  {
    if subdirs != [] {
      assert FirstReply(answers) == Declined(1);
      DeleteAllDeclined(subdirs[1..], answers[1..]);
    }
  }

  // ---------------------------------------------------------------------------
  // main

  /** How the program ends: an exit code, or waiting for standard input for ever. */
  datatype Exit = Code(code: int) | Hangs

  /** What a run did: `listed` is the dry-run listing, `removed` the directories deleted. */
  datatype DelOutcome = DelOutcome(exit: Exit, listed: seq<Path>, removed: seq<Path>)

  /** The specification of `main` once the directories are listed, for a `remove_if`
      predicate `drop`: no condition is an error; no candidate, or a dry run, deletes
      nothing; `--exec` deletes the confirmed candidates. */
  function FilterAndDelete(subdirs: seq<Path>, present: seq<string>, absent: seq<string>,
                           drop: Path -> bool, exec: bool, assumeYes: bool, answers: seq<string>)
    : DelOutcome
  {
    if present == [] && absent == [] then DelOutcome(Code(1), [], [])
    else
      var candidates := Keep(subdirs, drop);
      if candidates == [] then DelOutcome(Code(0), [], [])
      else if exec then
        var d := DeleteSpec(candidates, assumeYes, answers);
        DelOutcome(if d.hangs then Hangs else Code(0), [], d.removed)
      else DelOutcome(Code(0), candidates, [])
  }

  /** The specification of `main` after argument parsing, filtering as the code does
      (`UnmetAsWritten`); a failed listing is reported with 1. */
  function DelDirsRun(root: Node, inDir: Path, depth: int, present: seq<string>, absent: seq<string>,
                      exec: bool, assumeYes: bool, onDisk: Path -> bool, answers: seq<string>): DelOutcome
  {
    match SubdirListing(root, inDir, depth, false)
    case Err(_) => DelOutcome(Code(1), [], [])
    case Ok(subdirs) =>
      FilterAndDelete(subdirs, present, absent, UnmetAsWritten(present, absent, onDisk), exec, assumeYes, answers)
  }

  /** `main` from the condition check on (deldirs.cpp, lines 35 to 91). */
  method FilterAndDeleteMain(subdirs: seq<Path>, present: seq<string>, absent: seq<string>,
                             drop: Path -> bool, exec: bool, assumeYes: bool, answers: seq<string>)
    returns (o: DelOutcome)
    ensures o == FilterAndDelete(subdirs, present, absent, drop, exec, assumeYes, answers)
  {
    if present == [] && absent == [] {
      return DelOutcome(Code(1), [], []);
    }
    var candidates := EraseIf(subdirs, drop);
    if candidates == [] {
      return DelOutcome(Code(0), [], []);
    }
    if exec {
      var removed, hangs := DeleteAll(candidates, assumeYes, answers);
      return DelOutcome(if hangs then Hangs else Code(0), [], removed);
    }
    return DelOutcome(Code(0), candidates, []);
  }

  /** `main` after argument parsing, with the existence of entries given by `onDisk` and
      standard input by the words `answers`. */
  method DelDirsMain(root: Node, inDir: Path, depth: int, present: seq<string>, absent: seq<string>,
                     exec: bool, assumeYes: bool, onDisk: Path -> bool, answers: seq<string>)
    returns (o: DelOutcome)
    ensures o == DelDirsRun(root, inDir, depth, present, absent, exec, assumeYes, onDisk, answers)
  {
    var listing := ListSubdirs(root, inDir, depth, false);
    if listing.Err? {
      return DelOutcome(Code(1), [], []);
    }
    o := FilterAndDeleteMain(listing.value, present, absent, UnmetAsWritten(present, absent, onDisk),
                             exec, assumeYes, answers);
  }

  /** The exit code is 1 exactly when the listing fails or no condition is given; the program
      only hangs when it asks for a confirmation, which as written needs no absent condition,
      and standard input runs out. */
  lemma DelDirsExit(root: Node, inDir: Path, depth: int, present: seq<string>, absent: seq<string>,
                    exec: bool, assumeYes: bool, onDisk: Path -> bool, answers: seq<string>)
    ensures var o := DelDirsRun(root, inDir, depth, present, absent, exec, assumeYes, onDisk, answers);
      (o.exit == Code(1) <==>
        SubdirListing(root, inDir, depth, false).Err? || (present == [] && absent == [])) &&
      (o.exit.Code? ==> o.exit.code == 0 || o.exit.code == 1) &&
      (o.exit == Hangs ==> exec && !assumeYes && absent == [])
  {
    var listing := SubdirListing(root, inDir, depth, false);
    if listing.Ok? && !(present == [] && absent == []) {
      var drop := UnmetAsWritten(present, absent, onDisk);
      var candidates := Keep(listing.value, drop);
      CandidatesAsWritten(listing.value, present, absent, onDisk);
      if candidates != [] && exec && assumeYes {
        DeleteYesRemovesAll(candidates, answers);
      }
    }
  }

  /** What the program as written does once the listing succeeded: any absent condition
      makes it report nothing to delete; with present conditions only, every listed
      directory is a candidate, so a dry run lists them all and `--exec --yes` removes them
      all, whatever they contain. */
  lemma DelDirsAsWritten(root: Node, inDir: Path, depth: int, present: seq<string>, absent: seq<string>,
                         exec: bool, assumeYes: bool, onDisk: Path -> bool, answers: seq<string>,
                         subdirs: seq<Path>)
    requires SubdirListing(root, inDir, depth, false) == Ok(subdirs)
    ensures var o := DelDirsRun(root, inDir, depth, present, absent, exec, assumeYes, onDisk, answers);
      (absent != [] ==> o == DelOutcome(Code(0), [], [])) &&
      (absent == [] && present != [] && !exec ==> o == DelOutcome(Code(0), subdirs, [])) &&
      (absent == [] && present != [] && exec && assumeYes ==> o == DelOutcome(Code(0), [], subdirs))
  {
    CandidatesAsWritten(subdirs, present, absent, onDisk);
    if absent == [] && present != [] && exec && assumeYes && subdirs != [] {
      DeleteYesRemovesAll(subdirs, answers);
    }
  }

  /** For any filter: without `--exec` nothing is deleted and the candidates are listed;
      with `--exec` and `--yes` every candidate is deleted; whatever is deleted or listed is
      a directory of the listing that the filter kept. */
  lemma FilterAndDeleteEffects(subdirs: seq<Path>, present: seq<string>, absent: seq<string>,
                               drop: Path -> bool, exec: bool, assumeYes: bool, answers: seq<string>)
    requires present != [] || absent != []
    ensures var o := FilterAndDelete(subdirs, present, absent, drop, exec, assumeYes, answers);
      var candidates := Keep(subdirs, drop);
      (!exec ==> o.removed == [] && o.listed == candidates) &&
      (exec ==> o.listed == []) &&
      (exec && assumeYes ==> o.removed == candidates && o.exit == Code(0)) &&
      (forall dir :: dir in o.removed || dir in o.listed ==> dir in subdirs && !drop(dir))
  {
    var candidates := Keep(subdirs, drop);
    KeepMembers(subdirs, drop);
    if candidates != [] && exec {
      DeleteOnlyCandidates(candidates, assumeYes, answers);
      if assumeYes {
        DeleteYesRemovesAll(candidates, answers);
      }
    }
  }

  /** With the intended filter, whatever is deleted or listed is a listed sub-directory
      meeting every condition. */
  lemma IntendedDeletesOnlyMatches(subdirs: seq<Path>, present: seq<string>, absent: seq<string>,
                                   exec: bool, assumeYes: bool, onDisk: Path -> bool, answers: seq<string>)
    requires present != [] || absent != []
    ensures var o := FilterAndDelete(subdirs, present, absent, Unmet(present, absent, onDisk), exec,
                                     assumeYes, answers);
      forall dir :: dir in o.removed || dir in o.listed ==>
        dir in subdirs &&
        (forall i :: 0 <= i < |present| ==> onDisk(dir + [present[i]])) &&
        (forall i :: 0 <= i < |absent| ==> !onDisk(dir + [absent[i]]))
  {
    var drop := Unmet(present, absent, onDisk);
    FilterAndDeleteEffects(subdirs, present, absent, drop, exec, assumeYes, answers);
    CandidatesMeetConditions(subdirs, present, absent, onDisk);
    var o := FilterAndDelete(subdirs, present, absent, drop, exec, assumeYes, answers);
    forall dir | dir in o.removed || dir in o.listed
      ensures dir in Keep(subdirs, drop)
    {
      KeepMembers(subdirs, drop);
    }
  }

  /** The directories listed for deletion, by any filter, all lie at the same depth below
      the input directory and are distinct, so removing one never removes another. */
  lemma CandidatesDisjoint(root: Node, inDir: Path, depth: int, subdirs: seq<Path>, drop: Path -> bool)
    requires WellFormed(root) && SubdirListing(root, inDir, depth, false) == Ok(subdirs)
    ensures var candidates := Keep(subdirs, drop);
      forall a, b :: a in candidates && b in candidates && a != b ==> !(a <= b) && !(b <= a)
  {
    var candidates := Keep(subdirs, drop);
    KeepMembers(subdirs, drop);
    if depth >= 0 {
      ListingMembers(root, inDir, depth, false, subdirs);
      forall a, b | a in candidates && b in candidates && a != b ensures !(a <= b) && !(b <= a) {
        assert |a| == |b|;
      }
    } else {
      NegativeDepthEmpty(root, inDir, depth, false, subdirs);
    }
  }
}
