/**
 The traversal of `convert_aliases_to_symlinks` as functions on the file
 system table: `Step` is the policy for one listed entry, `Run` goes through a
 listing in order, `Walk` lists one directory and runs its entries, and
 `Convert` is the entry point with its root check. The operating-system
 services are oracles collected in `Services`.
 */
module Walker {
  import opened PyStr
  import opened PosixPath
  import opened Classifier
  import opened Resolver
  import opened Volume

  /** How the backup-and-link sequence for one alias ends: both calls
      succeed, `shutil.move` raises, or `os.symlink` raises after the move. */
  datatype Mutation = Completed | MoveRaised | LinkRaised

  /** The oracles: the platform test, the metadata tool, Finder's original
      item, whether `os.listdir` succeeds on a path, and how the mutation of
      an alias path ends. */
  datatype Services = Services(
    darwin: bool,
    kind: string -> Probe,
    finder: string -> string,
    listable: string -> bool,
    mutate: string -> Mutation)

  datatype Tally = Tally(success: nat, failure: nat)

  /** The table and the counters at some point of the run; `escaped` records
      that an exception left `process_folder` and ends the traversal. */
  datatype Snapshot = Snapshot(fs: Table, tally: Tally, escaped: bool)

  /** Neither counter went down. */
  predicate Grows(t: Tally, t': Tally)
  {
    t.success <= t'.success && t.failure <= t'.failure
  }

  /** Entries whose name starts with '.' are skipped. */
  predicate Hidden(item: string): (hidden: bool)
    ensures hidden <==> item != [] && item[0] == '.'
  {
    StartsWith(item, ".")
  }

  /** `.<name>.backup`, the hidden name the alias is moved to. */
  function BackupName(item: string): (b: string)
    ensures Hidden(b)
    ensures ValidName(item) ==> ValidName(b) && b != item
  {
    "." + item + ".backup"
  }

  /** The directory-level guard: the alias directory's target is the folder
      being walked, or starts with the string of that folder's parent. The
      first test is subsumed by the second. */
  predicate SkipsDirectory(target: string, current: string): (skip: bool)
    ensures skip <==> StartsWith(target, Dirname(current))
  {
    target == current || StartsWith(target, Dirname(current))
  }

  /** The termination measure: the directories a walk from `current` can
      still reach. Without recursion nothing is descended into. */
  ghost function Budget(recursive: bool, fs: Table, current: string): set<string>
  {
    if recursive then DirsBeyond(fs, current) else {}
  }

  /** A snapshot with one more failure. */
  function CountFailure(s: Snapshot): Snapshot
  {
    s.(tally := s.tally.(failure := s.tally.failure + 1))
  }

  /** The `try` block of the loop for an entry classified as an alias:
      resolve it, then back it up and link it, counting one success or one
      failure. */
  function AliasEntry(sv: Services, current: string, item: string, s: Snapshot): (r: Snapshot)
    requires WellFormed(s.fs) && ValidName(item) && !s.escaped
    ensures WellFormed(r.fs) && !r.escaped
    ensures Grows(s.tally, r.tally)
    ensures ConfinedTo(s.fs, r.fs, current)
    ensures !IsDir(s.fs, Join(current, item)) ==> DirPaths(r.fs) <= DirPaths(s.fs)
  {
    var path := Join(current, item);
    JoinBelow(current, item);
    JoinBelow(current, BackupName(item));
    var target := ResolveAlias(sv.darwin, path in s.fs, sv.finder, path);
    if target == [] then CountFailure(s)
    else match sv.mutate(path)
      case MoveRaised => CountFailure(s)
      case LinkRaised =>
        MoveFrame(s.fs, current, item, BackupName(item));
        CountFailure(s.(fs := Move(s.fs, current, item, BackupName(item))))
      case Completed =>
        s.(fs := BackupAndLink(s.fs, current, item, target), tally := s.tally.(success := s.tally.success + 1))
  }

  /** `shutil.move(path, backup_path)` followed by `os.symlink(original_path,
      path)`: the old node ends up under the backup name and the path holds
      a link to the target. `BackupThenLink` states what else it keeps. */
  function BackupAndLink(fs: Table, dir: string, item: string, target: string): (r: Table)
    requires ValidName(item) && Join(dir, item) in fs
    ensures Join(dir, BackupName(item)) in r && r[Join(dir, BackupName(item))] == fs[Join(dir, item)]
    ensures Join(dir, item) in r && r[Join(dir, item)] == Symlink(target)
    ensures WellFormed(fs) ==> WellFormed(r)
    ensures ConfinedTo(fs, r, dir)
    ensures !fs[Join(dir, item)].Directory? ==> DirPaths(r) <= DirPaths(fs)
  {
    MoveFrame(fs, dir, item, BackupName(item));
    var moved := Move(fs, dir, item, BackupName(item));
    LinkFrame(moved, dir, item, target);
    var linked := Link(moved, dir, item, target);
    ConfinedTrans(fs, moved, linked, dir);
    linked
  }

  /** One iteration of the loop in `process_folder` for the listed `item`. */
  function Step(sv: Services, recursive: bool, current: string, item: string, s: Snapshot): (r: Snapshot)
    requires WellFormed(s.fs) && ValidName(item) && !s.escaped
    ensures WellFormed(r.fs)
    ensures Grows(s.tally, r.tally)
    ensures ConfinedTo(s.fs, r.fs, current)
    ensures recursive ==> DirPaths(r.fs) <= DirPaths(s.fs)
    decreases Budget(recursive, s.fs, current), 0, 0
  {
    var path := Join(current, item);
    JoinBelow(current, item);
    if Hidden(item) then s
    else if IsDir(s.fs, path) && recursive then
      if IsAliasFile(sv.kind, path)
         && SkipsDirectory(ResolveAlias(sv.darwin, path in s.fs, sv.finder, path), current)
      then s
      else
        DirsBeyondShrink(s.fs, current, path);
        Walk(sv, recursive, path, s)
    else if !IsAliasFile(sv.kind, path) then s
    else AliasEntry(sv, current, item, s)
  }

  /** The loop of `process_folder` over the remaining `items`; an escaping
      exception stops it. */
  function Run(sv: Services, recursive: bool, current: string, items: seq<string>, s: Snapshot): (r: Snapshot)
    requires WellFormed(s.fs) && !s.escaped
    requires forall n :: n in items ==> ValidName(n)
    ensures WellFormed(r.fs)
    ensures Grows(s.tally, r.tally)
    ensures ConfinedTo(s.fs, r.fs, current)
    ensures recursive ==> DirPaths(r.fs) <= DirPaths(s.fs)
    decreases Budget(recursive, s.fs, current), 1, |items|
  {
    if items == [] then s
    else
      var next := Step(sv, recursive, current, items[0], s);
      if next.escaped then next
      else
        assert Budget(recursive, next.fs, current) <= Budget(recursive, s.fs, current);
        Run(sv, recursive, current, items[1..], next)
  }

  /** `process_folder(current)`: list the directory (which may raise) and
      run its entries. */
  function Walk(sv: Services, recursive: bool, current: string, s: Snapshot): (r: Snapshot)
    requires WellFormed(s.fs) && IsDir(s.fs, current) && !s.escaped
    ensures WellFormed(r.fs)
    ensures Grows(s.tally, r.tally)
    ensures ConfinedTo(s.fs, r.fs, current)
    ensures recursive ==> DirPaths(r.fs) <= DirPaths(s.fs)
    decreases Budget(recursive, s.fs, current), 2, 0
  {
    if !sv.listable(current) then s.(escaped := true)
    else Run(sv, recursive, current, s.fs[current].children, s)
  }

  /** `convert_aliases_to_symlinks(root, recursive)`: the final table and
      the counts it returns; `escaped` is true when it reported an error. */
  function Convert(sv: Services, fs: Table, root: string, recursive: bool): (r: Snapshot)
    requires WellFormed(fs)
    ensures !IsDir(fs, root) ==> r == Snapshot(fs, Tally(0, 0), true)
    ensures WellFormed(r.fs)
    ensures ConfinedTo(fs, r.fs, root)
  {
    if !IsDir(fs, root) then Snapshot(fs, Tally(0, 0), true)
    else Walk(sv, recursive, root, Snapshot(fs, Tally(0, 0), false))
  }

  // ---------------------------------------------------------------------
  // The per-entry policy

  /** A hidden entry is not classified, not descended into, and changes
      neither the table nor the counters. */
  lemma HiddenEntrySkipped(sv: Services, recursive: bool, current: string, item: string, s: Snapshot)
    requires WellFormed(s.fs) && ValidName(item) && !s.escaped
    requires Hidden(item)
    ensures Step(sv, recursive, current, item, s) == s
  {
  }

  /** An entry handled as a file that the metadata tool does not call an
      alias changes neither the table nor the counters. */
  lemma PlainEntryUntouched(sv: Services, recursive: bool, current: string, item: string, s: Snapshot)
    requires WellFormed(s.fs) && ValidName(item) && !s.escaped
    requires !Hidden(item) && !(recursive && IsDir(s.fs, Join(current, item)))
    requires !IsAliasFile(sv.kind, Join(current, item))
    ensures Step(sv, recursive, current, item, s) == s
  {
  }

  /** A sub-directory met during a recursive walk is skipped by the
      directory-level guard or walked. */
  lemma StepOnDirectory(sv: Services, recursive: bool, current: string, item: string, s: Snapshot)
    requires WellFormed(s.fs) && ValidName(item) && !s.escaped
    requires !Hidden(item) && recursive && IsDir(s.fs, Join(current, item))
    ensures var path := Join(current, item);
            Step(sv, recursive, current, item, s)
            == if IsAliasFile(sv.kind, path)
                  && SkipsDirectory(ResolveAlias(sv.darwin, true, sv.finder, path), current)
               then s else Walk(sv, recursive, path, s)
  {
  }

  /** One turn of the loop: the first entry is stepped, and the rest run
      unless an exception escaped. */
  lemma RunUnfold(sv: Services, recursive: bool, current: string, items: seq<string>, s: Snapshot)
    requires WellFormed(s.fs) && !s.escaped
    requires forall n :: n in items ==> ValidName(n)
    requires items != []
    ensures var next := Step(sv, recursive, current, items[0], s);
            Run(sv, recursive, current, items, s)
            == if next.escaped then next else Run(sv, recursive, current, items[1..], next)
  {
  }

  /** An entry handled as a file and classified as an alias goes through the
      `try` block. */
  lemma StepOnAlias(sv: Services, recursive: bool, current: string, item: string, s: Snapshot)
    requires WellFormed(s.fs) && ValidName(item) && !s.escaped
    requires !Hidden(item) && !(recursive && IsDir(s.fs, Join(current, item)))
    requires IsAliasFile(sv.kind, Join(current, item))
    ensures Step(sv, recursive, current, item, s) == AliasEntry(sv, current, item, s)
  {
  }

  /** An entry handled as a file and classified as an alias adds exactly one
      to success plus failure, and never escapes. */
  lemma AliasEntryCountedOnce(sv: Services, recursive: bool, current: string, item: string, s: Snapshot)
    requires WellFormed(s.fs) && ValidName(item) && !s.escaped
    requires !Hidden(item) && !(recursive && IsDir(s.fs, Join(current, item)))
    requires IsAliasFile(sv.kind, Join(current, item))
    ensures var r := Step(sv, recursive, current, item, s);
            !r.escaped && r.tally.success + r.tally.failure == s.tally.success + s.tally.failure + 1
  {
    StepOnAlias(sv, recursive, current, item, s);
    AliasEntryCases(sv, current, item, s);
  }

  /** Backing up and linking changes no path other than the entry, its
      backup and the folder, and the folder's listing gains the backup name
      and keeps the entry's name. */
  lemma BackupThenLink(fs: Table, dir: string, item: string, target: string)
    requires ValidName(item) && Join(dir, item) in fs
    ensures var path, backup := Join(dir, item), Join(dir, BackupName(item));
            var r := BackupAndLink(fs, dir, item, target);
            && (forall p :: p != path && p != backup && p != dir ==> Same(fs, r, p))
            && (IsDir(fs, dir) ==> IsDir(r, dir))
            && (IsDir(fs, dir) ==>
                  forall n :: n in r[dir].children <==> n in fs[dir].children || n == BackupName(item) || n == item)
  {
    JoinInjective(dir, item, BackupName(item));
    JoinBelow(dir, item);
    JoinBelow(dir, BackupName(item));
    var path, backup := Join(dir, item), Join(dir, BackupName(item));
    MoveFrame(fs, dir, item, BackupName(item));
    var moved := Move(fs, dir, item, BackupName(item));
    LinkFrame(moved, dir, item, target);
    var r := Link(moved, dir, item, target);
    assert r == BackupAndLink(fs, dir, item, target);
    forall p | p != path && p != backup && p != dir ensures Same(fs, r, p) {
      assert Same(fs, moved, p) && Same(moved, r, p);
    }
  }

  /** A successful conversion: the alias now lives under its backup name,
      the original path is a link to the resolved target, one more success,
      and nothing else changed except the listing of the folder, which gains
      the backup name. The target is never the alias's own folder string. */
  lemma AliasConverted(sv: Services, recursive: bool, current: string, item: string, s: Snapshot)
    requires WellFormed(s.fs) && ValidName(item) && !s.escaped
    requires !Hidden(item) && !(recursive && IsDir(s.fs, Join(current, item)))
    requires IsAliasFile(sv.kind, Join(current, item))
    requires ResolveAlias(sv.darwin, Join(current, item) in s.fs, sv.finder, Join(current, item)) != []
    requires sv.mutate(Join(current, item)) == Completed
    ensures var r := Step(sv, recursive, current, item, s);
            var path := Join(current, item);
            var target := ResolveAlias(sv.darwin, path in s.fs, sv.finder, path);
            && !StartsWith(target, Dirname(path))
            && r.fs == BackupAndLink(s.fs, current, item, target)
            && r.tally == Tally(s.tally.success + 1, s.tally.failure) && !r.escaped
  {
    StepOnAlias(sv, recursive, current, item, s);
    AliasEntryCases(sv, current, item, s);
  }

  /** `AliasEntry` by cases: no target, the move raising, the link
      raising, and the completed conversion. */
  lemma AliasEntryCases(sv: Services, current: string, item: string, s: Snapshot)
    requires WellFormed(s.fs) && ValidName(item) && !s.escaped
    ensures var path := Join(current, item);
            var target := ResolveAlias(sv.darwin, path in s.fs, sv.finder, path);
            var r := AliasEntry(sv, current, item, s);
            && (target == [] ==> r == CountFailure(s))
            && (target != [] && sv.mutate(path) == MoveRaised ==> r == CountFailure(s))
            && (target != [] && sv.mutate(path) == LinkRaised ==>
                  path in s.fs && r == CountFailure(s.(fs := Move(s.fs, current, item, BackupName(item)))))
            && (target != [] && sv.mutate(path) == Completed ==>
                  path in s.fs &&
                  r == s.(fs := BackupAndLink(s.fs, current, item, target),
                          tally := s.tally.(success := s.tally.success + 1)))
  {
    var path := Join(current, item);
    var target := ResolveAlias(sv.darwin, path in s.fs, sv.finder, path);
    if target == [] {
      AliasEntryUnresolved(sv, current, item, s);
    } else if sv.mutate(path) == MoveRaised {
      AliasEntryMoveRaised(sv, current, item, s);
    } else if sv.mutate(path) == LinkRaised {
      AliasEntryLinkRaised(sv, current, item, s);
    } else {
      AliasEntryCompleted(sv, current, item, s);
    }
  }

  lemma AliasEntryUnresolved(sv: Services, current: string, item: string, s: Snapshot)
    requires WellFormed(s.fs) && ValidName(item) && !s.escaped
    requires ResolveAlias(sv.darwin, Join(current, item) in s.fs, sv.finder, Join(current, item)) == []
    ensures AliasEntry(sv, current, item, s) == CountFailure(s)
  {
  }

  lemma AliasEntryMoveRaised(sv: Services, current: string, item: string, s: Snapshot)
    requires WellFormed(s.fs) && ValidName(item) && !s.escaped
    requires ResolveAlias(sv.darwin, Join(current, item) in s.fs, sv.finder, Join(current, item)) != []
    requires sv.mutate(Join(current, item)) == MoveRaised
    ensures AliasEntry(sv, current, item, s) == CountFailure(s)
  {
  }

  lemma AliasEntryLinkRaised(sv: Services, current: string, item: string, s: Snapshot)
    requires WellFormed(s.fs) && ValidName(item) && !s.escaped
    requires ResolveAlias(sv.darwin, Join(current, item) in s.fs, sv.finder, Join(current, item)) != []
    requires sv.mutate(Join(current, item)) == LinkRaised
    ensures Join(current, item) in s.fs
    ensures AliasEntry(sv, current, item, s) == CountFailure(s.(fs := Move(s.fs, current, item, BackupName(item))))
  {
  }

  lemma AliasEntryCompleted(sv: Services, current: string, item: string, s: Snapshot)
    requires WellFormed(s.fs) && ValidName(item) && !s.escaped
    requires ResolveAlias(sv.darwin, Join(current, item) in s.fs, sv.finder, Join(current, item)) != []
    requires sv.mutate(Join(current, item)) == Completed
    ensures Join(current, item) in s.fs
    ensures var path := Join(current, item);
            var target := ResolveAlias(sv.darwin, path in s.fs, sv.finder, path);
            AliasEntry(sv, current, item, s)
            == s.(fs := BackupAndLink(s.fs, current, item, target), tally := s.tally.(success := s.tally.success + 1))
  {
  }

  /** An alias that does not resolve (`""`) costs one failure and changes
      nothing on disk. */
  lemma UnresolvedAliasFails(sv: Services, recursive: bool, current: string, item: string, s: Snapshot)
    requires WellFormed(s.fs) && ValidName(item) && !s.escaped
    requires !Hidden(item) && !(recursive && IsDir(s.fs, Join(current, item)))
    requires IsAliasFile(sv.kind, Join(current, item))
    requires ResolveAlias(sv.darwin, Join(current, item) in s.fs, sv.finder, Join(current, item)) == []
    ensures Step(sv, recursive, current, item, s) == CountFailure(s)
  {
    StepOnAlias(sv, recursive, current, item, s);
  }

  /** The caught exceptions of the backup-and-link step cost one failure: a
      failed move changes nothing; a link failing after the move leaves the
      alias under its backup name and nothing at the original path. */
  lemma MutationFailureCounted(sv: Services, recursive: bool, current: string, item: string, s: Snapshot)
    requires WellFormed(s.fs) && ValidName(item) && !s.escaped
    requires !Hidden(item) && !(recursive && IsDir(s.fs, Join(current, item)))
    requires IsAliasFile(sv.kind, Join(current, item))
    requires ResolveAlias(sv.darwin, Join(current, item) in s.fs, sv.finder, Join(current, item)) != []
    requires sv.mutate(Join(current, item)) != Completed
    ensures var r := Step(sv, recursive, current, item, s);
            var path, backup := Join(current, item), Join(current, BackupName(item));
            && r.tally == Tally(s.tally.success, s.tally.failure + 1) && !r.escaped
            && (sv.mutate(path) == MoveRaised ==> r.fs == s.fs)
            && (sv.mutate(path) == LinkRaised ==>
                  path in s.fs && path !in r.fs && backup in r.fs && r.fs[backup] == s.fs[path])
  {
    StepOnAlias(sv, recursive, current, item, s);
    if sv.mutate(Join(current, item)) == MoveRaised {
      AliasEntryMoveRaised(sv, current, item, s);
    } else {
      AliasEntryLinkRaised(sv, current, item, s);
      JoinInjective(current, item, BackupName(item));
      MoveFrame(s.fs, current, item, BackupName(item));
    }
  }

  /** The directory-level guard on absolute paths: a sub-directory is
      skipped exactly when it is classified as an alias and resolves to a
      non-empty target starting with the parent of the folder being walked;
      otherwise it is descended into, also when its resolution fails. The
      test against the folder itself never decides anything, because the
      resolver already rejects that target. */
  lemma DirectoryEntryPolicy(sv: Services, recursive: bool, current: string, item: string, s: Snapshot)
    requires WellFormed(s.fs) && ValidName(item) && !s.escaped
    requires IsAbsolute(current)
    requires !Hidden(item) && recursive && IsDir(s.fs, Join(current, item))
    ensures var path := Join(current, item);
            var target := ResolveAlias(sv.darwin, path in s.fs, sv.finder, path);
            var skip := IsAliasFile(sv.kind, path) && target != [] && StartsWith(target, Dirname(current));
            && (skip ==> Step(sv, recursive, current, item, s) == s)
            && (!skip ==> Step(sv, recursive, current, item, s) == Walk(sv, recursive, path, s))
  {
    var path := Join(current, item);
    var target := ResolveAlias(sv.darwin, path in s.fs, sv.finder, path);
    assert '/' in current by { assert current[0] == '/'; }
    assert Dirname(current) != [];
    if target == current {
      // the resolver rejects anything starting with the alias's parent,
      // and that parent is a prefix of `current`
      DirnameOfJoin(current, item);
      assert StartsWith(target, Dirname(path));
      assert false;
    }
    assert SkipsDirectory(target, current) <==> target != [] && StartsWith(target, Dirname(current));
  }

  /** A sub-directory classified as an alias whose Finder answer is the
      folder being walked is descended into: the resolver already rejects
      that answer (it starts with the alias's parent), so the directory-level
      guard sees `""` and lets the walk in. */
  lemma AliasToOwnFolderEntered(sv: Services, recursive: bool, current: string, item: string, s: Snapshot)
    requires WellFormed(s.fs) && ValidName(item) && !s.escaped
    requires IsAbsolute(current)
    requires !Hidden(item) && recursive && IsDir(s.fs, Join(current, item))
    requires Strip(sv.finder(Join(current, item))) == current
    ensures ResolveAlias(sv.darwin, true, sv.finder, Join(current, item)) == []
    ensures Step(sv, recursive, current, item, s) == Walk(sv, recursive, Join(current, item), s)
  {
    DirnameOfJoin(current, item);
    DirectoryEntryPolicy(sv, recursive, current, item, s);
  }

  /** The resolver's guard is a string-prefix test against the alias's
      parent, so an answer naming an ancestor of that parent (a strict prefix
      of its string, such as `/r` for the alias `/r/a/x`) passes it, and the
      alias is replaced by a link to that ancestor. */
  lemma AncestorTargetAccepted(sv: Services, recursive: bool, current: string, item: string, s: Snapshot)
    requires WellFormed(s.fs) && ValidName(item) && !s.escaped
    requires !Hidden(item) && !(recursive && IsDir(s.fs, Join(current, item)))
    requires IsAliasFile(sv.kind, Join(current, item)) && Join(current, item) in s.fs
    requires sv.darwin && sv.mutate(Join(current, item)) == Completed
    requires var t := Strip(sv.finder(Join(current, item)));
             t != [] && t < Dirname(Join(current, item))
    ensures var path := Join(current, item);
            var t := Strip(sv.finder(path));
            var r := Step(sv, recursive, current, item, s);
            && ResolveAlias(sv.darwin, true, sv.finder, path) == t
            && r.fs == BackupAndLink(s.fs, current, item, t)
            && r.fs[path] == Symlink(t)
            && r.tally.success == s.tally.success + 1
  {
    var path := Join(current, item);
    assert !StartsWith(Strip(sv.finder(path)), Dirname(path));
    AliasConverted(sv, recursive, current, item, s);
  }

  // ---------------------------------------------------------------------
  // Whole traversals

  /** No alias resolves: either the tool never classifies anything as an
      alias, or Finder never gives a usable target (off macOS, empty
      answers, or answers the cycle guard rejects). */
  ghost predicate NothingResolves(sv: Services)
  {
    forall p :: IsAliasFile(sv.kind, p) ==> ResolveAlias(sv.darwin, true, sv.finder, p) == []
  }

  lemma {:induction false} StepWithoutResolution(sv: Services, recursive: bool, current: string, item: string, s: Snapshot)
    requires WellFormed(s.fs) && ValidName(item) && !s.escaped
    requires NothingResolves(sv)
    ensures var r := Step(sv, recursive, current, item, s);
            r.fs == s.fs && r.tally.success == s.tally.success
    decreases Budget(recursive, s.fs, current), 0, 0
  {
    var path := Join(current, item);
    JoinBelow(current, item);
    if Hidden(item) {
      HiddenEntrySkipped(sv, recursive, current, item, s);
    } else if IsDir(s.fs, path) && recursive {
      StepOnDirectory(sv, recursive, current, item, s);
      if !(IsAliasFile(sv.kind, path) && SkipsDirectory(ResolveAlias(sv.darwin, true, sv.finder, path), current)) {
        DirsBeyondShrink(s.fs, current, path);
        WalkWithoutResolution(sv, recursive, path, s);
      }
    } else if IsAliasFile(sv.kind, path) {
      StepOnAlias(sv, recursive, current, item, s);
      AliasEntryCases(sv, current, item, s);
      assert ResolveAlias(sv.darwin, true, sv.finder, path) == [];
      assert ResolveAlias(sv.darwin, path in s.fs, sv.finder, path) == [];
    } else {
      PlainEntryUntouched(sv, recursive, current, item, s);
    }
  }

  lemma {:induction false} RunWithoutResolution(sv: Services, recursive: bool, current: string, items: seq<string>, s: Snapshot)
    requires WellFormed(s.fs) && !s.escaped
    requires forall n :: n in items ==> ValidName(n)
    requires NothingResolves(sv)
    ensures var r := Run(sv, recursive, current, items, s);
            r.fs == s.fs && r.tally.success == s.tally.success
    decreases Budget(recursive, s.fs, current), 1, |items|
  {
    if items != [] {
      StepWithoutResolution(sv, recursive, current, items[0], s);
      var next := Step(sv, recursive, current, items[0], s);
      if !next.escaped {
        RunWithoutResolution(sv, recursive, current, items[1..], next);
      }
    }
  }

  /** Without a resolvable alias a walk changes nothing on disk and counts no
      success, whatever the listings and however often it fails. */
  lemma {:induction false} WalkWithoutResolution(sv: Services, recursive: bool, current: string, s: Snapshot)
    requires WellFormed(s.fs) && IsDir(s.fs, current) && !s.escaped
    requires NothingResolves(sv)
    ensures var r := Walk(sv, recursive, current, s);
            r.fs == s.fs && r.tally.success == s.tally.success
    decreases Budget(recursive, s.fs, current), 2, 0
  {
    if sv.listable(current) {
      RunWithoutResolution(sv, recursive, current, s.fs[current].children, s);
    }
  }

  /** Off macOS no conversion happens: the table is unchanged and the success
      count is zero. */
  lemma OffPlatformConvertsNothing(sv: Services, fs: Table, root: string, recursive: bool)
    requires WellFormed(fs) && !sv.darwin
    ensures Convert(sv, fs, root, recursive).fs == fs
    ensures Convert(sv, fs, root, recursive).tally.success == 0
  {
    if IsDir(fs, root) {
      WalkWithoutResolution(sv, recursive, root, Snapshot(fs, Tally(0, 0), false));
    }
  }

  /** A root that is not a directory, or whose listing fails, ends the run at
      once with `(0, 0)` and no change. */
  lemma RootFailureReturnsZero(sv: Services, fs: Table, root: string, recursive: bool)
    requires WellFormed(fs)
    requires !IsDir(fs, root) || !sv.listable(root)
    ensures Convert(sv, fs, root, recursive) == Snapshot(fs, Tally(0, 0), true)
  {
  }
  // ---------------------------------------------------------------------
  // What later entries leave alone

  /** `p` is out of reach of the step on `item` in `current`: a hidden entry
      is skipped, and any other step changes only the folder, the entry,
      the entry's backup and what lies below the entry. */
  ghost predicate OutOfReach(current: string, item: string, p: string)
  {
    Hidden(item)
    || (p != current && p != Join(current, item) && p != Join(current, BackupName(item))
        && !Below(p, Join(current, item)))
  }

  /** The loop body changes nothing out of its entry's reach. */
  lemma StepFrame(sv: Services, recursive: bool, current: string, item: string, s: Snapshot, p: string)
    requires WellFormed(s.fs) && ValidName(item) && !s.escaped
    requires OutOfReach(current, item, p)
    ensures Same(s.fs, Step(sv, recursive, current, item, s).fs, p)
  {
    var path := Join(current, item);
    if Hidden(item) {
      HiddenEntrySkipped(sv, recursive, current, item, s);
    } else if IsDir(s.fs, path) && recursive {
      StepOnDirectory(sv, recursive, current, item, s);
    } else if IsAliasFile(sv.kind, path) {
      StepOnAlias(sv, recursive, current, item, s);
      AliasEntryCases(sv, current, item, s);
      var target := ResolveAlias(sv.darwin, path in s.fs, sv.finder, path);
      if target != [] && sv.mutate(path) == LinkRaised {
        JoinInjective(current, item, BackupName(item));
        MoveFrame(s.fs, current, item, BackupName(item));
      } else if target != [] && sv.mutate(path) == Completed {
        BackupThenLink(s.fs, current, item, target);
      }
    } else {
      PlainEntryUntouched(sv, recursive, current, item, s);
    }
  }

  /** The loop changes nothing out of the reach of every entry it runs. */
  lemma {:induction false} RunFrame(sv: Services, recursive: bool, current: string, items: seq<string>, s: Snapshot, p: string)
    requires WellFormed(s.fs) && !s.escaped
    requires forall n :: n in items ==> ValidName(n)
    requires forall n :: n in items ==> OutOfReach(current, n, p)
    ensures Same(s.fs, Run(sv, recursive, current, items, s).fs, p)
    decreases |items|
  {
    if items != [] {
      RunUnfold(sv, recursive, current, items, s);
      StepFrame(sv, recursive, current, items[0], s, p);
      var next := Step(sv, recursive, current, items[0], s);
      if !next.escaped {
        RunFrame(sv, recursive, current, items[1..], next, p);
      }
    }
  }

  /** Running two stretches of a listing is running the first, then the
      second unless an exception escaped. */
  lemma {:induction false} RunAppend(sv: Services, recursive: bool, current: string, a: seq<string>, b: seq<string>, s: Snapshot)
    requires WellFormed(s.fs) && !s.escaped
    requires forall n :: n in a ==> ValidName(n)
    requires forall n :: n in b ==> ValidName(n)
    ensures var m := Run(sv, recursive, current, a, s);
            Run(sv, recursive, current, a + b, s) == if m.escaped then m else Run(sv, recursive, current, b, m)
    decreases |a|
  {
    if a == [] {
      assert a + b == b;
    } else {
      assert (a + b)[0] == a[0] && (a + b)[1..] == a[1..] + b;
      RunUnfold(sv, recursive, current, a + b, s);
      RunUnfold(sv, recursive, current, a, s);
      var next := Step(sv, recursive, current, a[0], s);
      if !next.escaped {
        RunAppend(sv, recursive, current, a[1..], b, next);
      }
    }
  }

  /** Different entries have different backup names. */
  lemma BackupNamesDiffer(x: string, y: string)
    requires x != y
    ensures BackupName(x) != BackupName(y)
  {
    assert BackupName(x)[1..|x| + 1] == x;
    assert BackupName(y)[1..|y| + 1] == y;
  }

  /** The entry `x`, its backup and what lies below `x` are out of reach of
      the step on any other entry `y` of the same listing. */
  lemma SiblingOutOfReach(current: string, x: string, y: string, p: string)
    requires ValidName(x) && ValidName(y) && x != y && !Hidden(x)
    requires p == Join(current, x) || p == Join(current, BackupName(x)) || Below(p, Join(current, x))
    ensures OutOfReach(current, y, p)
  {
    if !Hidden(y) {
      // a backup name is hidden, an entry that is not hidden is none
      var a := if p == Join(current, BackupName(x)) then BackupName(x) else x;
      JoinBelow(current, a);
      JoinBelow(current, x);
      BackupNamesDiffer(x, y);
      SiblingsApart(current, a, y, p);
      SiblingsApart(current, a, BackupName(y), p);
    }
  }

  /** What `SiblingOutOfReach` gives for every entry after `items[i]`. */
  lemma LaterSiblingsOutOfReach(current: string, items: seq<string>, i: nat, p: string)
    requires Listing(items) && i < |items| && !Hidden(items[i])
    requires p == Join(current, items[i]) || p == Join(current, BackupName(items[i]))
             || Below(p, Join(current, items[i]))
    ensures forall y :: y in items[i + 1..] ==> OutOfReach(current, y, p)
  {
    forall y | y in items[i + 1..] ensures OutOfReach(current, y, p) {
      var j :| i + 1 <= j < |items| && items[j] == y;
      SiblingOutOfReach(current, items[i], y, p);
    }
  }

  /** Once the loop has stepped the entry `items[i]`, the rest of the loop
      keeps what that step left at the entry, at its backup and below the
      entry. This is how the outcome of a walked sub-directory, and so a
      conversion at any depth, reaches the end of the enclosing walk. */
  lemma LaterEntriesKeep(sv: Services, recursive: bool, current: string, items: seq<string>, i: nat, s: Snapshot, p: string)
    requires WellFormed(s.fs) && !s.escaped && Listing(items)
    requires i < |items| && !Hidden(items[i])
    requires p == Join(current, items[i]) || p == Join(current, BackupName(items[i]))
             || Below(p, Join(current, items[i]))
    requires !Run(sv, recursive, current, items[..i + 1], s).escaped
    ensures Same(Run(sv, recursive, current, items[..i + 1], s).fs, Run(sv, recursive, current, items, s).fs, p)
  {
    var done, rest := items[..i + 1], items[i + 1..];
    SplitListing(items, i + 1);
    LaterSiblingsOutOfReach(current, items, i, p);
    RunFrameAfter(sv, recursive, current, done, rest, s, p);
  }

  /** A listing is its first `k` names followed by the rest. */
  lemma SplitListing(items: seq<string>, k: nat)
    requires k <= |items|
    ensures items == items[..k] + items[k..]
    ensures forall n :: n in items[..k] ==> n in items
  {
  }

  /** A stretch of entries that all leave `p` alone keeps what the stretch
      before it left at `p`. */
  lemma RunFrameAfter(sv: Services, recursive: bool, current: string, a: seq<string>, b: seq<string>, s: Snapshot, p: string)
    requires WellFormed(s.fs) && !s.escaped
    requires forall n :: n in a ==> ValidName(n)
    requires forall n :: n in b ==> ValidName(n) && OutOfReach(current, n, p)
    requires !Run(sv, recursive, current, a, s).escaped
    ensures Same(Run(sv, recursive, current, a, s).fs, Run(sv, recursive, current, a + b, s).fs, p)
  {
    RunAppend(sv, recursive, current, a, b, s);
    RunFrame(sv, recursive, current, b, Run(sv, recursive, current, a, s), p);
  }

  /** The conditions under which the loop converts the entry `item`: not
      hidden, handled as a file, an alias, resolved, and both OS calls
      return normally. */
  ghost predicate Converts(sv: Services, recursive: bool, current: string, item: string, s: Snapshot)
  {
    var path := Join(current, item);
    && !Hidden(item) && !(recursive && IsDir(s.fs, path))
    && IsAliasFile(sv.kind, path)
    && ResolveAlias(sv.darwin, path in s.fs, sv.finder, path) != []
    && sv.mutate(path) == Completed
  }

  /** A conversion lasts to the end of the loop: when the loop converts
      `items[i]`, the backup still holds the alias node and the entry's path
      still holds the link when the loop is over. */
  lemma ConvertedEntrySurvives(sv: Services, recursive: bool, current: string, items: seq<string>, i: nat, s: Snapshot)
    requires WellFormed(s.fs) && !s.escaped && Listing(items) && i < |items|
    requires !Run(sv, recursive, current, items[..i], s).escaped
    requires Converts(sv, recursive, current, items[i], Run(sv, recursive, current, items[..i], s))
    ensures var m := Run(sv, recursive, current, items[..i], s);
            var r := Run(sv, recursive, current, items, s);
            var path, backup := Join(current, items[i]), Join(current, BackupName(items[i]));
            && path in m.fs && backup in r.fs && r.fs[backup] == m.fs[path]
            && path in r.fs && r.fs[path] == Symlink(ResolveAlias(sv.darwin, true, sv.finder, path))
  {
    var x := items[i];
    var m := Run(sv, recursive, current, items[..i], s);
    RunOneMore(sv, recursive, current, items, i, s);
    AliasConverted(sv, recursive, current, x, m);
    LaterEntriesKeep(sv, recursive, current, items, i, s, Join(current, x));
    LaterEntriesKeep(sv, recursive, current, items, i, s, Join(current, BackupName(x)));
  }

  /** Running one entry more is one more loop body. */
  lemma RunOneMore(sv: Services, recursive: bool, current: string, items: seq<string>, i: nat, s: Snapshot)
    requires WellFormed(s.fs) && !s.escaped && i < |items|
    requires forall n :: n in items ==> ValidName(n)
    requires !Run(sv, recursive, current, items[..i], s).escaped
    ensures var m := Run(sv, recursive, current, items[..i], s);
            Run(sv, recursive, current, items[..i + 1], s) == Step(sv, recursive, current, items[i], m)
  {
    assert items[..i + 1] == items[..i] + [items[i]];
    assert forall n :: n in items[..i] ==> n in items;
    RunSnoc(sv, recursive, current, items[..i], items[i], s);
  }

  /** Running a listing with one entry added at its end. */
  lemma RunSnoc(sv: Services, recursive: bool, current: string, a: seq<string>, x: string, s: Snapshot)
    requires WellFormed(s.fs) && !s.escaped && ValidName(x)
    requires forall n :: n in a ==> ValidName(n)
    requires !Run(sv, recursive, current, a, s).escaped
    ensures Run(sv, recursive, current, a + [x], s) == Step(sv, recursive, current, x, Run(sv, recursive, current, a, s))
  {
    RunAppend(sv, recursive, current, a, [x], s);
    RunUnfold(sv, recursive, current, [x], Run(sv, recursive, current, a, s));
  }

  /** The same for an entry of the root folder over a whole conversion run. */
  lemma ConversionInRootSurvives(sv: Services, fs: Table, root: string, recursive: bool, i: nat)
    requires WellFormed(fs) && IsDir(fs, root) && sv.listable(root) && i < |fs[root].children|
    requires var m := Run(sv, recursive, root, fs[root].children[..i], Snapshot(fs, Tally(0, 0), false));
             !m.escaped && Converts(sv, recursive, root, fs[root].children[i], m)
    ensures var m := Run(sv, recursive, root, fs[root].children[..i], Snapshot(fs, Tally(0, 0), false));
            var r := Convert(sv, fs, root, recursive);
            var item := fs[root].children[i];
            var path, backup := Join(root, item), Join(root, BackupName(item));
            && path in m.fs && backup in r.fs && r.fs[backup] == m.fs[path]
            && path in r.fs && r.fs[path] == Symlink(ResolveAlias(sv.darwin, true, sv.finder, path))
  {
    ConvertedEntrySurvives(sv, recursive, root, fs[root].children, i, Snapshot(fs, Tally(0, 0), false));
  }
}
