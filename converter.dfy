/**
 The converter as the source runs it: a depth-first `process_folder` whose
 loop updates the success and failure counters and the file system in place.
 The counters and the table are the fields of `AliasConverter`; each method
 is proved to leave exactly the state the functions of `Walker` describe.
 */
module Converter {
  import opened PyStr
  import opened PosixPath
  import opened Classifier
  import opened Resolver
  import opened Volume
  import opened Walker

  class AliasConverter {
    /** The file system, changed by the backups and links. */
    var volume: Table
    /** The `nonlocal` counters of one conversion. */
    var successCount: nat
    var failureCount: nat

    constructor (fs: Table)
      ensures volume == fs && successCount == 0 && failureCount == 0
    {
      volume := fs;
      successCount, failureCount := 0, 0;
    }

    /** The state as a `Walker` snapshot, during a run that has not escaped. */
    function State(): Snapshot
      reads this
    {
      Snapshot(volume, Tally(successCount, failureCount), false)
    }

    /** `process_folder(current)`. `completed` is false when an exception
        escaped it (the listing of some directory failed); the counters and
        the table then hold what was done up to that point. */
    method ProcessFolder(sv: Services, recursive: bool, current: string) returns (completed: bool)
      requires WellFormed(volume) && IsDir(volume, current)
      modifies this
      ensures Snapshot(volume, Tally(successCount, failureCount), !completed)
              == Walk(sv, recursive, current, old(State()))
      decreases Budget(recursive, volume, current)
    {
      if !sv.listable(current) {
        return false;
      }
      var items := volume[current].children;
      for i := 0 to |items|
        invariant WellFormed(volume)
        invariant recursive ==> DirPaths(volume) <= DirPaths(old(volume))
        invariant Run(sv, recursive, current, items[i..], State()) == Walk(sv, recursive, current, old(State()))
      {
        var item := items[i];
        var itemPath := Join(current, item);
        ghost var before := State();
        JoinBelow(current, item);
        assert items[i..][0] == item && items[i..][1..] == items[i + 1..];
        RunUnfold(sv, recursive, current, items[i..], before);
        if StartsWith(item, ".") {
          HiddenEntrySkipped(sv, recursive, current, item, before);
          continue;
        }
        if IsDir(volume, itemPath) && recursive {
          StepOnDirectory(sv, recursive, current, item, before);
          if IsAliasFile(sv.kind, itemPath) {
            var originalPath := ResolveAlias(sv.darwin, itemPath in volume, sv.finder, itemPath);
            if originalPath == current || StartsWith(originalPath, Dirname(current)) {
              continue;
            }
          }
          DirsBeyondShrink(volume, current, itemPath);
          var done := ProcessFolder(sv, recursive, itemPath);
          if !done {
            return false;
          }
          continue;
        }
        if !IsAliasFile(sv.kind, itemPath) {
          PlainEntryUntouched(sv, recursive, current, item, before);
          continue;
        }
        StepOnAlias(sv, recursive, current, item, before);
        ConvertAlias(sv, current, item);
      }
      return true;
    }

    /** The `try` block of the loop for an entry already classified as an
        alias: resolve it; on success move it to its backup name and link
        the original path to the target. The new table and counters are
        worked out first and stored together at the end. */
    method ConvertAlias(sv: Services, current: string, item: string)
      requires WellFormed(volume) && ValidName(item)
      modifies this
      ensures State() == AliasEntry(sv, current, item, old(State()))
    {
      var s := State();
      AliasEntryCases(sv, current, item, s);
      var itemPath := Join(current, item);
      var originalPath := ResolveAlias(sv.darwin, itemPath in volume, sv.finder, itemPath);
      var next: Snapshot;
      if originalPath == [] {
        next := CountFailure(s);
      } else {
        var outcome := sv.mutate(itemPath);
        if outcome == MoveRaised {
          next := CountFailure(s);
        } else if outcome == LinkRaised {
          next := CountFailure(s.(fs := Move(volume, current, item, BackupName(item))));
        } else {
          var linked := Link(Move(volume, current, item, BackupName(item)), current, item, originalPath);
          next := s.(fs := linked, tally := s.tally.(success := s.tally.success + 1));
        }
      }
      volume, successCount, failureCount := next.fs, next.tally.success, next.tally.failure;
    }

    /** `convert_aliases_to_symlinks(folderPath, recursive)`: the counts it
        returns and the table it leaves are those of `Convert`. */
    method ConvertAliasesToSymlinks(sv: Services, folderPath: string, recursive: bool)
      returns (success: nat, failure: nat)
      requires WellFormed(volume)
      modifies this
      ensures volume == Convert(sv, old(volume), folderPath, recursive).fs
      ensures success == Convert(sv, old(volume), folderPath, recursive).tally.success
      ensures failure == Convert(sv, old(volume), folderPath, recursive).tally.failure
    {
      successCount, failureCount := 0, 0;
      if !IsDir(volume, folderPath) {
        return successCount, failureCount;
      }
      var _ := ProcessFolder(sv, recursive, folderPath);
      return successCount, failureCount;
    }
  }
}
