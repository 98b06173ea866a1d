# alias2symlink, modelled in Dafny

alias2symlink walks a folder tree on macOS. It finds Finder alias files and
replaces each one with a POSIX symbolic link to the alias's original item. The
alias itself is kept as a hidden backup named `.<name>.backup`. The script
counts successful and failed conversions. This project models its decision
core and proves properties of that model:

- the alias test on the metadata tool's answer (`is_alias_file`);
- alias resolution with its platform, existence and cycle checks and the
  empty-string failure sentinel (`resolve_alias`);
- the depth-first walk (`convert_aliases_to_symlinks` with the nested
  `process_folder`). The walk skips hidden names and guards alias
  directories. For each resolved alias it moves the alias to its backup name
  and links the original path, and it keeps the success/failure tally.

The file system is a finite table from path strings to nodes: a directory
with its listing, a file, or a symlink with its target. The operating-system
services are oracles in a `Services` value:

- the platform test;
- the `mdls` metadata query (an exit status and its output, or an exception);
- the text Finder's AppleScript prints for an alias;
- whether `os.listdir` succeeds on a path;
- whether the backup-and-link sequence completes, or raises in the move or
  in the link.

Files:

- `pystr.dfy` (module `PyStr`): `str.startswith`, `in`, `str.lower`,
  `str.strip`, on ASCII.
- `posix_path.dfy` (module `PosixPath`): `os.path.dirname` and
  `os.path.join` on path strings.
- `classifier.dfy` (module `Classifier`): `is_alias_file`.
- `resolver.dfy` (module `Resolver`): `resolve_alias`. A tagged
  `Resolution` keeps the reason for each failure. `ResolveAlias` returns the
  `""` sentinel as the source does.
- `volume.dfy` (module `Volume`): the table, and `shutil.move` and
  `os.symlink` as functions on it.
- `walker.dfy` (module `Walker`): the walk as specification functions
  (`Step` for one listed entry, `Run` for a listing, `Walk` for a folder,
  `Convert` for the whole call), with the per-entry policy and whole-walk
  lemmas.
- `converter.dfy` (module `Converter`): the imperative walk. Class
  `AliasConverter` holds the table and the two counters. Its methods update
  them in place, and each method is proved to produce exactly the state the
  `Walker` functions give.

The table is well formed: every directory's listing holds valid names (no
'/' and non-empty), each at most once, as `os.listdir` returns them.

What the code does at its guards and exception handlers:

- Two guards compare path strings, not true path ancestry, and the model keeps
  them that way.
- The resolver rejects a Finder answer that equals the alias path or starts
  with the string `dirname(alias)` (main.py:67). The equality test is
  subsumed by the prefix test.
- An answer naming an ancestor of the alias's folder is a strict prefix of
  `dirname(alias)`, so it passes the main.py:67 test. For the alias `/r/a/x`
  the answer `/r` is accepted, and the alias is replaced by a link to `/r`
  (`Walker.AncestorTargetAccepted`).
- The walk skips an alias directory whose resolution equals the current
  folder or starts with the string `dirname(current)` (main.py:120). The
  second test is the one that decides.
- `is_alias_file` and `resolve_alias` both catch `Exception` and return
  `False` or `""`. So nothing raises out of the `try` at main.py:115-122, and
  the `except RuntimeError` at main.py:123 never runs.
- A `""` resolution never passes the main.py:120 test, because the current
  folder is absolute, so the walk enters the directory.
- An alias directory whose Finder answer is the current folder is therefore
  entered: the resolver rejects that answer, because it starts with the
  alias's parent string (`Walker.AliasToOwnFolderEntered`).

## Model

| member | source | states |
|---|---|---|
| `PyStr.StartsWith` | main.py:67 | `s.startswith(p)`, as used in the guards at main.py:67, 110 and 120, holds exactly when `p` is no longer than `s` and agrees with `s` character by character. |
| `PyStr.Contains` | main.py:26 | The empty word is always found, and a word that is found is no longer than the text. |
| `PyStr.ContainsIff` | main.py:26 | The `in` test on strings holds exactly when the word occurs at some offset of the text. |
| `PyStr.Lower` | main.py:26 | `lower()` keeps the length and folds every ASCII capital to its small letter, leaving other characters alone. |
| `PyStr.LowerOccurs` | main.py:26 | An occurrence of a word in the lower-cased text is exactly a case-insensitive occurrence in the original text. |
| `PyStr.LStrip` | main.py:24 | Leading whitespace is dropped: the result is a suffix of the text, everything dropped is whitespace, and the result does not start with whitespace. |
| `PyStr.RStrip` | main.py:24 | Trailing whitespace is dropped: the result is a prefix of the text, everything dropped is whitespace, and the result does not end with whitespace. |
| `PyStr.Strip` | main.py:24 | `strip()` never lengthens the text. A non-empty result neither starts nor ends with whitespace, and the result is empty exactly when the text is all whitespace. |
| `PyStr.StripKeepsWord` | main.py:24-26 | Stripping the tool's output neither adds nor removes a case-insensitive occurrence of a word without whitespace, such as "alias". |
| `Classifier.LowerSearch` | main.py:26 | The word occurs in the lower-cased text exactly when it occurs case-insensitively somewhere in the original. |
| `Classifier.FoldedSearch` | main.py:24-26 | Searching the stripped, lower-cased output for "alias" finds exactly the case-insensitive occurrences of "alias" in the raw output. |
| `Classifier.IsAliasFile` | main.py:8-29 | The entry is an alias exactly when the metadata tool ran, exited with 0, and its output contains "alias" in any letter case. A non-zero exit or an exception gives false. |
| `Classifier.MdlsAliasAnswer` | main.py:20-26 | The tool's answer `kMDItemKind = "Alias"` with exit code 0 is classified as an alias, although it is capitalised. |
| `Classifier.FailedProbeIsNoAlias` | main.py:23-29 | A raised exception or a non-zero exit status never classifies the entry as an alias. |
| `PosixPath.Dirname` | main.py:67 | `os.path.dirname(p)` is a prefix of `p`, and it is empty exactly when `p` has no '/'. |
| `PosixPath.Join` | main.py:107 | The joined path ends with the name, and a name not starting with '/' lands inside the folder: the result starts with the folder string, with one '/' added unless the folder is empty or already ends in '/'. |
| `PosixPath.JoinBelow` | main.py:107 | Joining a listed name to a folder gives a longer path inside that folder, and every path inside the joined path is inside the folder too. |
| `PosixPath.JoinInjective` | main.py:139 | Two different names in one folder give two different paths, so an alias path and its backup path never coincide. |
| `PosixPath.DirnameOfJoin` | main.py:120 | The parent string of a joined entry path is a prefix of the folder the entry was listed in. |
| `PosixPath.DirnameOfJoinExact` | main.py:67 | `dirname` of a joined entry path is exactly the folder it was listed in when that folder is empty, all slashes, or does not end in '/'. So for an absolute, normalised folder, an alias's parent string is its folder. |
| `PosixPath.SiblingsApart` | main.py:107 | A path at or below one entry of a folder is neither the path of a different entry nor below it, because names hold no '/'. |
| `Resolver.ReferencesOwnFolder` | main.py:67 | The cycle guard hits exactly the answers that start with the alias's parent-directory string. An answer equal to the alias path is already one of them. |
| `Resolver.Resolve` | main.py:42-75 | Gives the reasons in the source's order: not Darwin, then missing path, then an empty trimmed answer. A target is returned exactly when the platform is Darwin, the path exists, and the trimmed answer is non-empty and does not start with the parent-directory string. That target is the trimmed answer, non-empty and different from the alias path. |
| `Resolver.ResolveAlias` | main.py:31-75 | Returns `""` exactly when resolution fails, so the sentinel is never a real target. A non-empty result is the trimmed Finder answer, and it passed the cycle guard. |
| `Volume.IsDir` | main.py:114 | `os.path.isdir` (main.py:96 and 114) on the table: a missing path, a file and a link are never directories, and a directory path holds a directory node with its listing. Links are not followed; see the `os.path.isdir` line under "## Left out". |
| `Volume.Move` | main.py:140 | Moving an entry to another name in its folder: the node moves to the new path (replacing what was there), the old path is gone, and the folder stays a directory. |
| `Volume.MoveFrame` | main.py:140 | Every path other than the folder and the two entry paths is unchanged. The folder's listing trades the old name for the new one. Valid listings stay valid, no directory path appears unless a directory was moved, and nothing changes outside the folder. |
| `Volume.Link` | main.py:143 | Creating a symlink on a free path: the path holds a link to the target, and the folder stays a directory. |
| `Volume.LinkFrame` | main.py:143 | Every path other than the folder and the new link is unchanged, and the name joins the folder's listing. Valid listings stay valid, no directory path appears, and nothing changes outside the folder. |
| `Volume.DirsBeyondShrink` | main.py:126 | Descending into a sub-directory leaves strictly fewer directories to descend into, so the walk terminates. |
| `Walker.Hidden` | main.py:110 | An entry is hidden exactly when its name is non-empty and starts with '.'. |
| `Walker.SkipsDirectory` | main.py:120 | The directory-level guard hits exactly the targets that start with `dirname(current)`. A target equal to the current folder is already one of them. |
| `Walker.BackupName` | main.py:139 | The backup name `.<name>.backup` is hidden, is a valid name, and differs from the entry's own name. |
| `Walker.BackupNamesDiffer` | main.py:139 | Two different entries never share a backup name; with `PosixPath.JoinInjective`, in one folder they never share a backup path. |
| `Walker.BackupAndLink` | main.py:138-143 | After the move and the link, the backup path holds the entry's old node and the entry's path holds a link to the target. The table stays well formed, nothing outside the folder changes, and no directory path appears unless a directory was moved. |
| `Walker.AliasEntry` | main.py:134-152 | Handling an alias never escapes, never lowers a counter, keeps the table well formed, changes nothing outside its folder, and adds no directory when the entry is not one. |
| `Walker.Step` | main.py:106-152 | One loop iteration keeps the table well formed, never lowers a counter, and changes nothing outside the current folder. With recursion on it may remove directories but never adds any. |
| `Walker.Run` | main.py:104-152 | The same guarantees for the loop over a whole listing. |
| `Walker.Walk` | main.py:100-152 | The same guarantees for `process_folder`: counters never decrease and only the walked folder and what lies below it change. |
| `Walker.Convert` | main.py:77-161 | A root that is not a directory returns `(0, 0)` with no change. Otherwise the whole conversion changes nothing outside the root folder of the table and keeps the table well formed. Links to directories are not followed, so this confinement is a fact about the table, not the disk (see "## Left out"). |
| `Walker.HiddenEntrySkipped` | main.py:109-111 | An entry whose name starts with '.' is not classified and not entered, and it changes neither the table nor the tally. |
| `Walker.PlainEntryUntouched` | main.py:129-132 | An entry handled as a file that is not classified as an alias changes neither the table nor the tally. |
| `Walker.StepOnDirectory` | main.py:114-126 | With recursion on, a sub-directory is skipped when it is classified as an alias whose resolution hits the directory guard. Otherwise the walk descends into it. |
| `Walker.RunUnfold` | main.py:106-152 | Unfolding helper: one turn of the loop steps the first entry, then goes on with the rest unless an exception escaped. That the first escaping exception ends the loop, at any point of the listing, is `Walker.RunAppend`. |
| `Walker.RunAppend` | main.py:106 | Running two stretches of a listing is running the first, then the second from where the first ended, unless an exception escaped in the first. |
| `Walker.StepOnAlias` | main.py:129-135 | An entry handled as a file and classified as an alias is resolved and converted by the `try` block. |
| `Walker.AliasEntryCountedOnce` | main.py:129-152 | An entry handled as a file and classified as an alias adds exactly one to success plus failure, and it never aborts the traversal. |
| `Walker.BackupThenLink` | main.py:138-143 | Backing up and linking changes no path other than the entry, its backup and the folder. The folder stays a directory, and its listing is the old one plus the backup name and the entry's name. |
| `Walker.AliasConverted` | main.py:137-146 | A resolved alias whose move and link succeed leaves exactly the table of `BackupAndLink`: the old node under the backup name and a link at the entry's path. It adds one success and no failure, and its target does not start with the alias's parent-directory string. |
| `Walker.UnresolvedAliasFails` | main.py:147-148 | An alias that resolves to `""` adds one failure and changes nothing else. |
| `Walker.MutationFailureCounted` | main.py:149-152 | A caught exception in the backup step adds one failure. A failed move changes nothing. A failed link leaves the alias under its backup name and nothing at the original path. |
| `Walker.DirectoryEntryPolicy` | main.py:114-127 | With recursion on and an absolute current folder, a sub-directory is skipped exactly when it is classified as an alias and resolves to a non-empty target that starts with `dirname(current)`. In every other case it is entered, also when resolution gives `""`. The `== current_folder` test never decides anything. |
| `Walker.AliasToOwnFolderEntered` | main.py:114-126 | A sub-directory whose Finder answer is the current folder is rejected by the resolver, and the walk then enters it. |
| `Walker.AncestorTargetAccepted` | main.py:67 | A Finder answer that is a strict prefix of the alias's parent string, such as an ancestor folder, passes the cycle guard. The alias file is then replaced by a link to that ancestor, with one more success. |
| `Walker.StepFrame` | main.py:106-152 | One loop iteration changes no path but the folder, the entry, the entry's backup and what lies below the entry. A hidden entry changes nothing. |
| `Walker.RunFrame` | main.py:104-152 | The loop changes no path that every one of its entries leaves alone. |
| `Walker.LaterEntriesKeep` | main.py:106-152 | After the loop has handled an entry that is not hidden, the later entries keep what it left at the entry's path, at its backup, and at every path below it (the outcome of a walked sub-directory). |
| `Walker.ConvertedEntrySurvives` | main.py:137-146 | When the loop converts an entry, the final table still holds the alias's node under the backup name and the link to the target at the entry's path. |
| `Walker.ConversionInRootSurvives` | main.py:77-161 | The same at the end of the whole conversion call, for an entry of the root folder. |
| `Walker.StepWithoutResolution` | main.py:106-152 | When no alias can resolve, one loop iteration changes nothing on disk and adds no success. |
| `Walker.RunWithoutResolution` | main.py:104-152 | When no alias can resolve, a whole listing changes nothing on disk and adds no success. |
| `Walker.WalkWithoutResolution` | main.py:100-152 | When no alias can resolve (none is classified, none resolves, or every answer hits the guard), a walk changes nothing on disk and adds no success. |
| `Walker.OffPlatformConvertsNothing` | main.py:44-45 | Off macOS, a conversion leaves the table unchanged and reports zero successes. |
| `Walker.RootFailureReturnsZero` | main.py:91-161 | If the root is not a directory, or its listing raises, the call returns `(0, 0)` with the table unchanged. |
| `Converter.AliasConverter.constructor` | main.py:88-89 | A conversion starts with both counters at zero on the given table. |
| `Converter.AliasConverter.ProcessFolder` | main.py:100-152 | The in-place walk, a `for` loop over the listing with recursion into sub-directories, leaves exactly the table and counters of `Walker.Walk`. It reports whether an exception escaped. |
| `Converter.AliasConverter.ConvertAlias` | main.py:134-152 | The in-place resolve, move, link and count for one alias leaves exactly the state of `Walker.AliasEntry`. |
| `Converter.AliasConverter.ConvertAliasesToSymlinks` | main.py:77-161 | The returned counts and the final table are those of `Walker.Convert`. |

## Left out

- The `mdls` and `osascript` subprocesses and the AppleScript text (main.py:20-21, 56-63): these are oracles (`Services.kind`, `Services.finder`).
- `platform.system()` is the flag `Services.darwin`.
- `expanduser` and `abspath` (main.py:48-49, 93): paths are taken as already absolute and normalised.
- `os.path.exists` and `os.path.isdir` look at the table entry itself and do not follow symbolic links. The source's calls at main.py:52, 96 and 114 follow them, so the model differs wherever a link to a directory is met. A dangling link does not exist for `os.path.exists`, but its path is present in the model's table.
- `Walker.Step`: with `recursive` on, a link to a directory takes the file branch. If the metadata tool calls it an alias and it resolves, the step moves it to its backup name and puts a new link in its place, counting one success. The source takes the directory branch for it (main.py:114-126) and skips or walks it, and never converts it.
- `Walker.Convert`: a walk through a link to a directory (main.py:126) changes files that lie outside the root folder on disk. The string-keyed table cannot express that aliasing, so `ConfinedTo(fs, r.fs, root)` holds for the model's table but not for the disk.
- `Walker.Convert`: a root that is a link to a directory returns `(0, 0)` with no change in the model. main.py:96 follows the link and walks the directory.
- Listing order is whatever the directory node holds. The order after a rename or a link is not modelled: the model appends new names.
- Filesystem cycles reached through links cannot occur: the table is finite and a walk only enters longer paths.
- `shutil.move` onto an existing backup directory would move the alias inside that directory. The model replaces the node at the backup path instead.
- `Volume.Move`: moving a directory re-keys only the directory's own entry, not the paths below it. This happens only with `recursive` false and a directory that `mdls` (Spotlight metadata) classifies as an alias. The model does not capture this case: it re-keys the directory's own node and leaves the paths below it where they were.
- Which exceptions the move or link raise, and why, is the oracle `Services.mutate`. That a listing raises is the oracle `Services.listable`.
- The oracles answer by path and do not change during a run. A listing holds each name once, and a walk only enters longer paths, so the source asks about each path at most once per run and fixed answers match it. What the metadata tool says about the new link on a second run is therefore not modelled, and neither is idempotence across runs.
- `str.lower()` and `str.strip()` are modelled on ASCII only. Non-ASCII case mappings and non-ASCII whitespace are not modelled.
- `print` output and the command-line block (main.py:163-174).
- A conversion deeper in the tree reaches the end of the run through `Walker.ConvertedEntrySurvives` at its own level and `Walker.LaterEntriesKeep` at each enclosing level. No single lemma states it for every depth.
- The `except RuntimeError` branch at main.py:123-125 is not modelled, because it cannot run: both callees catch `Exception`, of which `RuntimeError` is a subclass.
