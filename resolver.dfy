/**
 Alias resolution: Finder's "original item" of an alias, asked for through
 `osascript`, is an oracle from the alias path to the raw text the script
 prints. The resolver checks the platform and the path, trims the answer and
 applies the cycle guard; every failure turns into the empty-string sentinel.
 */
module Resolver {
  import opened PyStr
  import opened PosixPath

  /** Why a resolution failed; the source raises one exception for each and
      then collapses them all into `""`. */
  datatype Failure = PlatformUnsupported | PathNotFound | ResolutionEmpty | RecursionGuard

  datatype Resolution = Resolved(target: string) | Failed(reason: Failure)

  /** The cycle guard, literally: the answer is the alias path itself or
      starts with the string of the alias's parent directory. The first
      test is subsumed by the second, since the parent string is a prefix
      of the alias path. */
  function ReferencesOwnFolder(result: string, aliasPath: string): (hit: bool)
    ensures hit <==> StartsWith(result, Dirname(aliasPath))
  {
    result == aliasPath || StartsWith(result, Dirname(aliasPath))
  }

  /** `resolve_alias` with its failure kept apart: `darwin` stands for the
      platform test, `present` for `os.path.exists`, `finder` for the text
      the AppleScript prints for a path. */
  function Resolve(darwin: bool, present: bool, finder: string -> string, aliasPath: string): (r: Resolution)
    ensures !darwin ==> r == Failed(PlatformUnsupported)
    ensures darwin && !present ==> r == Failed(PathNotFound)
    ensures darwin && present && Strip(finder(aliasPath)) == [] ==> r == Failed(ResolutionEmpty)
    ensures r.Resolved? <==> darwin && present && Strip(finder(aliasPath)) != []
                             && !StartsWith(Strip(finder(aliasPath)), Dirname(aliasPath))
    ensures r.Resolved? ==> r.target == Strip(finder(aliasPath)) && r.target != [] && r.target != aliasPath
  {
    if !darwin then Failed(PlatformUnsupported)
    else if !present then Failed(PathNotFound)
    else
      var result := Strip(finder(aliasPath));
      if result == [] then Failed(ResolutionEmpty)
      else if ReferencesOwnFolder(result, aliasPath) then Failed(RecursionGuard)
      else Resolved(result)
  }

  /** `resolve_alias` as the source returns it: the target, or `""` for any
      failure. The sentinel is unambiguous because a target is never empty. */
  function ResolveAlias(darwin: bool, present: bool, finder: string -> string, aliasPath: string): (r: string)
    ensures r == [] <==> Resolve(darwin, present, finder, aliasPath).Failed?
    ensures r != [] <==> darwin && present && Strip(finder(aliasPath)) != []
                         && !ReferencesOwnFolder(Strip(finder(aliasPath)), aliasPath)
    ensures r != [] ==> r == Strip(finder(aliasPath)) && !StartsWith(r, Dirname(aliasPath))
  {
    match Resolve(darwin, present, finder, aliasPath)
    case Resolved(t) => t
    case Failed(_) => ""
  }
}
