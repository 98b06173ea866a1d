/**
 The alias test: the metadata tool (`mdls -name kMDItemKind`) is run on the
 path and the entry counts as a Finder alias when the tool exits with 0 and
 its output mentions "alias" in any letter case. The tool itself is an oracle.
 */
module Classifier {
  import opened PyStr

  /** What running the metadata tool on a path gives: an exit status and its
      standard output, or an exception (tool missing, I/O error). */
  datatype Probe = Exited(code: int, stdout: string) | Raised

  /** The word looked for in the tool's output, in lower case. */
  const AliasWord: string := "alias"

  /** Looking for a word in the lower-cased text finds exactly the
      case-insensitive occurrences of that word. */
  lemma LowerSearch(t: string, w: string)
    ensures Contains(Lower(t), w) <==> exists i :: FoldedAt(t, w, i)
  {
    ContainsIff(Lower(t), w);
    forall i ensures OccursAt(Lower(t), w, i) <==> FoldedAt(t, w, i) {
      LowerOccurs(t, w, i);
    }
  }

  /** Looking for a word in the stripped, lower-cased text finds exactly the
      case-insensitive occurrences of that word in the raw text. */
  lemma FoldedSearch(text: string, w: string)
    requires w != [] && Solid(w)
    ensures Contains(Lower(Strip(text)), w) <==> exists i :: FoldedAt(text, w, i)
  {
    LowerSearch(Strip(text), w);
    StripKeepsWord(text, w);
  }

  /** `is_alias_file`: true exactly when the tool ran, exited with 0, and its
      output holds "alias" ignoring case; an exception gives false. */
  function IsAliasFile(kind: string -> Probe, path: string): (alias: bool)
    ensures alias <==> kind(path).Exited? && kind(path).code == 0
                       && exists i :: FoldedAt(kind(path).stdout, AliasWord, i)
  {
    match kind(path)
    case Raised => false
    case Exited(code, out) =>
      FoldedSearch(out, AliasWord);
      code == 0 && Contains(Lower(Strip(out)), AliasWord)
  }

  /** The tool's usual answer for a Finder alias, `kMDItemKind = "Alias"`,
      is recognised although it is capitalised. */
  lemma MdlsAliasAnswer(kind: string -> Probe, path: string)
    requires kind(path) == Exited(0, "kMDItemKind = \"Alias\"\n")
    ensures IsAliasFile(kind, path)
  {
    assert FoldedAt(kind(path).stdout, AliasWord, 15);
  }

  /** A failing tool never reports an alias, whatever it printed. */
  lemma FailedProbeIsNoAlias(kind: string -> Probe, path: string)
    requires kind(path).Raised? || kind(path).code != 0
    ensures !IsAliasFile(kind, path)
  {
  }
}
