/**
 The few Python `str` operations the converter relies on, restricted to ASCII:
 `str.startswith`, the `in` substring test, `str.lower` and `str.strip`.
 */
module PyStr {

  /** `prefix` is a prefix of `s`, as `s.startswith(prefix)`. */
  predicate StartsWith(s: string, prefix: string): (b: bool)
    ensures b <==> |prefix| <= |s| && s[..|prefix|] == prefix
  {
    prefix <= s
  }

  /** The ASCII characters `str.strip()` removes: tab to carriage return,
      the four separators 0x1C-0x1F, and space. */
  predicate IsSpace(c: char)
  {
    '\t' <= c <= '\r' || '\U{1C}' <= c <= ' '
  }

  /** ASCII case folding of one character. */
  function LowerChar(c: char): (d: char)
    ensures 'A' <= c <= 'Z' ==> d as int == c as int + 32
    ensures !('A' <= c <= 'Z') ==> d == c
  {
    if 'A' <= c <= 'Z' then (c as int + 32) as char else c
  }

  /** `s.lower()` on ASCII text: every character folded, nothing moved. */
  function Lower(s: string): (r: string)
    ensures |r| == |s|
    ensures forall k :: 0 <= k < |s| ==> r[k] == LowerChar(s[k])
  {
    seq(|s|, k requires 0 <= k < |s| => LowerChar(s[k]))
  }

  /** `w` occurs in `s` at offset `i`. */
  ghost predicate OccursAt(s: string, w: string, i: int)
  {
    0 <= i && i + |w| <= |s| && s[i..i + |w|] == w
  }

  /** `w` occurs in `s` at offset `i` once `s` is case-folded (`w` is
      expected in lower case). */
  ghost predicate FoldedAt(s: string, w: string, i: int)
  {
    0 <= i && i + |w| <= |s| && forall k :: 0 <= k < |w| ==> LowerChar(s[i + k]) == w[k]
  }

  /** Python's `w in s`. */
  function Contains(s: string, w: string): (found: bool)
    ensures w == [] ==> found
    ensures found ==> |w| <= |s|
  {
    if StartsWith(s, w) then true
    else if s == [] then false
    else Contains(s[1..], w)
  }

  /** The substring test finds exactly the offsets where `w` occurs. */
  lemma {:induction false} ContainsIff(s: string, w: string)
    ensures Contains(s, w) <==> exists i :: OccursAt(s, w, i)
  {
    if StartsWith(s, w) {
      assert OccursAt(s, w, 0);
    } else if s == [] {
    } else {
      ContainsIff(s[1..], w);
      if exists i :: OccursAt(s[1..], w, i) {
        var i :| OccursAt(s[1..], w, i);
        assert s[1..][i..i + |w|] == s[i + 1..i + 1 + |w|];
        assert OccursAt(s, w, i + 1);
      }
      if exists i :: OccursAt(s, w, i) {
        var i :| OccursAt(s, w, i);
        // an occurrence at 0 would make `w` a prefix
        if i != 0 {
          assert s[1..][i - 1..i - 1 + |w|] == s[i..i + |w|];
          assert OccursAt(s[1..], w, i - 1);
        }
      }
    }
  }

  /** An occurrence in the folded text is a folded occurrence in the text. */
  lemma LowerOccurs(s: string, w: string, i: int)
    ensures OccursAt(Lower(s), w, i) <==> FoldedAt(s, w, i)
  {
    if FoldedAt(s, w, i) {
      assert Lower(s)[i..i + |w|] == w;
    }
    if OccursAt(Lower(s), w, i) {
      forall k | 0 <= k < |w| ensures LowerChar(s[i + k]) == w[k] {
        assert Lower(s)[i..i + |w|][k] == w[k];
      }
    }
  }

  /** `s.lstrip()`: the suffix of `s` left once leading whitespace is dropped. */
  function LStrip(s: string): (r: string)
    ensures |r| <= |s| && r == s[|s| - |r|..]
    ensures forall k :: 0 <= k < |s| - |r| ==> IsSpace(s[k])
    ensures r != [] ==> !IsSpace(r[0])
  {
    if s != [] && IsSpace(s[0]) then LStrip(s[1..]) else s
  }

  /** `s.rstrip()`: the prefix of `s` left once trailing whitespace is dropped. */
  function RStrip(s: string): (r: string)
    ensures r <= s
    ensures forall k :: |r| <= k < |s| ==> IsSpace(s[k])
    ensures r != [] ==> !IsSpace(r[|r| - 1])
  {
    if s != [] && IsSpace(s[|s| - 1]) then RStrip(s[..|s| - 1]) else s
  }

  /** `s.strip()`. */
  function Strip(s: string): (r: string)
    ensures |r| <= |s|
    ensures r != [] ==> !IsSpace(r[0]) && !IsSpace(r[|r| - 1])
    ensures r == [] <==> forall k :: 0 <= k < |s| ==> IsSpace(s[k])
  {
    var l := LStrip(s);
    var r := RStrip(l);
    // what `rstrip` leaves of a text starting with a non-space is non-empty
    assert r == [] ==> l == [];
    assert r != [] ==> r[0] == l[0];
    r
  }

  /** No character of `w` is whitespace, even after folding. */
  ghost predicate Solid(w: string)
  {
    forall k :: 0 <= k < |w| ==> !IsSpace(w[k])
  }

  /** A folded occurrence carries over to any window holding the same
      characters. */
  lemma FoldedWindow(a: string, i: int, b: string, j: int, w: string)
    requires FoldedAt(a, w, i)
    requires 0 <= j && j + |w| <= |b|
    requires b[j..j + |w|] == a[i..i + |w|]
    ensures FoldedAt(b, w, j)
  {
    forall k | 0 <= k < |w| ensures LowerChar(b[j + k]) == w[k] {
      assert b[j + k] == b[j..j + |w|][k] == a[i..i + |w|][k] == a[i + k];
    }
  }

  /** Whitespace is left alone by folding. */
  lemma SpaceFoldsToItself(c: char)
    ensures IsSpace(c) ==> LowerChar(c) == c
  {
  }

  /** A window of a suffix is the window of the whole shifted by the
      suffix's offset. */
  lemma SuffixWindow(s: string, off: int, i: int, n: int)
    requires 0 <= off <= |s| && 0 <= i && 0 <= n && off + i + n <= |s|
    ensures s[off..][i..i + n] == s[off + i..off + i + n]
  {
  }

  /** An occurrence in `s.lstrip()` is one in `s`, shifted by what was
      dropped. */
  lemma LStripOccurrenceKept(s: string, w: string, i: int)
    requires FoldedAt(LStrip(s), w, i)
    ensures FoldedAt(s, w, i + |s| - |LStrip(s)|)
  {
    var l := LStrip(s);
    var off := |s| - |l|;
    SuffixWindow(s, off, i, |w|);
    FoldedWindow(l, i, s, off + i, w);
  }

  /** An occurrence in `s` of a non-empty word without whitespace survives
      in any suffix `l` of `s` that dropped only whitespace, shifted back by
      what was dropped. */
  lemma SpaceSuffixKeepsOccurrence(s: string, l: string, w: string, i: int)
    requires w != [] && Solid(w)
    requires |l| <= |s| && l == s[|s| - |l|..]
    requires forall k :: 0 <= k < |s| - |l| ==> IsSpace(s[k])
    requires FoldedAt(s, w, i)
    ensures i >= |s| - |l| && FoldedAt(l, w, i - (|s| - |l|))
  {
    var off := |s| - |l|;
    // the first folded character is not whitespace, so it was kept
    assert LowerChar(s[i]) == w[0] && !IsSpace(w[0]);
    SpaceFoldsToItself(s[i]);
    assert !IsSpace(s[i]);
    SuffixWindow(s, off, i - off, |w|);
    FoldedWindow(s, i, l, i - off, w);
  }

  /** An occurrence in `s` of a non-empty word without whitespace survives
      in `s.lstrip()`, shifted back by what was dropped. */
  lemma LStripOccurrenceSurvives(s: string, w: string, i: int)
    requires w != [] && Solid(w)
    requires FoldedAt(s, w, i)
    ensures i >= |s| - |LStrip(s)| && FoldedAt(LStrip(s), w, i - (|s| - |LStrip(s)|))
  {
    SpaceSuffixKeepsOccurrence(s, LStrip(s), w, i);
  }

  /** Dropping leading whitespace keeps every folded occurrence of a
      non-empty word without whitespace. */
  lemma LStripKeepsWord(s: string, w: string)
    requires w != [] && Solid(w)
    ensures (exists i :: FoldedAt(LStrip(s), w, i)) <==> (exists i :: FoldedAt(s, w, i))
  {
    if exists i :: FoldedAt(LStrip(s), w, i) {
      var i :| FoldedAt(LStrip(s), w, i);
      LStripOccurrenceKept(s, w, i);
    }
    if exists i :: FoldedAt(s, w, i) {
      var i :| FoldedAt(s, w, i);
      LStripOccurrenceSurvives(s, w, i);
    }
  }

  /** An occurrence in `s.rstrip()` is one in `s` at the same offset. */
  lemma RStripOccurrenceKept(s: string, w: string, i: int)
    requires FoldedAt(RStrip(s), w, i)
    ensures FoldedAt(s, w, i)
  {
    var r := RStrip(s);
    assert r[i..i + |w|] == s[i..i + |w|];
    FoldedWindow(r, i, s, i, w);
  }

  /** An occurrence in `s` of a non-empty word without whitespace survives
      in `s.rstrip()` at the same offset. */
  lemma RStripOccurrenceSurvives(s: string, w: string, i: int)
    requires w != [] && Solid(w)
    requires FoldedAt(s, w, i)
    ensures FoldedAt(RStrip(s), w, i)
  {
    var r := RStrip(s);
    // the last folded character is not whitespace, so it was kept
    var last := i + |w| - 1;
    assert LowerChar(s[last]) == w[|w| - 1] && !IsSpace(w[|w| - 1]);
    SpaceFoldsToItself(s[last]);
    assert !IsSpace(s[last]);
    assert last < |r|;
    assert r[i..i + |w|] == s[i..i + |w|];
    FoldedWindow(s, i, r, i, w);
  }

  /** Dropping trailing whitespace keeps every folded occurrence of a
      non-empty word without whitespace. */
  lemma RStripKeepsWord(s: string, w: string)
    requires w != [] && Solid(w)
    ensures (exists i :: FoldedAt(RStrip(s), w, i)) <==> (exists i :: FoldedAt(s, w, i))
  {
    if exists i :: FoldedAt(RStrip(s), w, i) {
      var i :| FoldedAt(RStrip(s), w, i);
      RStripOccurrenceKept(s, w, i);
    }
    if exists i :: FoldedAt(s, w, i) {
      var i :| FoldedAt(s, w, i);
      RStripOccurrenceSurvives(s, w, i);
    }
  }

  /** Stripping whitespace neither creates nor destroys a folded occurrence
      of a non-empty word without whitespace. */
  lemma StripKeepsWord(s: string, w: string)
    requires w != [] && Solid(w)
    ensures (exists i :: FoldedAt(Strip(s), w, i)) <==> (exists i :: FoldedAt(s, w, i))
  {
    LStripKeepsWord(s, w);
    RStripKeepsWord(LStrip(s), w);
    assert Strip(s) == RStrip(LStrip(s));
  }
}
