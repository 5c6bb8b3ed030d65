/** `motif_search` of utils.py: every start of a motif, overlapping starts included. */
module Motif {

  /** The motif holds only letters, so the lookahead pattern `(?=motif)` matches it literally. */
  predicate IsPlainMotif(motif: string)
  {
    forall i :: 0 <= i < |motif| ==> ('A' <= motif[i] <= 'Z') || ('a' <= motif[i] <= 'z')
  }

  /** `motif` occurs in `s` starting at the 0-based offset `p`. */
  predicate OccursAt(s: string, motif: string, p: nat)
  {
    p + |motif| <= |s| && s[p..p + |motif|] == motif
  }

  /** The 1-based starts of `motif` at offsets `i`, `i + 1`, ..., `|s|`, the offsets a zero-width lookahead is tried at. */
  function StartsFrom(s: string, motif: string, i: nat): (ps: seq<nat>)
    requires i <= |s| + 1
    ensures forall j :: 0 <= j < |ps| ==> ps[j] > i
    ensures forall j, j' :: 0 <= j < j' < |ps| ==> ps[j] < ps[j']
    ensures forall p :: p in ps <==> i < p && OccursAt(s, motif, p - 1)
    decreases |s| + 1 - i
  {
    if i > |s| then []
    else (if OccursAt(s, motif, i) then [i + 1] else []) + StartsFrom(s, motif, i + 1)
  }

  /** The motif `motif_search` looks for when its caller gives none (`motif="ATG"`). */
  const DEFAULT_MOTIF: string := "ATG"

  /**
   * `motif_search`: the strictly ascending 1-based positions at which `motif` starts, overlapping
   * occurrences included; a motif longer than the sequence has none.
   */
  function MotifSearch(s: string, motif: string): (ps: seq<nat>)
    requires IsPlainMotif(motif)
    ensures forall j, j' :: 0 <= j < j' < |ps| ==> ps[j] < ps[j']
    ensures forall p :: p in ps <==> 1 <= p && OccursAt(s, motif, p - 1)
    ensures |motif| > |s| ==> ps == []
  {
    var ps := StartsFrom(s, motif, 0);
    assert ps != [] ==> |motif| <= |s| by {
      if ps != [] {
        assert ps[0] in ps;
      }
    }
    ps
  }

  /** Overlapping occurrences are all reported: "AA" starts at 1 and at 2 in "AAA". */
  lemma OverlappingExample()
    ensures MotifSearch("AAA", "AA") == [1, 2]
  {
    assert OccursAt("AAA", "AA", 0) && OccursAt("AAA", "AA", 1);
    assert !OccursAt("AAA", "AA", 2);
  }

  /** The empty motif matches at every offset 0..|s|, so the positions are 1..|s|+1. */
  lemma {:induction false} EmptyMotifEverywhere(s: string, i: nat)
    requires i <= |s| + 1
    ensures StartsFrom(s, "", i) == seq(|s| + 1 - i, j => i + j + 1)
    decreases |s| + 1 - i
  {
    if i <= |s| {
      EmptyMotifEverywhere(s, i + 1);
      assert OccursAt(s, "", i);
    }
  }
}
