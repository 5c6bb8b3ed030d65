/** `premature_stop_flags` of utils.py: reading frames whose first stop codon comes early. */
module OrfGuard {
  import opened Nucleotides

  datatype Option<T> = None | Some(value: T)

  /** One flag: the frame (0, 1 or 2) and the 1-based nucleotide position of its first stop codon. */
  datatype OrfFlag = OrfFlag(frame: nat, firstStopNt: nat)

  /** The stop codons of the Standard Code (NCBI translation table 1): TAA, TAG and TGA. */
  predicate IsStop(codon: string)
  {
    && |codon| == 3
    && codon[0] == 'T'
    && ((codon[1] == 'A' && (codon[2] == 'A' || codon[2] == 'G')) || (codon[1] == 'G' && codon[2] == 'A'))
  }

  /** The three stop codons, spelled out. */
  lemma StopCodons(codon: string)
    ensures IsStop(codon) <==> codon == "TAA" || codon == "TAG" || codon == "TGA"
  {
  }

  /** The complete codons of `seq[frame:]`, the ones `translate` turns into amino acids. */
  function FrameCodons(s: string, frame: nat): seq<string>
  {
    if frame <= |s| then Codons(s[frame..]) else []
  }

  /** Codon `k` of reading frame `frame` is the triplet at 0-based offset 3k + frame of `s`. */
  lemma FrameCodonAt(s: string, frame: nat, k: nat)
    requires k < |FrameCodons(s, frame)|
    ensures frame + 3 * k + 3 <= |s|
    ensures FrameCodons(s, frame)[k] == s[frame + 3 * k .. frame + 3 * k + 3]
  {
    CodonsSpec(s[frame..]);
  }

  /** `stops`: the indices, in ascending order, of the codons that translate to a stop. */
  function StopIndices(cs: seq<string>): seq<nat>
  {
    if cs == [] then []
    else
      var n := |cs| - 1;
      StopIndices(cs[..n]) + (if IsStop(cs[n]) then [n] else [])
  }

  /** `stops` lists exactly the stop codons' indices, ascending. */
  lemma {:induction false} StopIndicesSpec(cs: seq<string>)
    ensures var ks := StopIndices(cs);
      && (forall j :: 0 <= j < |ks| ==> ks[j] < |cs|)
      && (forall j, j' :: 0 <= j < j' < |ks| ==> ks[j] < ks[j'])
      && (forall k :: 0 <= k < |cs| ==> (k in ks <==> IsStop(cs[k])))
  {
    if cs != [] {
      var n := |cs| - 1;
      StopIndicesSpec(cs[..n]);
      assert forall k :: 0 <= k < n ==> cs[..n][k] == cs[k];
    }
  }

  /** `stops[0]` when there is one: the index of the first in-frame stop codon. */
  function FirstStop(cs: seq<string>): Option<nat>
  {
    var ks := StopIndices(cs);
    if |ks| == 0 then None else Some(ks[0])
  }

  /** There is a first stop exactly when some codon is a stop, and it is the one with the least index. */
  lemma FirstStopSpec(cs: seq<string>)
    ensures FirstStop(cs).None? <==> forall k :: 0 <= k < |cs| ==> !IsStop(cs[k])
    ensures FirstStop(cs).Some? ==>
      var k0 := FirstStop(cs).value;
      k0 < |cs| && IsStop(cs[k0]) && (forall k :: 0 <= k < k0 ==> !IsStop(cs[k]))
  {
    var ks := StopIndices(cs);
    StopIndicesSpec(cs);
    if |ks| > 0 {
      assert ks[0] in ks;
      forall k | 0 <= k < |cs| && IsStop(cs[k]) ensures ks[0] <= k {
        assert k in ks;
      }
    }
  }

  /** Frame `frame` is flagged: it has a stop codon, and the first one starts before `minOrf` nucleotides into the frame. */
  predicate IsPremature(s: string, frame: nat, minOrf: int)
  {
    var first := FirstStop(FrameCodons(s, frame));
    first.Some? && first.value * 3 < minOrf
  }

  /** A frame without any in-frame stop codon is never flagged. */
  lemma NoStopNotPremature(s: string, frame: nat, minOrf: int)
    requires forall k :: 0 <= k < |FrameCodons(s, frame)| ==> !IsStop(FrameCodons(s, frame)[k])
    ensures !IsPremature(s, frame, minOrf)
  {
    FirstStopSpec(FrameCodons(s, frame));
  }

  /** `fl` is the flag of its frame: that frame is premature and `fl` gives where its first stop codon starts. */
  predicate IsFlagOf(s: string, minOrf: int, fl: OrfFlag)
  {
    var f := fl.frame;
    && f < 3
    && IsPremature(s, f, minOrf)
    && fl.firstStopNt == FirstStop(FrameCodons(s, f)).value * 3 + f + 1
    && fl.firstStopNt + 2 <= |s|
    && IsStop(s[fl.firstStopNt - 1 .. fl.firstStopNt + 2])
  }

  /** The flag frame `frame` contributes, if any. */
  function FrameFlag(s: string, frame: nat, minOrf: int): (r: Option<OrfFlag>)
    ensures r.Some? ==> r.value.frame == frame
  {
    if IsPremature(s, frame, minOrf) then Some(OrfFlag(frame, FirstStop(FrameCodons(s, frame)).value * 3 + frame + 1)) else None
  }

  /** A frame contributes a flag exactly when it is premature, and the flag points at its first stop codon. */
  lemma FrameFlagIsPremature(s: string, frame: nat, minOrf: int)
    requires frame < 3
    ensures FrameFlag(s, frame, minOrf).Some? <==> IsPremature(s, frame, minOrf)
    ensures FrameFlag(s, frame, minOrf).Some? ==> IsFlagOf(s, minOrf, FrameFlag(s, frame, minOrf).value)
  {
    var first := FirstStop(FrameCodons(s, frame));
    FirstStopSpec(FrameCodons(s, frame));
    if first.Some? {
      FrameCodonAt(s, frame, first.value);
    }
  }

  /** The candidate flag of each frame 0, 1, 2, in frame order. */
  function FrameFlags(s: string, minOrf: int): (rs: seq<Option<OrfFlag>>)
    ensures |rs| == 3 && FramesMatch(rs)
    ensures forall f :: 0 <= f < 3 ==> rs[f] == FrameFlag(s, f, minOrf)
  {
    [FrameFlag(s, 0, minOrf), FrameFlag(s, 1, minOrf), FrameFlag(s, 2, minOrf)]
  }

  /** Entry `k` of `rs`, when present, is a flag about frame `k`. */
  predicate FramesMatch(rs: seq<Option<OrfFlag>>)
  {
    forall k :: 0 <= k < |rs| && rs[k].Some? ==> rs[k].value.frame == k
  }

  /** The present entries of `rs`, in order: the list the loop over the frames appends to. */
  function Collect(rs: seq<Option<OrfFlag>>): (flags: seq<OrfFlag>)
    requires FramesMatch(rs)
    ensures |flags| <= |rs|
    ensures forall j :: 0 <= j < |flags| ==> flags[j].frame < |rs| && rs[flags[j].frame] == Some(flags[j])
    ensures forall j, j' :: 0 <= j < j' < |flags| ==> flags[j].frame < flags[j'].frame
  {
    if rs == [] then []
    else
      var n := |rs| - 1;
      var prev := Collect(rs[..n]);
      if rs[n].Some? then prev + [rs[n].value] else prev
  }

  /** Collecting one more entry appends it when present. */
  lemma CollectSnoc(rs: seq<Option<OrfFlag>>, n: nat)
    requires FramesMatch(rs) && n < |rs|
    ensures Collect(rs[..n + 1]) == Collect(rs[..n]) + (if rs[n].Some? then [rs[n].value] else [])
  {
    assert rs[..n + 1][..n] == rs[..n];
  }

  /** Some flag is about frame `f`. */
  predicate HasFlagFor(flags: seq<OrfFlag>, f: nat)
  {
    exists j :: 0 <= j < |flags| && flags[j].frame == f
  }

  /** Exactly the frames whose entry is present appear among the collected flags. */
  lemma {:induction false} CollectFrames(rs: seq<Option<OrfFlag>>, f: nat)
    requires FramesMatch(rs) && f < |rs|
    ensures rs[f].Some? <==> HasFlagFor(Collect(rs), f)
  {
    var n := |rs| - 1;
    var flags, prev := Collect(rs), Collect(rs[..n]);
    assert flags == if rs[n].Some? then prev + [rs[n].value] else prev;
    if f < n {
      assert rs[..n][f] == rs[f];
      CollectFrames(rs[..n], f);
      if rs[f].Some? {
        var j :| 0 <= j < |prev| && prev[j].frame == f;
        assert flags[j] == prev[j];
      }
    } else if rs[f].Some? {
      assert flags[|flags| - 1].frame == f;
    }
  }

  /** The ORF length threshold `premature_stop_flags` uses when its caller gives none (`min_orf=150`). */
  const DEFAULT_MIN_ORF: int := 150

  /**
   * `premature_stop_flags`: at most one flag per frame, frames ascending; a frame is flagged exactly
   * when its first stop codon has index k with 3k < minOrf, and the flag gives 3k + frame + 1,
   * the 1-based position where that stop codon starts in `s`.
   */
  method PrematureStopFlags(s: string, minOrf: int) returns (flags: seq<OrfFlag>)
    ensures |flags| <= 3
    ensures forall j, j' :: 0 <= j < j' < |flags| ==> flags[j].frame < flags[j'].frame
    ensures forall f: nat :: f < 3 ==> (IsPremature(s, f, minOrf) <==> HasFlagFor(flags, f))
    ensures forall j :: 0 <= j < |flags| ==> IsFlagOf(s, minOrf, flags[j])
  {
    ghost var rs := FrameFlags(s, minOrf);
    flags := [];
    for frame := 0 to 3
      invariant flags == Collect(rs[..frame])
    {
      CollectSnoc(rs, frame);
      var flag := FrameFlag(s, frame, minOrf);
      if flag.Some? {
        flags := flags + [flag.value];
      }
    }
    assert rs[..3] == rs;
    CollectedFlags(s, minOrf);
  }

  /** The collected flags of the three frames are exactly the flags of the premature frames. */
  lemma CollectedFlags(s: string, minOrf: int)
    ensures var flags := Collect(FrameFlags(s, minOrf));
      && (forall f: nat :: f < 3 ==> (IsPremature(s, f, minOrf) <==> HasFlagFor(flags, f)))
      && (forall j :: 0 <= j < |flags| ==> IsFlagOf(s, minOrf, flags[j]))
  {
    var rs := FrameFlags(s, minOrf);
    var flags := Collect(rs);
    forall f: nat | f < 3
      ensures IsPremature(s, f, minOrf) <==> HasFlagFor(flags, f)
    {
      CollectFrames(rs, f);
      FrameFlagIsPremature(s, f, minOrf);
    }
    forall j | 0 <= j < |flags|
      ensures IsFlagOf(s, minOrf, flags[j])
    {
      FrameFlagIsPremature(s, flags[j].frame, minOrf);
    }
  }
}
