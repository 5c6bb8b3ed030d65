/** `find_ambiguous_bases` of utils.py: where the sequence holds symbols other than A, C, G, T. */
module Ambiguity {
  import opened Nucleotides
  import opened Tally

  /** `N{5,}`: the shortest run of N that is reported. */
  const MIN_N_RUN: nat := 5

  /** A run of N: 1-based inclusive `start`..`end` and its `length`. */
  datatype NRun = NRun(start: nat, end: nat, length: nat)

  datatype AmbiguityReport = AmbiguityReport(
    ambiguousPositions: seq<nat>,
    ambiguousTotal: nat,
    iupacCounts: map<char, nat>,
    nRuns: seq<NRun>)

  /** `bad_positions`: the 1-based positions holding a symbol outside ACGT, ascending. */
  function AmbiguousPositions(s: string): (ps: seq<nat>)
    ensures forall j :: 0 <= j < |ps| ==> 1 <= ps[j] <= |s|
    ensures forall j, j' :: 0 <= j < j' < |ps| ==> ps[j] < ps[j']
    ensures forall p :: p in ps <==> 1 <= p <= |s| && !IsUnambiguous(s[p - 1])
  {
    if s == [] then []
    else
      var n := |s| - 1;
      AmbiguousPositions(s[..n]) + (if IsUnambiguous(s[n]) then [] else [|s|])
  }

  /** `counts`: for every symbol outside ACGT occurring in `s`, how often it occurs. */
  function IupacCounts(s: string): (m: map<char, nat>)
    ensures forall c :: c in m <==> c in s && !IsUnambiguous(c)
    ensures forall c :: c in m ==> m[c] == Count(s, c) && m[c] > 0
  {
    CountPositive(s);
    map c | c in s && !IsUnambiguous(c) :: Count(s, c)
  }

  /** Appending a symbol to `s` increments its count when it is ambiguous and changes nothing otherwise. */
  lemma IupacCountsSnoc(s: string, x: char)
    ensures IupacCounts(s + [x]) == if IsUnambiguous(x) then IupacCounts(s) else Inc(IupacCounts(s), x)
  {
    var t := s + [x];
    assert t[..|t| - 1] == s;
    CountPositive(s);
    assert forall c :: c in t <==> c in s || c == x;
    var m, m' := IupacCounts(s), IupacCounts(t);
    var r := if IsUnambiguous(x) then m else Inc(m, x);
    assert forall c :: Count(t, c) == Count(s, c) + (if c == x then 1 else 0);
    assert m'.Keys == r.Keys;
    assert forall c :: c in m' ==> m'[c] == r[c];
  }

  /** The per-symbol counts add up to the number of ambiguous positions. */
  lemma {:induction false} IupacCountsTotal(s: string)
    ensures Sum(IupacCounts(s), IupacCounts(s).Keys) == |AmbiguousPositions(s)|
  {
    if s != [] {
      var init, x := s[..|s| - 1], s[|s| - 1];
      assert s == init + [x];
      IupacCountsTotal(init);
      IupacCountsSnoc(init, x);
      if !IsUnambiguous(x) {
        SumInc(IupacCounts(init), x);
      }
    }
  }

  /** Every symbol of `s` at the 0-based offsets a..b-1 is N. */
  predicate AllN(s: string, a: nat, b: nat)
    requires a <= b <= |s|
  {
    forall q :: a <= q < b ==> s[q] == 'N'
  }

  /** Five N start at the 0-based offset `p`. */
  predicate NWindowAt(s: string, p: nat)
  {
    p + MIN_N_RUN <= |s| && AllN(s, p, p + MIN_N_RUN)
  }

  /** `r` is a maximal run of at least five N in `s`, with `length == end - start + 1`. */
  predicate IsNRun(s: string, r: NRun)
  {
    && 1 <= r.start && r.start + MIN_N_RUN - 1 <= r.end <= |s|
    && r.length == r.end - r.start + 1
    && AllN(s, r.start - 1, r.end)
    && (r.start == 1 || s[r.start - 2] != 'N')
    && (r.end == |s| || s[r.end] != 'N')
  }

  /** Every stretch of five N in `s` lies inside one of the runs. */
  ghost predicate CoversNWindows(s: string, runs: seq<NRun>)
  {
    forall p: nat :: NWindowAt(s, p) ==>
      exists k :: 0 <= k < |runs| && Inside(p, runs[k])
  }

  /** The end of the run of N starting at the 0-based offset `i`: greedy `N+`. */
  method NRunEnd(s: string, i: nat) returns (j: nat)
    requires i < |s| && s[i] == 'N'
    ensures i < j <= |s| && AllN(s, i, j) && (j == |s| || s[j] != 'N')
  {
    j := i + 1;
    while j < |s| && s[j] == 'N'
      invariant i < j <= |s| && AllN(s, i, j)
    {
      j := j + 1;
    }
  }

  /** The stretch of five N at offset `p` lies inside run `r`. */
  predicate Inside(p: nat, r: NRun)
  {
    r.start <= p + 1 && p + MIN_N_RUN <= r.end
  }

  /**
   * What the scan knows after reading the first `i` symbols: `i` does not split a run of N, the runs
   * found are maximal, disjoint, ascending and end by `i`, and they cover every stretch of five N
   * that ends by `i`.
   */
  ghost predicate Scanned(s: string, i: nat, runs: seq<NRun>)
  {
    && i <= |s|
    && (0 < i < |s| ==> !(s[i - 1] == 'N' && s[i] == 'N'))
    && (forall k :: 0 <= k < |runs| ==> IsNRun(s, runs[k]) && runs[k].end <= i)
    && (forall k :: 0 <= k < |runs| - 1 ==> runs[k].end < runs[k + 1].start)
    && (forall p: nat :: p + MIN_N_RUN <= i && NWindowAt(s, p) ==> exists k :: 0 <= k < |runs| && Inside(p, runs[k]))
  }

  /** Stepping over a symbol other than N keeps the scan's knowledge. */
  lemma ScanOther(s: string, i: nat, runs: seq<NRun>)
    requires Scanned(s, i, runs) && i < |s| && s[i] != 'N'
    ensures Scanned(s, i + 1, runs)
  {
    forall p: nat | p + MIN_N_RUN <= i + 1 && NWindowAt(s, p)
      ensures exists k :: 0 <= k < |runs| && Inside(p, runs[k])
    {
      assert !(p <= i < p + MIN_N_RUN);
    }
  }

  /** Stepping over the whole run of N at offsets i..j-1 records it when it holds at least five N. */
  lemma ScanRun(s: string, i: nat, j: nat, runs: seq<NRun>, runs': seq<NRun>)
    requires Scanned(s, i, runs) && i < j <= |s| && s[i] == 'N'
    requires AllN(s, i, j) && (j == |s| || s[j] != 'N')
    requires runs' == if j - i >= MIN_N_RUN then runs + [NRun(i + 1, j, j - i)] else runs
    ensures Scanned(s, j, runs')
  {
    if j - i >= MIN_N_RUN {
      var r := NRun(i + 1, j, j - i);
      assert i == 0 || s[i - 1] != 'N';
      assert IsNRun(s, r);
      assert forall k :: 0 <= k < |runs'| ==> runs'[k] == if k < |runs| then runs[k] else r;
    }
    assert forall k :: 0 <= k < |runs'| ==> IsNRun(s, runs'[k]) && runs'[k].end <= j;
    assert forall k :: 0 <= k < |runs'| - 1 ==> runs'[k].end < runs'[k + 1].start;
    // no stretch of five N straddles offset i, since s[i - 1] is not N
    assert forall p: nat :: NWindowAt(s, p) ==> p >= i || p + MIN_N_RUN <= i;
    forall p: nat | p + MIN_N_RUN <= j && NWindowAt(s, p)
      ensures exists k :: 0 <= k < |runs'| && Inside(p, runs'[k])
    {
      if p + MIN_N_RUN <= i {
        var k :| 0 <= k < |runs| && Inside(p, runs[k]);
        assert runs'[k] == runs[k];
      } else {
        assert runs'[|runs'| - 1] == NRun(i + 1, j, j - i);
      }
    }
    assert 0 < j < |s| ==> !(s[j - 1] == 'N' && s[j] == 'N');
  }

  /**
   * The `n_runs` loop over `re.finditer(r"N{5,}", seq)`: the maximal runs of at least five N, disjoint
   * and ascending, with every stretch of five N inside one of them.
   */
  method NRuns(s: string) returns (nRuns: seq<NRun>)
    ensures forall k :: 0 <= k < |nRuns| ==> IsNRun(s, nRuns[k])
    ensures forall k :: 0 <= k < |nRuns| - 1 ==> nRuns[k].end < nRuns[k + 1].start
    ensures CoversNWindows(s, nRuns)
  {
    nRuns := [];
    var i := 0;
    while i < |s|
      invariant Scanned(s, i, nRuns)
      decreases |s| - i
    {
      if s[i] == 'N' {
        var j := NRunEnd(s, i);
        ghost var before := nRuns;
        if j - i >= MIN_N_RUN {
          nRuns := nRuns + [NRun(i + 1, j, j - i)];
        }
        ScanRun(s, i, j, before, nRuns);
        i := j;
      } else {
        ScanOther(s, i, nRuns);
        i := i + 1;
      }
    }
  }

  /**
   * `find_ambiguous_bases`: the first 1000 ambiguous positions, their uncapped total, the count of
   * each ambiguous symbol present, and the maximal runs of at least five N in ascending order.
   */
  method FindAmbiguousBases(s: string) returns (report: AmbiguityReport)
    ensures report.ambiguousPositions == Preview(AmbiguousPositions(s))
    ensures report.ambiguousTotal == |AmbiguousPositions(s)|
    ensures report.iupacCounts == IupacCounts(s)
    ensures Sum(report.iupacCounts, report.iupacCounts.Keys) == report.ambiguousTotal
    ensures forall k :: 0 <= k < |report.nRuns| ==> IsNRun(s, report.nRuns[k])
    ensures forall k :: 0 <= k < |report.nRuns| - 1 ==> report.nRuns[k].end < report.nRuns[k + 1].start
    ensures CoversNWindows(s, report.nRuns)
  {
    var badPositions := AmbiguousPositions(s);
    var nRuns := NRuns(s);
    var counts := IupacCounts(s);
    IupacCountsTotal(s);
    report := AmbiguityReport(Preview(badPositions), |badPositions|, counts, nRuns);
  }
}
