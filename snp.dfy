/** `simple_snp_diff` of utils.py: position-by-position substitutions between a sequence and a reference. */
module SnpDiff {
  import opened Nucleotides

  /** One substitution: 1-based position, the reference base and the sequence's (alternative) base. */
  datatype Snp = Snp(pos: nat, ref: char, alt: char)

  /** The summary `simple_snp_diff` returns; `checkedBases` is Python's `L`, negative when `max_len` is. */
  datatype SnpDiffResult = SnpDiffResult(checkedBases: int, snpCount: nat, snpsPreview: seq<Snp>)

  /** The test applied to the sequence's base `a` and the reference's base `b`, with its IUPAC_VALID guards. */
  predicate IsSnp(a: char, b: char)
  {
    a in IUPAC_VALID && b in IUPAC_VALID && a != b && IsUnambiguous(a) && IsUnambiguous(b)
  }

  /** The IUPAC_VALID guards are implied by the "ACGT" tests: a SNP is two different unambiguous bases. */
  lemma IsSnpOnlyUnambiguous(a: char, b: char)
    ensures IsSnp(a, b) <==> IsUnambiguous(a) && IsUnambiguous(b) && a != b
  {
  }

  /** `L = min(len(seq), len(ref), max_len)`. */
  function CheckedLength(s: string, ref: string, maxLen: int): (l: int)
    ensures l <= |s| && l <= |ref| && l <= maxLen
    ensures l == |s| || l == |ref| || l == maxLen
  {
    var m := if |s| < |ref| then |s| else |ref|;
    if m < maxLen then m else maxLen
  }

  /** The SNPs among the first `n` aligned positions, in position order. */
  function Snps(s: string, ref: string, n: nat): seq<Snp>
    requires n <= |s| && n <= |ref|
  {
    if n == 0 then []
    else
      var a, b := s[n - 1], ref[n - 1];
      Snps(s, ref, n - 1) + (if IsSnp(a, b) then [Snp(n, b, a)] else [])
  }

  /** `p` is a SNP position among the first `n`, and `x` records it. */
  predicate ReportsSnp(s: string, ref: string, n: nat, x: Snp)
  {
    var p := x.pos;
    && 1 <= p <= n && n <= |s| && n <= |ref|
    && x.ref == ref[p - 1] && x.alt == s[p - 1]
    && IsUnambiguous(x.alt) && IsUnambiguous(x.ref) && x.alt != x.ref
  }

  /** Every listed SNP is a genuine one at its position, and the positions strictly ascend. */
  lemma {:induction false} SnpsSound(s: string, ref: string, n: nat)
    requires n <= |s| && n <= |ref|
    ensures |Snps(s, ref, n)| <= n
    ensures forall j :: 0 <= j < |Snps(s, ref, n)| ==> ReportsSnp(s, ref, n, Snps(s, ref, n)[j])
    ensures forall j, j' :: 0 <= j < j' < |Snps(s, ref, n)| ==> Snps(s, ref, n)[j].pos < Snps(s, ref, n)[j'].pos
  {
    if n > 0 {
      SnpsSound(s, ref, n - 1);
      var prev := Snps(s, ref, n - 1);
      assert forall j :: 0 <= j < |prev| ==> ReportsSnp(s, ref, n, prev[j]);
      IsSnpOnlyUnambiguous(s[n - 1], ref[n - 1]);
    }
  }

  /** Some listed SNP is at position `p`. */
  predicate HasSnpAt(snps: seq<Snp>, p: nat)
  {
    exists j :: 0 <= j < |snps| && snps[j].pos == p
  }

  /** Every SNP among the first `n` positions is listed. */
  lemma {:induction false} SnpsComplete(s: string, ref: string, n: nat, p: nat)
    requires n <= |s| && n <= |ref|
    requires 1 <= p <= n && IsUnambiguous(s[p - 1]) && IsUnambiguous(ref[p - 1]) && s[p - 1] != ref[p - 1]
    ensures HasSnpAt(Snps(s, ref, n), p)
  {
    var prev := Snps(s, ref, n - 1);
    if p < n {
      SnpsComplete(s, ref, n - 1, p);
      var j :| 0 <= j < |prev| && prev[j].pos == p;
      SnpsPrefix(s, ref, n - 1, j);
    } else {
      IsSnpOnlyUnambiguous(s[n - 1], ref[n - 1]);
      assert Snps(s, ref, n) == prev + [Snp(n, ref[n - 1], s[n - 1])];
      assert Snps(s, ref, n)[|prev|].pos == p;
    }
  }

  /** Extending the compared prefix keeps every SNP listed so far in its place. */
  lemma SnpsPrefix(s: string, ref: string, n: nat, j: nat)
    requires n < |s| && n < |ref| && j < |Snps(s, ref, n)|
    ensures j < |Snps(s, ref, n + 1)| && Snps(s, ref, n + 1)[j] == Snps(s, ref, n)[j]
  {
    assert Snps(s, ref, n + 1) == Snps(s, ref, n) + (if IsSnp(s[n], ref[n]) then [Snp(n + 1, ref[n], s[n])] else []);
  }

  /** The orientation of a listed SNP: `ref` from the reference, `alt` from the sequence. */
  lemma SnpsExample()
    ensures Snps("ACGT", "ACGA", 4) == [Snp(4, 'A', 'T')]
  {
  }

  /** The comparison cap `simple_snp_diff` uses when its caller gives none (`max_len=5000`). */
  const DEFAULT_MAX_LEN: int := 5000

  /**
   * `simple_snp_diff`: compares the first L = min(|s|, |ref|, maxLen) positions and lists every
   * position where both bases are unambiguous and differ; the summary keeps the first 1000 of them.
   * A negative `maxLen` makes L negative and compares nothing, as Python's `range(L)` does.
   */
  method SimpleSnpDiff(s: string, ref: string, maxLen: int) returns (result: SnpDiffResult)
    ensures result.checkedBases == CheckedLength(s, ref, maxLen)
    ensures var n := if result.checkedBases < 0 then 0 else result.checkedBases;
      && n <= |s| && n <= |ref|
      && result.snpCount == |Snps(s, ref, n)|
      && result.snpsPreview == Preview(Snps(s, ref, n))
      && (forall j :: 0 <= j < |result.snpsPreview| ==> ReportsSnp(s, ref, n, result.snpsPreview[j]))
  {
    var l := CheckedLength(s, ref, maxLen);
    var n := if l < 0 then 0 else l;
    var snps: seq<Snp> := [];
    for i := 0 to n
      invariant snps == Snps(s, ref, i)
    {
      var a, b := s[i], ref[i];
      if a in IUPAC_VALID && b in IUPAC_VALID && a != b && IsUnambiguous(a) && IsUnambiguous(b) {
        snps := snps + [Snp(i + 1, b, a)];
      }
    }
    SnpsSound(s, ref, n);
    result := SnpDiffResult(l, |snps|, Preview(snps));
  }
}
