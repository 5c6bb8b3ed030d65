/** Symbols, counting and codon framing shared by every analyzer of utils.py. */
module Nucleotides {

  /** `IUPAC_VALID` of utils.py: the fifteen IUPAC nucleotide codes the SNP diff accepts. */
  const IUPAC_VALID: set<char> := {'A', 'C', 'G', 'T', 'N', 'R', 'Y', 'W', 'S', 'K', 'M', 'B', 'D', 'H', 'V'}

  /** `set(list("ACGTNRYWSKMBDHV"))`: the set holds exactly the letters of that string, the four bases among them. */
  lemma IupacValidCodes()
    ensures forall c :: c in IUPAC_VALID <==> c in "ACGTNRYWSKMBDHV"
    ensures forall c :: IsUnambiguous(c) ==> c in IUPAC_VALID
  {
  }

  /** The capped detail lists (`[:1000]`) keep at most this many entries. */
  const PREVIEW_CAP: nat := 1000

  /** `b in "ACGT"`: one of the four unambiguous bases. */
  predicate IsUnambiguous(b: char)
  {
    b == 'A' || b == 'C' || b == 'G' || b == 'T'
  }

  /** Python's `xs[:1000]`: the first min(1000, |xs|) entries. */
  function Preview<T>(xs: seq<T>): (p: seq<T>)
    ensures |p| == if |xs| < PREVIEW_CAP then |xs| else PREVIEW_CAP
    ensures p <= xs
  {
    if |xs| <= PREVIEW_CAP then xs else xs[..PREVIEW_CAP]
  }

  /** `s.count(c)` for a one-symbol string `c`. */
  function Count(s: string, c: char): (n: nat)
    ensures n <= |s|
  {
    if s == [] then 0 else Count(s[..|s| - 1], c) + (if s[|s| - 1] == c then 1 else 0)
  }

  /** Counting is additive over concatenation: a stand-alone property of `Count`, not used elsewhere in the model. */
  lemma {:induction false} CountAppend(a: string, b: string, c: char)
    ensures Count(a + b, c) == Count(a, c) + Count(b, c)
  {
    if b == [] {
      assert a + b == a;
    } else {
      assert (a + b)[..|a + b| - 1] == a + b[..|b| - 1];
      CountAppend(a, b[..|b| - 1], c);
    }
  }

  /** A symbol is counted at least once exactly when it occurs. */
  lemma {:induction false} CountPositive(s: string)
    ensures forall c :: Count(s, c) > 0 <==> c in s
  {
    if s != [] {
      var init := s[..|s| - 1];
      assert s == init + [s[|s| - 1]];
      CountPositive(init);
    }
  }

  /** Two different symbols together occur at most |s| times. */
  lemma {:induction false} CountPairBound(s: string, a: char, b: char)
    requires a != b
    ensures Count(s, a) + Count(s, b) <= |s|
  {
    if s != [] {
      CountPairBound(s[..|s| - 1], a, b);
    }
  }

  /** `seq.count("G") + seq.count("C")`. */
  function GcCount(s: string): (n: nat)
    ensures n <= |s|
  {
    CountPairBound(s, 'G', 'C');
    Count(s, 'G') + Count(s, 'C')
  }

  /** The complete non-overlapping triplets of `s` read from offset 0; a trailing 1-2 symbols are dropped. */
  function Codons(s: string): seq<string>
  {
    if |s| < 3 then [] else [s[..3]] + Codons(s[3..])
  }

  /** There are |s| / 3 codons, and codon k is the triplet at offset 3k. */
  lemma {:induction false} CodonsSpec(s: string)
    ensures |Codons(s)| == |s| / 3
    ensures forall k :: 0 <= k < |Codons(s)| ==> Codons(s)[k] == s[3 * k .. 3 * k + 3]
  {
    if |s| >= 3 {
      CodonsSpec(s[3..]);
      var cs, rest := Codons(s), Codons(s[3..]);
      forall k | 0 < k < |cs|
        ensures cs[k] == s[3 * k .. 3 * k + 3]
      {
        assert cs[k] == rest[k - 1];
        assert s[3..][3 * (k - 1) .. 3 * (k - 1) + 3] == s[3 * k .. 3 * k + 3];
      }
    }
  }
}
