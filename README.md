# DNA sequence analysis engine (utils.py) in Dafny

This project models the analysis functions of a small DNA toolkit and proves what each one computes.
The toolkit's `utils.py` works on upper-case nucleotide strings. Its analysis functions are:
- GC content;
- frequencies of in-frame codons;
- overlapping motif positions;
- fixed-size GC windows, and z-score outliers among them;
- a report on ambiguous IUPAC symbols and long runs of `N`;
- flags for reading frames that hit a stop codon early;
- a position-by-position SNP comparison against a reference.

Strings are `seq<char>`. Percentages and frequencies are exact `real`s, a ratio of counts, not floats.
Python's `Counter` is a `map<K, nat>`. The records the functions return are datatypes; the frequency and count dictionaries are maps.

The code accumulates in loops in these places (a `Counter` in `codon_frequency`, lists elsewhere), and the model keeps each as a `method` with a loop:
- `codon_frequency`;
- `sliding_gc`;
- `gc_outliers`;
- the `n_runs` scan of `find_ambiguous_bases`;
- `premature_stop_flags`;
- `simple_snp_diff`.

Each method's `ensures` either states the property outright or ties the result to a specification function. The properties of that function are proved as lemmas. The comprehensions and the single expression of `gc_content` become functions.

Modules:
- `Nucleotides`: `IUPAC_VALID`, symbol counting, codon framing and the 1000-entry preview cap.
- `Tally`: `Counter` increments and sums over the values of a map.
- `Composition`: `gc_content`, `codon_frequency` and `sliding_gc`.
- `Outliers`: `gc_outliers`.
- `Motif`: `motif_search`.
- `Ambiguity`: `find_ambiguous_bases`.
- `OrfGuard`: `premature_stop_flags`.
- `SnpDiff`: `simple_snp_diff`.

Two behaviours of the code that a reader might not expect:
- An empty motif does not give []: the lookahead `(?=)` matches at every offset, so `motif_search` returns 1..len(seq)+1. `Motif.EmptyMotifEverywhere` proves this for the model.
- The `break` on an empty chunk in `sliding_gc` can never run, because every chunk inside the loop is non-empty. The model has no such branch.

The default arguments of the Python functions are named constants next to each operation: `Motif.DEFAULT_MOTIF` ("ATG"), `Composition.DEFAULT_WIN` (500), `Outliers.DEFAULT_Z` (2.5), `OrfGuard.DEFAULT_MIN_ORF` (150) and `SnpDiff.DEFAULT_MAX_LEN` (5000). Dafny has no default parameters, so a caller passes the constant.

## Model

| member | source | states |
|---|---|---|
| Nucleotides.IupacValidCodes | utils.py:9 | `IUPAC_VALID` holds exactly the letters of "ACGTNRYWSKMBDHV", the four unambiguous bases among them |
| Nucleotides.IsUnambiguous | utils.py:44 | definition: `b in "ACGT"`, one of the four unambiguous bases; the same test appears at utils.py:48 and utils.py:94 |
| Nucleotides.Preview | utils.py:50 | `xs[:1000]` keeps the first min(1000, len) entries and is a prefix of `xs` |
| Nucleotides.Count | utils.py:20 | `s.count(c)` never exceeds the length of `s` |
| Nucleotides.CountAppend | utils.py:20 | counting is additive over concatenation |
| Nucleotides.CountPositive | utils.py:48 | a symbol's count is positive exactly when the symbol occurs |
| Nucleotides.GcCount | utils.py:20 | #G + #C is at most the length |
| Nucleotides.Codons | utils.py:24-25 | definition: the triplets `seq[i:i+3]` for i = 0, 3, 6, ... while i + 2 < len; its length and slices are stated by `Nucleotides.CodonsSpec` |
| Nucleotides.CodonsSpec | utils.py:24-25 | the triplets taken at offsets 0, 3, 6, ...: there are len/3 of them, triplet k is `s[3k:3k+3]`, and a trailing 1-2 symbols are dropped |
| Tally.Inc | utils.py:27 | `counts[codon] += 1` adds the key if missing, raises its count by one and leaves every other key alone |
| Tally.SumInc | utils.py:27-28 | one increment raises `sum(counts.values())` by exactly one |
| Tally.SumValues | utils.py:28 | the loop over the keys returns the sum of all values |
| Tally.RelativeFrequencies | utils.py:29 | `{k: counts[k] / total}` has the same keys, each value is count/total, and a non-empty result sums to 1 |
| Tally.FrequenciesSumToOne | utils.py:28-29 | the shares of a counter with a positive total add up to one |
| Composition.GcContent | utils.py:19-20 | definition: (#G + #C) / len × 100 for a non-empty sequence; its bounds are stated by `Composition.GcContentSpec` |
| Composition.GcContentSpec | utils.py:19-20 | for a non-empty sequence the result lies in [0, 100] and times len equals 100 × (#G + #C) |
| Composition.IsCodon | utils.py:26 | definition: `re.fullmatch(r"[ACGT]{3}", codon)`, three symbols each one of A, C, G, T |
| Composition.CodonTally | utils.py:23-27 | definition: the `Counter` after the loop, incrementing the entry of each ACGT-only triplet in order; its keys and values are stated by `Composition.CodonTallySpec` |
| Composition.CodonTallySpec | utils.py:23-27 | the counter holds exactly the ACGT-only triplets with their number of occurrences, all positive |
| Composition.TallyCodons | utils.py:23-27 | the counting loop builds exactly that counter for the triplets at offsets 0, 3, 6, ... |
| Composition.CountCodons | utils.py:26 | the number of ACGT-only triplets is zero exactly when none is ACGT-only |
| Composition.CodonTallyTotal | utils.py:28 | the counter's values add up to the number of ACGT-only triplets |
| Composition.CodonFrequency | utils.py:22-29 | keys are exactly the ACGT-only triplets at offsets 0, 3, ...; each value is its count over the total; the map is empty exactly when there is no such triplet, and otherwise the values sum to 1 |
| Composition.TilesOrdered | utils.py:58-63 | tiling windows are ordered and disjoint |
| Composition.TilesCover | utils.py:58-63 | every position 1..len lies in some tiling window |
| Composition.Window | utils.py:59-63 | definition: the entry for `seq[i:i+win]`, start i+1, end i+len(chunk) (the chunk cut at the end of the sequence), gc that chunk's GC content |
| Composition.Windows | utils.py:58-63 | definition: the entries for the offsets i, i+win, ... below len, in order; tiling, chunk contents and sizes are stated by the three lemmas below |
| Composition.WindowsTile | utils.py:58-63 | the chunks from offset i tile the positions i+1..len: first start i+1, each start is the previous end + 1, last end len, none when i >= len |
| Composition.WindowsAreChunks | utils.py:59-63 | every entry's range lies in the sequence and carries the GC content of exactly that range |
| Composition.WindowsFull | utils.py:58-59 | every chunk but the last holds win symbols and the last at most win |
| Composition.SlidingGc | utils.py:56-64 | for win > 0 the result is the chunk list above, so the windows tile [1, len] (an empty sequence gives []), all but the last hold win symbols and the last 1..win, and each carries its chunk's GC content; a negative win gives [] |
| Outliers.Mean | utils.py:70 | definition: `mean(arr)`, the sum of the windows' gc values (`SumGc`, added up in order) over their number |
| Outliers.PopulationVariance | utils.py:70 | definition: `pvariance(arr)`, the sum of squared deviations from the mean (`SquaredDeviations`) over the number of windows (population, not sample); `gc_outliers` needs its square root, which the caller supplies |
| Outliers.ZScore | utils.py:73 | definition: `(w["gc"] - mu) / sd` for the non-zero `sd` that the `or 1e-9` fallback guarantees |
| Outliers.Abs | utils.py:74 | definition: `abs(zsc)`, -x for negative x and x otherwise |
| Outliers.IsOutlier | utils.py:74 | definition: `abs(zsc) >= z`, inclusive at the threshold |
| Outliers.Tag | utils.py:75-76 | definition: `w2 = w.copy(); w2["z"] = zsc`, the window's start, end and gc unchanged with the z-score added |
| Outliers.KeptIndices | utils.py:72-74 | the kept window indices are in range, strictly ascending, and include i exactly when abs(z) >= threshold |
| Outliers.GcOutliers | utils.py:66-78 | fewer than 3 windows give []; otherwise the output lists, in input order, a copy with its z-score of exactly the windows whose abs(z) >= threshold, using the mean and the population deviation, or 1e-9 when that is 0 |
| Motif.StartsFrom | utils.py:32 | the lookahead scan from offset i yields exactly the ascending 1-based starts beyond i |
| Motif.MotifSearch | utils.py:31-32 | the result is exactly the strictly ascending 1-based p with `seq[p-1:p-1+len(motif)] == motif`, overlaps included; a motif longer than the sequence gives [] |
| Motif.OverlappingExample | utils.py:32 | "AA" in "AAA" gives [1, 2] |
| Motif.EmptyMotifEverywhere | utils.py:32 | the empty motif gives every position 1..len+1 |
| Ambiguity.AmbiguousPositions | utils.py:44 | the positions are exactly the 1-based positions of symbols outside ACGT, strictly ascending |
| Ambiguity.IupacCounts | utils.py:48 | the keys are exactly the non-ACGT symbols present, each mapped to its positive count |
| Ambiguity.IupacCountsSnoc | utils.py:48 | appending a symbol increments its count if it is ambiguous and changes nothing otherwise |
| Ambiguity.IupacCountsTotal | utils.py:44-54 | the per-symbol counts add up to the number of ambiguous positions |
| Ambiguity.NRunEnd | utils.py:46 | the greedy `N+` match starting at an N ends at the first symbol that is not N, or at the end |
| Ambiguity.ScanOther | utils.py:46-47 | stepping over a symbol other than N keeps the scan's invariant |
| Ambiguity.ScanRun | utils.py:46-47 | stepping over a whole run of N keeps the invariant, recording the run when it holds at least five N |
| Ambiguity.NRuns | utils.py:45-47 | `n_runs` are the maximal runs of ≥ 5 N with length = end - start + 1, disjoint and ascending, and every stretch of five N lies in one of them |
| Ambiguity.FindAmbiguousBases | utils.py:43-54 | the report has the first 1000 ambiguous positions, their uncapped total and the per-symbol counts summing to it; `n_runs` are maximal runs of ≥ 5 N with length = end - start + 1, disjoint and ascending, and every stretch of five N lies in one of them |
| OrfGuard.IsStop | utils.py:83-84 | definition: a codon that the Standard Code translates to `*`; `OrfGuard.StopCodons` states that these are exactly TAA, TAG and TGA |
| OrfGuard.StopCodons | utils.py:83-84 | the stop predicate holds for exactly TAA, TAG and TGA |
| OrfGuard.FrameCodons | utils.py:83 | definition: the complete codons of `seq[frame:]`, the ones `translate` reads (empty when frame > len); their positions in the sequence are stated by `OrfGuard.FrameCodonAt` |
| OrfGuard.FrameCodonAt | utils.py:83 | codon k of frame f is the triplet at offset 3k + f of the sequence |
| OrfGuard.StopIndices | utils.py:84 | definition: the indices of the stop codons, built codon by codon; stated exactly by `OrfGuard.StopIndicesSpec` |
| OrfGuard.StopIndicesSpec | utils.py:84 | `stops` lists exactly the indices of stop codons, strictly ascending |
| OrfGuard.FirstStop | utils.py:84-85 | definition: `stops[0]` when `stops` is non-empty, and None otherwise; stated exactly by `OrfGuard.FirstStopSpec` |
| OrfGuard.FirstStopSpec | utils.py:84-85 | `stops[0]` exists exactly when some codon is a stop, and is the least such index |
| OrfGuard.IsPremature | utils.py:85 | definition: `stops and stops[0]*3 < min_orf`, i.e. the frame has a first stop codon and 3 × its index is below min_orf; the predicate of `OrfGuard.PrematureStopFlags`' if-and-only-if |
| OrfGuard.NoStopNotPremature | utils.py:85 | a frame without any stop codon is never flagged |
| OrfGuard.FrameFlag | utils.py:83-86 | the flag one pass of the frame loop appends, if any, is about that frame |
| OrfGuard.FrameFlagIsPremature | utils.py:85-86 | a frame contributes a flag exactly when its first stop index k has 3k < min_orf, and then the flag's position 3k + f + 1 is where a stop codon starts in the sequence |
| OrfGuard.FrameFlags | utils.py:82-86 | the three per-frame outcomes of the loop, entry f being `OrfGuard.FrameFlag` of frame f, so entry f, when present, is about frame f |
| OrfGuard.Collect | utils.py:81-86 | the appended flags each come from their own frame's entry, in ascending frame order |
| OrfGuard.CollectFrames | utils.py:81-86 | a frame appears among the appended flags exactly when its entry is present |
| OrfGuard.CollectedFlags | utils.py:80-87 | the flags of the three frames are exactly the flags of the premature frames |
| OrfGuard.PrematureStopFlags | utils.py:80-87 | at most one flag per frame, frames ascending; frame f is flagged exactly when its first stop index k has 3k < min_orf, with first_stop_nt = 3k + f + 1 |
| SnpDiff.IsSnp | utils.py:94 | definition: the test of line 94 as written, IUPAC_VALID guards included; `SnpDiff.IsSnpOnlyUnambiguous` shows the guards are redundant |
| SnpDiff.IsSnpOnlyUnambiguous | utils.py:94 | given the ACGT tests, the IUPAC_VALID guards change nothing: a SNP is two different unambiguous bases |
| SnpDiff.CheckedLength | utils.py:90 | L is the minimum of the two lengths and max_len |
| SnpDiff.Snps | utils.py:91-95 | definition: the SNP list after the first n iterations, appending Snp(i+1, ref[i], seq[i]) when the test passes; soundness, order and completeness are stated by `SnpDiff.SnpsSound` and `SnpDiff.SnpsComplete` |
| SnpDiff.SnpsSound | utils.py:91-95 | each listed SNP has its position in 1..n, strictly ascending, with ref = ref[pos-1] and alt = seq[pos-1], two different ACGT bases |
| SnpDiff.SnpsComplete | utils.py:92-95 | every SNP position among the first n is listed |
| SnpDiff.SnpsExample | utils.py:95 | ref comes from the reference and alt from the sequence |
| SnpDiff.SimpleSnpDiff | utils.py:89-100 | checked_bases = min(len(seq), len(ref), max_len); snp_count counts every SNP among the first L positions, uncapped; snps_preview is the first min(1000, snp_count) of them, each a genuine SNP |

## Left out

- `read_fasta` (utils.py:11-17): it reads files and decodes streams, and the FASTA parsing happens inside Biopython `SeqIO`, which is not part of this model.
- `compare_sequences` (utils.py:34-41): it wraps Biopython's `PairwiseAligner`, whose scoring is not part of this model.
- app.py: Streamlit user interface, plotting, PDF reports and temporary files; it is presentation and I/O.
- Floating point: GC percentages, frequencies, means and z-scores are exact reals, so the model has no rounding.
- Outliers.GcOutliers: the square root inside `pstdev` is not modelled. The caller passes `pstdev`, which must be the non-negative root of the population variance. The mean, the variance, the `or 1e-9` fallback, the guard and the filter are modelled. In Dafny the input windows are immutable values, so "the input is not mutated" holds by construction.
- Composition.GcContent: requires a non-empty sequence, because the source divides by zero on "".
- Composition.SlidingGc: requires win != 0, because Python's `range` raises on a zero step.
- Motif.MotifSearch: requires a motif made of letters only. The source puts the motif into a regular expression unescaped, and the meaning of regex metacharacters is not modelled.
- OrfGuard.IsStop: covers only the stop codons TAA, TAG and TGA of the Standard Code. Four Biopython `translate` behaviours are not modelled: mapping ambiguous codons such as TAR to a stop, reading RNA so that UAA, UAG and UGA are stops too, warnings about a partial trailing codon, and errors on invalid symbols.
- SnpDiff.SimpleSnpDiff: models `max_len` as an unbounded integer. A negative value gives a negative `checked_bases` and an empty comparison, as in Python.
