/** GC content, codon frequencies and the fixed-size GC window profile of utils.py. */
module Composition {
  import opened Nucleotides
  import opened Tally

  // ---------------------------------------------------------------- gc_content

  /** `gc_content`: the share of G and C as a percentage; the source divides by zero on "". */
  function GcContent(s: string): real
    requires |s| > 0
  {
    GcCount(s) as real / |s| as real * 100.0
  }

  /** The GC content is a percentage, and times the length it gives 100 × (#G + #C). */
  lemma GcContentSpec(s: string)
    requires |s| > 0
    ensures 0.0 <= GcContent(s) <= 100.0
    ensures GcContent(s) * |s| as real == 100.0 * GcCount(s) as real
  {
    Percentage(GcCount(s) as real, |s| as real);
  }

  lemma Percentage(g: real, n: real)
    requires 0.0 <= g <= n && n > 0.0
    ensures 0.0 <= g / n * 100.0 <= 100.0
    ensures g / n * 100.0 * n == 100.0 * g
  {
    assert g / n <= 1.0;
  }

  // ---------------------------------------------------------------- codon_frequency

  /** `re.fullmatch(r"[ACGT]{3}", codon)`. */
  predicate IsCodon(c: string)
  {
    |c| == 3 && IsUnambiguous(c[0]) && IsUnambiguous(c[1]) && IsUnambiguous(c[2])
  }

  /** The `Counter` the loop of `codon_frequency` builds from the triplets `cs`: ambiguous ones are skipped. */
  function CodonTally(cs: seq<string>): map<string, nat>
  {
    if cs == [] then map[]
    else
      var init, last := cs[..|cs| - 1], cs[|cs| - 1];
      if IsCodon(last) then Inc(CodonTally(init), last) else CodonTally(init)
  }

  /** The tally holds exactly the unambiguous codons of `cs`, each with its positive number of occurrences. */
  lemma {:induction false} CodonTallySpec(cs: seq<string>)
    ensures forall c :: c in CodonTally(cs) <==> c in cs && IsCodon(c)
    ensures forall c :: c in CodonTally(cs) ==> CodonTally(cs)[c] == multiset(cs)[c] && CodonTally(cs)[c] > 0
  {
    if cs != [] {
      var init, last := cs[..|cs| - 1], cs[|cs| - 1];
      assert cs == init + [last];
      CodonTallySpec(init);
      assert multiset(cs) == multiset(init) + multiset{last};
    }
  }

  /** How many of the triplets `cs` are unambiguous codons. */
  function CountCodons(cs: seq<string>): (n: nat)
    ensures n <= |cs|
    ensures n == 0 <==> forall k :: 0 <= k < |cs| ==> !IsCodon(cs[k])
  {
    if cs == [] then 0
    else CountCodons(cs[..|cs| - 1]) + (if IsCodon(cs[|cs| - 1]) then 1 else 0)
  }

  /** The counts of the tally add up to the number of unambiguous codons. */
  lemma {:induction false} CodonTallyTotal(cs: seq<string>)
    ensures Sum(CodonTally(cs), CodonTally(cs).Keys) == CountCodons(cs)
  {
    if cs != [] {
      var init, last := cs[..|cs| - 1], cs[|cs| - 1];
      CodonTallyTotal(init);
      if IsCodon(last) {
        SumInc(CodonTally(init), last);
      }
    }
  }

  /** The counting loop of `codon_frequency`: a `Counter` of the unambiguous triplets at offsets 0, 3, 6, ... */
  method TallyCodons(s: string) returns (counts: map<string, nat>)
    ensures counts == CodonTally(Codons(s))
  {
    ghost var cs := Codons(s);
    CodonsSpec(s);
    counts := map[];
    var i, k := 0, 0;
    while i + 2 < |s|
      invariant i == 3 * k && k <= |cs|
      invariant counts == CodonTally(cs[..k])
    {
      var codon := s[i..i + 3];
      assert codon == cs[k];
      assert cs[..k + 1][..k] == cs[..k];
      if IsCodon(codon) {
        counts := Inc(counts, codon);
      }
      i, k := i + 3, k + 1;
    }
    assert cs[..k] == cs;
  }

  /**
   * `codon_frequency`: counts the unambiguous triplets at offsets 0, 3, 6, ... and turns the
   * counts into relative frequencies; without any such triplet the result is empty.
   */
  method CodonFrequency(s: string) returns (freq: map<string, real>)
    ensures forall c :: c in freq <==> c in Codons(s) && IsCodon(c)
    ensures forall c :: c in freq ==>
      (c in CodonTally(Codons(s)) && freq[c] == CodonTally(Codons(s))[c] as real / CountCodons(Codons(s)) as real)
    ensures freq == map[] <==> CountCodons(Codons(s)) == 0
    ensures freq != map[] ==> SumReal(freq, freq.Keys) == 1.0
  {
    var counts := TallyCodons(s);
    CodonTallySpec(Codons(s));
    var total := SumValues(counts);
    CodonTallyTotal(Codons(s));
    if counts != map[] {
      var c :| c in counts;
      SumPositive(counts, c);
    }
    freq := RelativeFrequencies(counts, total);
    assert freq == map[] <==> counts == map[] by {
      if counts != map[] {
        var c :| c in counts;
        assert c in freq;
      }
    }
  }

  // ---------------------------------------------------------------- sliding_gc

  /** One entry of `sliding_gc`: 1-based inclusive `start`..`end` and the window's GC percentage. */
  datatype GcWindow = GcWindow(start: nat, end: nat, gc: real)

  /** The windows tile the positions from+1..n: they start at from+1, each starts right after the previous one ends, the last ends at n. */
  predicate Tiles(ws: seq<GcWindow>, from: nat, n: nat)
  {
    && (ws == [] <==> from >= n)
    && (ws != [] ==> ws[0].start == from + 1 && ws[|ws| - 1].end == n)
    && (forall k :: 0 <= k < |ws| ==> from + 1 <= ws[k].start <= ws[k].end <= n)
    && (forall k :: 0 <= k < |ws| - 1 ==> ws[k + 1].start == ws[k].end + 1)
  }

  /** Tiling windows are ordered and disjoint. */
  lemma {:induction false} TilesOrdered(ws: seq<GcWindow>, n: nat, j: nat, k: nat)
    requires Tiles(ws, 0, n) && j < k < |ws|
    ensures ws[j].end < ws[k].start
    decreases k - j
  {
    if j + 1 < k {
      TilesOrdered(ws, n, j + 1, k);
    }
  }

  /** Every position 1..n lies in some tiling window. */
  lemma {:induction false} TilesCover(ws: seq<GcWindow>, n: nat, p: nat)
    requires Tiles(ws, 0, n) && 1 <= p <= n
    ensures exists k :: 0 <= k < |ws| && ws[k].start <= p <= ws[k].end
  {
    var k := 0;
    while ws[k].end < p
      invariant 0 <= k < |ws| && ws[k].start <= p
      decreases |ws| - k
    {
      k := k + 1;
    }
  }

  /** `w` is a chunk of `s`: a 1-based inclusive range inside `s` carrying that range's GC percentage. */
  predicate IsWindowOf(s: string, w: GcWindow)
  {
    1 <= w.start <= w.end <= |s| && w.gc == GcContent(s[w.start - 1 .. w.end])
  }

  /** Every window but the last holds exactly `win` symbols and is followed by the next one. */
  predicate Consecutive(ws: seq<GcWindow>, win: int)
  {
    forall k :: 0 <= k < |ws| - 1 ==> ws[k].end - ws[k].start + 1 == win && ws[k + 1].start == ws[k].end + 1
  }

  /** The last window, if any, holds at most `win` symbols. */
  predicate LastAtMost(ws: seq<GcWindow>, win: int)
  {
    ws != [] ==> ws[|ws| - 1].end - ws[|ws| - 1].start + 1 <= win
  }

  /** The entry for the chunk `seq[i:i+win]`, which is cut short at the end of `s`. */
  function Window(s: string, win: nat, i: nat): GcWindow
    requires i < |s| && win > 0
  {
    var e := if i + win < |s| then i + win else |s|;
    GcWindow(i + 1, e, GcContent(s[i..e]))
  }

  /** The entries for the chunks starting at offsets i, i + win, i + 2 win, ... below |s|. */
  function Windows(s: string, win: nat, i: nat): seq<GcWindow>
    requires win > 0
    decreases |s| - i
  {
    if i >= |s| then [] else [Window(s, win, i)] + Windows(s, win, i + win)
  }

  /** The windows from an offset inside `s` are that offset's window followed by the windows after it. */
  lemma WindowsStep(s: string, win: nat, i: nat)
    requires win > 0 && i < |s|
    ensures Windows(s, win, i) == [Window(s, win, i)] + Windows(s, win, i + win)
  {
  }

  /** The windows from offset i tile the positions i+1..|s|. */
  lemma {:induction false} WindowsTile(s: string, win: nat, i: nat)
    requires win > 0
    ensures Tiles(Windows(s, win, i), i, |s|)
    decreases |s| - i
  {
    if i < |s| {
      WindowsTile(s, win, i + win);
      var rest := Windows(s, win, i + win);
      assert Windows(s, win, i) == [Window(s, win, i)] + rest;
    }
  }

  lemma WindowIsChunk(s: string, win: nat, i: nat)
    requires i < |s| && win > 0
    ensures IsWindowOf(s, Window(s, win, i))
  {
  }

  /** Every window from offset i carries the GC content of its own chunk. */
  lemma {:induction false} WindowsAreChunks(s: string, win: nat, i: nat)
    requires win > 0
    ensures forall k :: 0 <= k < |Windows(s, win, i)| ==> IsWindowOf(s, Windows(s, win, i)[k])
    decreases |s| - i
  {
    if i < |s| {
      WindowsAreChunks(s, win, i + win);
      var ws, w, rest := Windows(s, win, i), Window(s, win, i), Windows(s, win, i + win);
      assert forall k :: 0 <= k < |rest| ==> IsWindowOf(s, rest[k]);
      assert ws == [w] + rest;
      forall k | 0 <= k < |ws|
        ensures IsWindowOf(s, ws[k])
      {
        if k == 0 {
          WindowIsChunk(s, win, i);
        } else {
          assert 0 <= k - 1 < |rest| && ws[k] == rest[k - 1];
          assert IsWindowOf(s, rest[k - 1]);
        }
      }
    }
  }

  /** Every window from offset i holds `win` symbols except the last, which holds at most `win`. */
  lemma {:induction false} WindowsFull(s: string, win: nat, i: nat)
    requires win > 0
    ensures Consecutive(Windows(s, win, i), win) && LastAtMost(Windows(s, win, i), win)
    decreases |s| - i
  {
    if i < |s| {
      WindowsFull(s, win, i + win);
      WindowsTile(s, win, i + win);
      var w, rest := Window(s, win, i), Windows(s, win, i + win);
      assert Windows(s, win, i) == [w] + rest;
      if rest != [] {
        assert w.end - w.start + 1 == win && rest[0].start == w.end + 1;
      }
    }
  }

  /** The window size `sliding_gc` uses when its caller gives none (`win=500`). */
  const DEFAULT_WIN: int := 500

  /**
   * `sliding_gc`: cuts `s` into consecutive chunks of `win` symbols (the last may be shorter) and
   * records each chunk's 1-based range and GC percentage. A negative `win` gives no chunk, as
   * Python's `range` does; a zero `win` makes `range` raise, so it is excluded.
   */
  method SlidingGc(s: string, win: int) returns (vals: seq<GcWindow>)
    requires win != 0
    ensures win < 0 ==> vals == []
    ensures win > 0 ==> vals == Windows(s, win, 0) && Tiles(vals, 0, |s|)
    ensures Consecutive(vals, win) && LastAtMost(vals, win)
    ensures forall k :: 0 <= k < |vals| ==> IsWindowOf(s, vals[k])
  {
    vals := [];
    if win < 0 {
      return;
    }
    var i := 0;
    // The source also leaves the loop when a chunk is empty; while i < |s| no chunk is.
    while i < |s|
      invariant vals + Windows(s, win, i) == Windows(s, win, 0)
      decreases |s| - i
    {
      var chunk := s[i..if i + win < |s| then i + win else |s|];
      var w := GcWindow(i + 1, i + |chunk|, GcContent(chunk));
      assert w == Window(s, win, i);
      WindowsStep(s, win, i);
      assert (vals + [w]) + Windows(s, win, i + win) == vals + Windows(s, win, i);
      vals := vals + [w];
      i := i + win;
    }
    assert vals == Windows(s, win, 0);
    WindowsTile(s, win, 0);
    WindowsAreChunks(s, win, 0);
    WindowsFull(s, win, 0);
  }
}
