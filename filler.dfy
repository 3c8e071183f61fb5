/**
 * src/Filler.cpp: the option check and k-mer size dispatch of execute(),
 * the reading of breakpoint sequences two by two in fillBreakpoints(), and
 * the search of the right anchor in the contigs (find_nodes_containing_R).
 *
 * The contig bank is a sequence of contig strings in file order; the
 * gapped aligner needleman_wunsch is a parameter returning its three counts.
 */
module Filler {
  import opened Common
  import opened Dna
  import opened Utils

  datatype FillerError =
    | IncompatibleOptions
    | UnsupportedKmerSize(kmerSize: int)
    | OddSequenceCount

  // ---------------------------------------------------------------------
  // execute()
  // ---------------------------------------------------------------------

  /** The k-mer spans the library is compiled for (its default KSIZE_1 .. KSIZE_4). */
  const KSize1: int := 32
  const KSize2: int := 64
  const KSize3: int := 96
  const KSize4: int := 128
  const KSizes: seq<int> := [KSize1, KSize2, KSize3, KSize4]

  /** The compiled span fillBreakpoints is instantiated with for k-mer size k. */
  function KmerSpan(k: int): Result<int, FillerError>
  {
    if k < KSize1 then Ok(KSize1)
    else if k < KSize2 then Ok(KSize2)
    else if k < KSize3 then Ok(KSize3)
    else if k < KSize4 then Ok(KSize4)
    else Err(UnsupportedKmerSize(k))
  }

  /** The dispatch picks the smallest compiled span above k, and fails from KSIZE_4 on. */
  lemma KmerSpanIsSmallestAbove(k: int)
    ensures KmerSpan(k).Ok? <==> k < KSize4
    ensures KmerSpan(k).Err? ==> KmerSpan(k).error == UnsupportedKmerSize(k)
    ensures KmerSpan(k).Ok? ==>
              && KmerSpan(k).value in KSizes
              && k < KmerSpan(k).value
              && forall i :: 0 <= i < |KSizes| && k < KSizes[i] ==> KmerSpan(k).value <= KSizes[i]
  {
  }

  /** Whether -graph and -in were given, the -kmer-size option, and the size stored in a loaded graph. */
  datatype Options = Options(hasGraph: bool, hasInput: bool, kmerSizeOption: int)

  /**
   * execute(): refuse unless exactly one of -graph and -in is given; take
   * the k-mer size from the option when the graph is built from reads, from
   * the graph file otherwise; then dispatch on it.
   */
  function Execute(opts: Options, graphKmerSize: int): Result<int, FillerError>
  {
    if (opts.hasGraph && opts.hasInput) || (!opts.hasGraph && !opts.hasInput) then Err(IncompatibleOptions)
    else
      var k := if opts.hasInput then opts.kmerSizeOption else graphKmerSize;
      KmerSpan(k)
  }

  lemma ExecuteChecksOptionsFirst(opts: Options, graphKmerSize: int)
    ensures Execute(opts, graphKmerSize) == Err(IncompatibleOptions) <==> opts.hasGraph == opts.hasInput
    ensures Execute(opts, graphKmerSize).Ok? <==>
              && opts.hasGraph != opts.hasInput
              && (if opts.hasInput then opts.kmerSizeOption else graphKmerSize) < KSize4
  {
  }

  // ---------------------------------------------------------------------
  // fillBreakpoints()
  // ---------------------------------------------------------------------

  /** The two anchors handed to gapFill for one breakpoint. */
  datatype GapFillInput = GapFillInput(source: string, target: string)

  /** The resize of the source as written: the suffix is computed and thrown away. */
  function ResizeSourceAsWritten(source: string, kmerSize: nat): string
  {
    if |source| > kmerSize then
      var _ := source[|source| - kmerSize..];
      source
    else source
  }

  /** The resize of the target as written: the prefix is computed and thrown away. */
  function ResizeTargetAsWritten(target: string, kmerSize: nat): string
  {
    if |target| > kmerSize then
      var _ := target[..kmerSize];
      target
    else target
  }

  /** The resize leaves both anchors as read, whatever their length. */
  lemma ResizeAsWrittenIsNoOp(source: string, target: string, kmerSize: nat)
    ensures ResizeSourceAsWritten(source, kmerSize) == source
    ensures ResizeTargetAsWritten(target, kmerSize) == target
  {
  }

  /** A witness: 32-base anchors with k = 31 reach gapFill with 32 bases as written, 31 as intended. */
  lemma ResizeAsWrittenKeepsLongSource()
    ensures var s := seq(32, i => 'A');
            && |ResizeSourceAsWritten(s, 31)| == 32 && |ResizeTargetAsWritten(s, 31)| == 32
            && |SourceAnchor(s, 31)| == 31 && |TargetAnchor(s, 31)| == 31
  {
  }

  /** The intended resize of the source: its suffix of kmerSize bases when it is longer. */
  function SourceAnchor(source: string, kmerSize: nat): (r: string)
    ensures |r| == if |source| > kmerSize then kmerSize else |source|
    ensures r == source[|source| - |r|..]
  {
    if |source| > kmerSize then source[|source| - kmerSize..] else source
  }

  /** The intended resize of the target: its prefix of kmerSize bases when it is longer. */
  function TargetAnchor(target: string, kmerSize: nat): (r: string)
    ensures |r| == if |target| > kmerSize then kmerSize else |target|
    ensures r == target[..|r|]
  {
    if |target| > kmerSize then target[..kmerSize] else target
  }

  /** The second gapFill attempt: the reverse complements, target and source swapped. */
  function ReverseInput(p: GapFillInput): GapFillInput
  {
    GapFillInput(ReverseComplement(p.target), ReverseComplement(p.source))
  }

  /** Reversing a breakpoint twice gives it back. */
  lemma ReverseInputInvolution(p: GapFillInput)
    ensures ReverseInput(ReverseInput(p)) == p
  {
    ReverseComplementInvolution(p.source);
    ReverseComplementInvolution(p.target);
  }

  /**
   * fillBreakpoints() as written: the breakpoint bank is read two sequences
   * at a time, source then target, and a last sequence without a partner
   * aborts with an error after the complete pairs before it.  The resize
   * step computes the suffix and the prefix and discards them, so every
   * pair reaches gapFill as read.
   */
  method FillBreakpoints(bank: seq<string>, kmerSize: nat) returns (inputs: seq<GapFillInput>, err: Option<FillerError>)
    ensures err.Some? <==> |bank| % 2 == 1
    ensures err.Some? ==> err.value == OddSequenceCount
    ensures |inputs| == |bank| / 2
    ensures forall n :: 0 <= n < |inputs| ==> inputs[n] == GapFillInput(bank[2 * n], bank[2 * n + 1])
  {
    inputs := [];
    err := None;
    var i := 0;
    while i < |bank|
      invariant 0 <= i <= |bank| && i % 2 == 0
      invariant |inputs| == i / 2
      invariant forall n :: 0 <= n < |inputs| ==> inputs[n] == GapFillInput(bank[2 * n], bank[2 * n + 1])
    {
      var sourceSequence := bank[i];
      i := i + 1;
      if i == |bank| {
        err := Some(OddSequenceCount);
        return;
      }
      var targetSequence := bank[i];
      if |sourceSequence| > kmerSize {
        var _ := sourceSequence[|sourceSequence| - kmerSize..];
      }
      if |targetSequence| > kmerSize {
        var _ := targetSequence[..kmerSize];
      }
      inputs := inputs + [GapFillInput(sourceSequence, targetSequence)];
      i := i + 1;
    }
  }

  /**
   * fillBreakpoints() as its resize step intends: the same pairs and the same
   * error, with each pair cut to the source's last and the target's first
   * kmerSize bases.
   */
  method FillBreakpointsIntended(bank: seq<string>, kmerSize: nat) returns (inputs: seq<GapFillInput>, err: Option<FillerError>)
    ensures err.Some? <==> |bank| % 2 == 1
    ensures err.Some? ==> err.value == OddSequenceCount
    ensures |inputs| == |bank| / 2
    ensures forall n :: 0 <= n < |inputs| ==>
              inputs[n] == GapFillInput(SourceAnchor(bank[2 * n], kmerSize), TargetAnchor(bank[2 * n + 1], kmerSize))
  {
    inputs := [];
    err := None;
    var i := 0;
    while i < |bank|
      invariant 0 <= i <= |bank| && i % 2 == 0
      invariant |inputs| == i / 2
      invariant forall n :: 0 <= n < |inputs| ==>
                  inputs[n] == GapFillInput(SourceAnchor(bank[2 * n], kmerSize), TargetAnchor(bank[2 * n + 1], kmerSize))
    {
      var sourceSequence := bank[i];
      i := i + 1;
      if i == |bank| {
        err := Some(OddSequenceCount);
        return;
      }
      var targetSequence := bank[i];
      if |sourceSequence| > kmerSize {
        sourceSequence := sourceSequence[|sourceSequence| - kmerSize..];
      }
      if |targetSequence| > kmerSize {
        targetSequence := targetSequence[..kmerSize];
      }
      inputs := inputs + [GapFillInput(sourceSequence, targetSequence)];
      i := i + 1;
    }
  }

  // ---------------------------------------------------------------------
  // find_nodes_containing_R, ungapped mode
  // ---------------------------------------------------------------------

  /** The offsets i < n at which node[j + i] and anchor[i] agree by identNT. */
  ghost function Agreements(node: string, j: nat, anchor: string, n: nat): set<nat>
    requires n <= |anchor| && j + n <= |node|
  {
    set i: nat | i < n && IdentNT(node[j + i], anchor[i]) == 1
  }

  /** The agreements over n bases are those over n - 1 bases and, when it agrees, offset n - 1. */
  lemma AgreementsStep(node: string, j: nat, anchor: string, n: nat)
    requires 0 < n <= |anchor| && j + n <= |node|
    ensures |Agreements(node, j, anchor, n)|
            == |Agreements(node, j, anchor, n - 1)| + IdentNT(node[j + n - 1], anchor[n - 1])
  {
    IdentNTContract(node[j + n - 1], anchor[n - 1]);
    var before := Agreements(node, j, anchor, n - 1);
    if IdentNT(node[j + n - 1], anchor[n - 1]) == 1 {
      assert Agreements(node, j, anchor, n) == before + {n - 1};
    } else {
      assert Agreements(node, j, anchor, n) == before;
    }
  }

  /** nbmatch after n bases: the number of identNT agreements between node[j..j+n] and anchor[..n]. */
  function MatchCount(node: string, j: nat, anchor: string, n: nat): (c: nat)
    requires n <= |anchor| && j + n <= |node|
    ensures c == |Agreements(node, j, anchor, n)|
    ensures c <= n
  {
    if n == 0 then 0
    else
      AgreementsStep(node, j, anchor, n);
      MatchCount(node, j, anchor, n - 1) + IdentNT(node[j + n - 1], anchor[n - 1])
  }

  /** The anchor is seen at offset j with at most misAllowed disagreements. */
  predicate UngappedAt(node: string, anchor: string, misAllowed: int, j: nat)
    requires j + |anchor| <= |node|
  {
    MatchCount(node, j, anchor, |anchor|) >= |anchor| - misAllowed
  }

  /** The first offset from j on at which the anchor is seen. */
  function FirstUngappedFrom(node: string, anchor: string, misAllowed: int, j: nat): Option<nat>
    requires |anchor| <= |node| && j <= |node| - |anchor| + 1
    decreases |node| - j
  {
    if j == |node| - |anchor| + 1 then None
    else if UngappedAt(node, anchor, misAllowed, j) then Some(j)
    else FirstUngappedFrom(node, anchor, misAllowed, j + 1)
  }

  /** The offset the ungapped search reports for one contig, if any; contigs shorter than the anchor report none. */
  function FirstUngapped(node: string, anchor: string, misAllowed: int): Option<nat>
  {
    if |node| < |anchor| then None else FirstUngappedFrom(node, anchor, misAllowed, 0)
  }

  lemma {:induction false} FirstUngappedFromSpec(node: string, anchor: string, misAllowed: int, j: nat)
    requires |anchor| <= |node| && j <= |node| - |anchor| + 1
    ensures var r := FirstUngappedFrom(node, anchor, misAllowed, j);
            && (r.Some? ==> j <= r.value && r.value + |anchor| <= |node| && UngappedAt(node, anchor, misAllowed, r.value)
                            && forall j' :: j <= j' < r.value ==> !UngappedAt(node, anchor, misAllowed, j'))
            && (r.None? <==> forall j' :: j <= j' <= |node| - |anchor| ==> !UngappedAt(node, anchor, misAllowed, j'))
    decreases |node| - j
  {
    if j < |node| - |anchor| + 1 && !UngappedAt(node, anchor, misAllowed, j) {
      FirstUngappedFromSpec(node, anchor, misAllowed, j + 1);
    }
  }

  /**
   * The ungapped search reports, for a contig, the smallest offset j with
   * j + |anchor| <= |contig| whose identNT agreements reach
   * |anchor| - misAllowed, and nothing when there is no such offset.
   */
  lemma FirstUngappedSpec(node: string, anchor: string, misAllowed: int)
    ensures var r := FirstUngapped(node, anchor, misAllowed);
            && (r.Some? ==> r.value + |anchor| <= |node| && UngappedAt(node, anchor, misAllowed, r.value)
                            && forall j' :: 0 <= j' < r.value ==> !UngappedAt(node, anchor, misAllowed, j'))
            && (r.None? <==> forall j' :: 0 <= j' && j' + |anchor| <= |node| ==> !UngappedAt(node, anchor, misAllowed, j'))
  {
    if |anchor| <= |node| {
      FirstUngappedFromSpec(node, anchor, misAllowed, 0);
    }
  }

  /** With no mismatch allowed, the anchor is seen at j exactly when every base agrees by identNT. */
  lemma {:induction false} ExactMatchCount(node: string, j: nat, anchor: string, n: nat)
    requires n <= |anchor| && j + n <= |node|
    ensures MatchCount(node, j, anchor, n) == n <==> forall i :: 0 <= i < n ==> IdentNT(node[j + i], anchor[i]) == 1
  {
    if n > 0 {
      ExactMatchCount(node, j, anchor, n - 1);
      IdentNTContract(node[j + n - 1], anchor[n - 1]);
    }
  }

  /** The (contig index, offset) pairs of the ungapped search over the contigs of bank. */
  function UngappedHits(bank: seq<string>, anchor: string, misAllowed: int): set<(int, int)>
  {
    if |bank| == 0 then {}
    else
      var n := |bank| - 1;
      UngappedHits(bank[..n], anchor, misAllowed)
      + (match FirstUngapped(bank[n], anchor, misAllowed) case Some(j) => {(n, j as int)} case None => {})
  }

  /**
   * A pair (i, j) is reported exactly when i is the 0-based index of a
   * contig and j is the offset the search finds in it: one pair at most per
   * contig, and every offset leaves room for the whole anchor.
   */
  lemma {:induction false} UngappedHitsSpec(bank: seq<string>, anchor: string, misAllowed: int, i: int, j: int)
    ensures (i, j) in UngappedHits(bank, anchor, misAllowed) <==>
              0 <= i < |bank| && 0 <= j && FirstUngapped(bank[i], anchor, misAllowed) == Some(j as nat)
    ensures (i, j) in UngappedHits(bank, anchor, misAllowed) ==> j + |anchor| <= |bank[i]|
  {
    if |bank| > 0 {
      var n := |bank| - 1;
      UngappedHitsSpec(bank[..n], anchor, misAllowed, i, j);
      if 0 <= i < n {
        assert bank[..n][i] == bank[i];
      }
    }
    if (i, j) in UngappedHits(bank, anchor, misAllowed) {
      FirstUngappedSpec(bank[i], anchor, misAllowed);
    }
  }

  // ---------------------------------------------------------------------
  // find_nodes_containing_R, gapped mode
  // ---------------------------------------------------------------------

  /** The three counts needleman_wunsch writes back. */
  datatype Alignment = Alignment(matches: nat, mismatches: nat, gaps: nat)

  /** The initial best_err: no alignment with this many errors or more is ever kept. */
  const NoBestError: int := 100000000

  /** The piece of contig aligned at offset j: anchor size plus the gap budget, cut at the contig's end. */
  function Window(node: string, j: nat, anchorSize: nat, gapsAllowed: int): string
    requires j <= |node| && gapsAllowed > 0
  {
    var len := if anchorSize + gapsAllowed < |node| - j then anchorSize + gapsAllowed else |node| - j;
    node[j..j + len]
  }

  function AlignAt(node: string, anchor: string, gapsAllowed: int, align: (string, string) -> Alignment, j: nat): Alignment
    requires j <= |node| && gapsAllowed > 0
  {
    align(anchor, Window(node, j, |anchor|, gapsAllowed))
  }

  /** An offset qualifies when both budgets hold and its error count beats the initial best_err. */
  predicate GappedOk(node: string, anchor: string, misAllowed: int, gapsAllowed: int,
                     align: (string, string) -> Alignment, j: nat)
    requires j <= |node| && gapsAllowed > 0
  {
    var al := AlignAt(node, anchor, gapsAllowed, align, j);
    al.mismatches <= misAllowed && al.gaps <= gapsAllowed && al.mismatches + al.gaps < NoBestError
  }

  function ErrorsAt(node: string, anchor: string, gapsAllowed: int, align: (string, string) -> Alignment, j: nat): int
    requires j <= |node| && gapsAllowed > 0
  {
    var al := AlignAt(node, anchor, gapsAllowed, align, j);
    al.mismatches + al.gaps
  }

  /** (best_err, best_j) after the offsets 0 .. n-1 have been tried. */
  function BestUpTo(node: string, anchor: string, misAllowed: int, gapsAllowed: int,
                    align: (string, string) -> Alignment, n: nat): (r: (int, int))
    requires n <= |node| + 1 && gapsAllowed > 0
    ensures -1 <= r.1 < n
  {
    if n == 0 then (NoBestError, -1)
    else
      var (bestErr, bestJ) := BestUpTo(node, anchor, misAllowed, gapsAllowed, align, n - 1);
      var al := AlignAt(node, anchor, gapsAllowed, align, n - 1);
      var currErr := al.mismatches + al.gaps;
      if al.mismatches <= misAllowed && al.gaps <= gapsAllowed && currErr < bestErr then (currErr, n - 1)
      else (bestErr, bestJ)
  }

  lemma {:induction false} BestUpToSpec(node: string, anchor: string, misAllowed: int, gapsAllowed: int,
                                        align: (string, string) -> Alignment, n: nat)
    requires n <= |node| + 1 && gapsAllowed > 0
    ensures var (e, b) := BestUpTo(node, anchor, misAllowed, gapsAllowed, align, n);
            && (b == -1 <==> forall j :: 0 <= j < n ==> !GappedOk(node, anchor, misAllowed, gapsAllowed, align, j))
            && (b == -1 ==> e == NoBestError)
            && (b != -1 ==>
                  && 0 <= b < n
                  && GappedOk(node, anchor, misAllowed, gapsAllowed, align, b)
                  && e == ErrorsAt(node, anchor, gapsAllowed, align, b)
                  && (forall j :: 0 <= j < n && GappedOk(node, anchor, misAllowed, gapsAllowed, align, j) ==>
                        e <= ErrorsAt(node, anchor, gapsAllowed, align, j))
                  && (forall j :: 0 <= j < b && GappedOk(node, anchor, misAllowed, gapsAllowed, align, j) ==>
                        e < ErrorsAt(node, anchor, gapsAllowed, align, j)))
  {
    if n > 0 {
      BestUpToSpec(node, anchor, misAllowed, gapsAllowed, align, n - 1);
      var (e, b) := BestUpTo(node, anchor, misAllowed, gapsAllowed, align, n - 1);
      if b == -1 && GappedOk(node, anchor, misAllowed, gapsAllowed, align, n - 1) {
        assert BestUpTo(node, anchor, misAllowed, gapsAllowed, align, n).1 == n - 1;
      }
    }
  }

  /** The offset the gapped search keeps for one contig, if any. */
  function BestGapped(node: string, anchor: string, misAllowed: int, gapsAllowed: int,
                      align: (string, string) -> Alignment): Option<nat>
    requires gapsAllowed > 0
  {
    if |node| < |anchor| then None
    else
      var (_, b) := BestUpTo(node, anchor, misAllowed, gapsAllowed, align, |node| - |anchor| + 1);
      if b == -1 then None else Some(b as nat)
  }

  /**
   * The gapped search keeps, for a contig, the earliest offset of minimal
   * mismatches + gaps among the offsets within both budgets, and nothing
   * when no offset is within them.
   */
  lemma BestGappedSpec(node: string, anchor: string, misAllowed: int, gapsAllowed: int,
                       align: (string, string) -> Alignment)
    requires gapsAllowed > 0
    ensures var r := BestGapped(node, anchor, misAllowed, gapsAllowed, align);
            && (r.None? <==> forall j :: 0 <= j && j + |anchor| <= |node| ==> !GappedOk(node, anchor, misAllowed, gapsAllowed, align, j))
            && (r.Some? ==>
                  && r.value + |anchor| <= |node|
                  && GappedOk(node, anchor, misAllowed, gapsAllowed, align, r.value)
                  && (forall j :: 0 <= j && j + |anchor| <= |node| && GappedOk(node, anchor, misAllowed, gapsAllowed, align, j) ==>
                        ErrorsAt(node, anchor, gapsAllowed, align, r.value) <= ErrorsAt(node, anchor, gapsAllowed, align, j))
                  && (forall j :: 0 <= j < r.value && GappedOk(node, anchor, misAllowed, gapsAllowed, align, j) ==>
                        ErrorsAt(node, anchor, gapsAllowed, align, r.value) < ErrorsAt(node, anchor, gapsAllowed, align, j)))
  {
    if |node| >= |anchor| {
      BestUpToSpec(node, anchor, misAllowed, gapsAllowed, align, |node| - |anchor| + 1);
    }
  }

  /** The first contig from index i on for which the gapped search keeps an offset. */
  function FirstGappedFrom(bank: seq<string>, anchor: string, misAllowed: int, gapsAllowed: int,
                           align: (string, string) -> Alignment, i: nat): Option<(int, int)>
    requires gapsAllowed > 0 && i <= |bank|
    decreases |bank| - i
  {
    if i == |bank| then None
    else match BestGapped(bank[i], anchor, misAllowed, gapsAllowed, align)
      case Some(j) => Some((i, j as int))
      case None => FirstGappedFrom(bank, anchor, misAllowed, gapsAllowed, align, i + 1)
  }

  /**
   * The gapped search stops at the first contig with a kept offset: it
   * reports that contig's index and offset, and no earlier contig had one.
   */
  lemma {:induction false} FirstGappedFromSpec(bank: seq<string>, anchor: string, misAllowed: int, gapsAllowed: int,
                                               align: (string, string) -> Alignment, i: nat)
    requires gapsAllowed > 0 && i <= |bank|
    ensures var r := FirstGappedFrom(bank, anchor, misAllowed, gapsAllowed, align, i);
            && (r.None? <==> forall n :: i <= n < |bank| ==> BestGapped(bank[n], anchor, misAllowed, gapsAllowed, align).None?)
            && (r.Some? ==>
                  && i <= r.value.0 < |bank|
                  && 0 <= r.value.1
                  && BestGapped(bank[r.value.0], anchor, misAllowed, gapsAllowed, align) == Some(r.value.1 as nat)
                  && forall n :: i <= n < r.value.0 ==> BestGapped(bank[n], anchor, misAllowed, gapsAllowed, align).None?)
    decreases |bank| - i
  {
    if i < |bank| && BestGapped(bank[i], anchor, misAllowed, gapsAllowed, align).None? {
      FirstGappedFromSpec(bank, anchor, misAllowed, gapsAllowed, align, i + 1);
    }
  }

  // ---------------------------------------------------------------------
  // find_nodes_containing_R
  // ---------------------------------------------------------------------

  /**
   * Scan the contigs in order.  Contigs shorter than the anchor are skipped.
   * Without a gap budget (nbGapsAllowed <= 0) every contig contributes its
   * first acceptable offset; with one, the search stops at the first contig
   * with a kept offset and returns that single pair.
   */
  method FindNodesContainingR(bank: seq<string>, targetSequence: string, nbMisAllowed: int, nbGapsAllowed: int,
                              align: (string, string) -> Alignment)
    returns (terminalNodes: set<(int, int)>)
    ensures nbGapsAllowed <= 0 ==> terminalNodes == UngappedHits(bank, targetSequence, nbMisAllowed)
    ensures nbGapsAllowed > 0 ==>
              terminalNodes == match FirstGappedFrom(bank, targetSequence, nbMisAllowed, nbGapsAllowed, align, 0)
                               case Some(p) => {p}
                               case None => {}
  {
    terminalNodes := {};
    var nodeNb := 0;
    var idx := 0;
    while idx < |bank|
      invariant 0 <= idx <= |bank| && nodeNb == idx
      invariant nbGapsAllowed <= 0 ==> terminalNodes == UngappedHits(bank[..idx], targetSequence, nbMisAllowed)
      invariant nbGapsAllowed > 0 ==>
                  && terminalNodes == {}
                  && FirstGappedFrom(bank, targetSequence, nbMisAllowed, nbGapsAllowed, align, 0)
                     == FirstGappedFrom(bank, targetSequence, nbMisAllowed, nbGapsAllowed, align, idx)
    {
      var nodeseq := bank[idx];
      OneMoreContig(bank, targetSequence, nbMisAllowed, idx);
      if |nodeseq| < |targetSequence| {
        nodeNb := nodeNb + 1;
        idx := idx + 1;
        continue;
      }
      var bestJ;
      terminalNodes, bestJ := ScanContig(nodeNb, nodeseq, targetSequence, nbMisAllowed, nbGapsAllowed, align, terminalNodes);
      if nbGapsAllowed > 0 && bestJ != -1 {
        terminalNodes := terminalNodes + {(nodeNb, bestJ)};
        break;
      }
      nodeNb := nodeNb + 1;
      idx := idx + 1;
    }
    assert bank[..idx] == bank || nbGapsAllowed > 0;
  }

  /** The hits of one more contig extend the hits of the contigs before it. */
  lemma OneMoreContig(bank: seq<string>, anchor: string, misAllowed: int, idx: nat)
    requires idx < |bank|
    ensures UngappedHits(bank[..idx + 1], anchor, misAllowed)
         == UngappedHits(bank[..idx], anchor, misAllowed)
            + (match FirstUngapped(bank[idx], anchor, misAllowed) case Some(j) => {(idx, j as int)} case None => {})
  {
    assert bank[..idx + 1][..idx] == bank[..idx];
  }

  /**
   * The loop over the offsets of one contig at least as long as the anchor.
   * Without a gap budget it adds the contig's first acceptable offset to
   * terminal_nodes and stops there; with one it leaves terminal_nodes alone
   * and returns best_j, the earliest offset of fewest errors, or -1.
   */
  method ScanContig(nodeNb: int, nodeseq: string, targetSequence: string, nbMisAllowed: int, nbGapsAllowed: int,
                    align: (string, string) -> Alignment, terminalNodes: set<(int, int)>)
    returns (terminalNodes': set<(int, int)>, bestJ: int)
    requires |targetSequence| <= |nodeseq|
    ensures nbGapsAllowed <= 0 ==>
              terminalNodes' == terminalNodes
                                + (match FirstUngapped(nodeseq, targetSequence, nbMisAllowed) case Some(j) => {(nodeNb, j as int)} case None => {})
    ensures nbGapsAllowed > 0 ==>
              && terminalNodes' == terminalNodes
              && (bestJ == -1 <==> BestGapped(nodeseq, targetSequence, nbMisAllowed, nbGapsAllowed, align).None?)
              && (bestJ != -1 ==> 0 <= bestJ && BestGapped(nodeseq, targetSequence, nbMisAllowed, nbGapsAllowed, align) == Some(bestJ as nat))
  {
    terminalNodes' := terminalNodes;
    var anchorSize := |targetSequence|;
    var bestErr := NoBestError;
    bestJ := -1;
    var j := 0;
    while j < |nodeseq| - anchorSize + 1
      invariant 0 <= j <= |nodeseq| - anchorSize + 1
      invariant nbGapsAllowed > 0 ==>
                  (bestErr, bestJ) == BestUpTo(nodeseq, targetSequence, nbMisAllowed, nbGapsAllowed, align, j)
      invariant nbGapsAllowed <= 0 ==>
                  && terminalNodes' == terminalNodes
                  && FirstUngapped(nodeseq, targetSequence, nbMisAllowed)
                     == FirstUngappedFrom(nodeseq, targetSequence, nbMisAllowed, j)
    {
      if nbGapsAllowed > 0 {
        var len := if anchorSize + nbGapsAllowed < |nodeseq| - j then anchorSize + nbGapsAllowed else |nodeseq| - j;
        var nodestring := nodeseq[j..j + len];
        var al := align(targetSequence, nodestring);
        var currErr := al.mismatches + al.gaps;
        if al.mismatches <= nbMisAllowed && al.gaps <= nbGapsAllowed && currErr < bestErr {
          bestErr := currErr;
          bestJ := j;
        }
      } else {
        var nbmatch := CountMatches(nodeseq, j, targetSequence);
        if nbmatch >= anchorSize - nbMisAllowed {
          terminalNodes' := terminalNodes' + {(nodeNb, j)};
          return;
        }
      }
      j := j + 1;
    }
  }

  /** The loop over the anchor's bases at offset j: nbmatch counts the identNT agreements. */
  method CountMatches(nodeseq: string, j: nat, targetSequence: string) returns (nbmatch: nat)
    requires j + |targetSequence| <= |nodeseq|
    ensures nbmatch == MatchCount(nodeseq, j, targetSequence, |targetSequence|)
  {
    nbmatch := 0;
    var i := 0;
    while i < |targetSequence|
      invariant 0 <= i <= |targetSequence|
      invariant nbmatch == MatchCount(nodeseq, j, targetSequence, i)
    {
      nbmatch := nbmatch + IdentNT(nodeseq[j + i], targetSequence[i]);
      i := i + 1;
    }
  }
}
