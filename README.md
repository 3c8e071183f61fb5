# MindTheGap core, modelled in Dafny

MindTheGap finds insertion breakpoints in a reference genome and fills them.
It first finds where the reference leaves the de Bruijn graph of the reads,
then assembles the missing sequence between the two anchors. This project
models, and proves properties of, five parts of the repository. Each part is
one Dafny module and lives in one file of this project.

- **Breakpoints** (`find_breakpoints.dfy`) models the class
  `FindBreakpoints` of `include/FindBreakpoints.hpp`. Its `operator()` walks
  the k-mers of every reference record. It tracks the current solid stretch
  (consecutive k-mers the graph contains) and the current gap stretch. It
  remembers the k-mers that flank a gap, and it notifies every registered
  observer on each indexed k-mer.
  - The class keeps the source's fields and mutates them in place.
  - The methods `Step`, `RunRecord` and `Run` are proved against the
    functions `Next`, `ScanRecord` and `RunSpec`.
  - The calls of the observers' `update()` become a ghost log of
    notifications. The log is proved equal to `RecordLog`/`RunLog`.
- **Utils** (`utils.dfy`) models `filled_insertion_t` of `src/Utils.hpp`:
  - its `operator<`, proved a strict order whose equivalence is equality of
    target id and sequence;
  - `reverse()`;
  - the quality ladder of `compute_qual`;
  - the documented contract of `identNT`.
- **Filler** (`filler.dfy`) models parts of `src/Filler.cpp`:
  - the option check and k-mer size dispatch of `execute()`;
  - how `fillBreakpoints()` reads the breakpoint bank two sequences at a
    time. Its resize step computes the cut anchors and discards them, so
    both anchors reach `gapFill` uncut (see Findings). The intended cut is
    modelled beside it;
  - `find_nodes_containing_R`, the search of the right anchor in the
    contigs. It has an ungapped mode (first offset with enough `identNT`
    agreements per contig) and a gapped mode (earliest offset of least
    mismatches + gaps, stopping at the first contig that has one).
- **GenomeGraphs** (`genome_graph.dfy`) models the `GenomeGraph` class of
  `pipeline/genome_graph/genome_graph.py`. Contigs have positive ids, and the
  adjacency key `-id` stands for the reverse complement strand.
  - Every adjacency entry `src -> dst` has its twin `-dst -> -src`.
  - `add_edge`, `rem_edge` and `rem_node` are proved to keep that symmetry.
  - `rem_node` (two sweeps of `rem_edge`, then two pops) is proved to remove
    exactly the entries that mention the contig.
- **Vde** (`vde.dfy`) models `compare` of `test/vde.py`, which scores
  variant calls against a truth set. Each loop of `compare` is a method. The
  table of TP/FP counters is proved equal to the counts of one multiset of
  increments, `Tallies`. That multiset is defined independently of the order
  in which Python visits its sets. Lemmas then characterise the increments of
  each phase.
- `dna.dfy` holds the reverse complement and Python's `str.strip()`.
  `common.dfy` holds `Option`, `Result` and the helpers for loops over sets.

Three behaviours of the code that are easy to misread:

- `kmer_begin` is set to `previous_kmer` at the first missing k-mer after a
  solid run of two or more (include/FindBreakpoints.hpp:137-140, 144). So it
  is the last k-mer the graph contains before the gap, not the last one it
  lacks. `GapClosureAnchors` proves what observers see.
- A lone indexed k-mer inside a gap leaves the gap length standing, so the
  solid and gap counters can both be non-zero (lines 127, 133-135). The
  invariant the code keeps is `Breakpoints.Consistent`.
- `notify()` fires on every indexed k-mer (line 125), not only at the closure
  of a gap. What the observer does with it is outside the engine.

## Model

| member | source | states |
|---|---|---|
| `Breakpoints.FindBreakpoints.constructor` | include/FindBreakpoints.hpp:82-95 | The breakpoint id, position and the three stretch counters start at 0. There is no chromosome sequence and the name is empty. No observer is registered and none has been notified. |
| `Breakpoints.FindBreakpoints.AddObserver` | include/FindBreakpoints.hpp:159-163 | The observer is appended at the end of the list, so registration order is kept. |
| `Breakpoints.FindBreakpoints.Notify` | include/FindBreakpoints.hpp:150-157 | Exactly one update per observer, in registration order, without stopping early. Each update sees the current stretch state, and the earlier log is kept. |
| `Breakpoints.FindBreakpoints.Step` | include/FindBreakpoints.hpp:119-144 | One k-mer moves the state by `Next`. Observers are notified only on an indexed k-mer, and they see the solid run already incremented and nothing else changed. |
| `Breakpoints.FindBreakpoints.RunRecord` | include/FindBreakpoints.hpp:105-146 | A record resets the three counters and then scans its k-mers in order. The notifications are those of `RecordLog` from the reset state. |
| `Breakpoints.FindBreakpoints.Run` | include/FindBreakpoints.hpp:98-148 | The state after all records is `RunSpec` and the notifications are `RunLog`. The member fields `position`, `chrom_sequence` and `chrom_name` are untouched, because the loop shadows them with locals (lines 111-113). |
| `Breakpoints.ScanOneMore` | include/FindBreakpoints.hpp:116-146 | Scanning one more k-mer applies `Next`. It adds one broadcast exactly when that k-mer is indexed. |
| `Breakpoints.RunOneMore` | include/FindBreakpoints.hpp:103-147 | One more record resets the counters and scans that record's k-mers, and adds that record's notifications. |
| `Breakpoints.StepConsistent` | include/FindBreakpoints.hpp:121-143 | One step keeps the counter invariant. A run of two or more has no open gap, a lone indexed k-mer remembers the gap in `previous_gap_stretch_size`, and an empty state remembers nothing. |
| `Breakpoints.ScanConsistent` | include/FindBreakpoints.hpp:116-146 | A whole record scan keeps the counter invariant. |
| `Breakpoints.RunConsistent` | include/FindBreakpoints.hpp:103-147 | After at least one record, the counters satisfy the invariant, whatever state the engine started in. |
| `Breakpoints.CountersIgnoreKmerValues` | include/FindBreakpoints.hpp:121-143 | The counters after a scan depend only on the counters before it and the membership bits, never on k-mer values. |
| `Breakpoints.NoStretchSpansRecords` | include/FindBreakpoints.hpp:103-107 | The counters after a record are those of scanning it alone from a reset state: no stretch is carried across records. |
| `Breakpoints.IndexedKmer` | include/FindBreakpoints.hpp:121-130 | An indexed k-mer grows the solid run by one. Observers see the gap before any reset, and the gap is cleared only once the run exceeds one. `kmer_end` takes the k-mer exactly when it starts a run, and `kmer_begin` is unchanged. |
| `Breakpoints.NonIndexedKmer` | include/FindBreakpoints.hpp:131-143 | A missing k-mer ends the solid run. The gap grows by one, or by two after a lone indexed k-mer, or restarts at 1 after a longer run. In that last case `kmer_begin` becomes the previous k-mer. `kmer_end` is unchanged. |
| `Breakpoints.IsolatedHitIsFolded` | include/FindBreakpoints.hpp:127-135 | A single indexed k-mer inside a gap does not close it. Observers see a solid run of 1, and the next missing k-mer finds the gap two longer with `kmer_begin` unchanged. |
| `Breakpoints.ScanAppend` | include/FindBreakpoints.hpp:116-146 | Scanning `x + y` is scanning `x` and then `y`. |
| `Breakpoints.AllIndexedRecord` | include/FindBreakpoints.hpp:121-130 | In a record whose k-mers are all indexed, the gap stays 0 and the solid run counts every k-mer. Every notification shows a gap of 0. |
| `Breakpoints.NoneIndexedRecord` | include/FindBreakpoints.hpp:131-143 | In a record with no indexed k-mer, the solid run stays 0 and the gap counts every k-mer. No observer is notified. |
| `Breakpoints.GapGrows` | include/FindBreakpoints.hpp:131-143 | Inside a gap, missing k-mers lengthen it one by one and leave `kmer_begin` alone. |
| `Breakpoints.GapClosureAnchors` | include/FindBreakpoints.hpp:121-144 | Take a solid run of two or more, then a gap of g missing k-mers, then indexed k-mers a and b. The observers notified on b see a solid run of 2 and a gap of g. They see `kmer_begin` = the last indexed k-mer before the gap and `kmer_end` = a. |
| `Breakpoints.RecordLogSize` | include/FindBreakpoints.hpp:121-125 | A scan makes (number of observers) × (number of indexed k-mers) notifications. |
| `Breakpoints.NotifiedOnIndexedOnly` | include/FindBreakpoints.hpp:121-125 | Every notification goes to a registered observer and shows a solid run of at least one. |
| `Utils.StringLessIrreflexive` | src/Utils.hpp:75 | No string is before itself under `std::string`'s `<`. |
| `Utils.StringLessTransitive` | src/Utils.hpp:75 | `std::string`'s `<` is transitive. |
| `Utils.StringLessTrichotomy` | src/Utils.hpp:75 | Two strings are ordered one way or the other exactly when they differ, and never both ways. |
| `Utils.BkptLessLexicographic` | src/Utils.hpp:72-73 | The `bkpt_t` pair order compares the id first and the flag only on equal ids. |
| `Utils.KeyLessIsStrictOrder` | src/Utils.hpp:69-76 | `operator<` is irreflexive, asymmetric and transitive. Two insertions are equivalent for `std::set` exactly when target id and sequence are equal. |
| `Utils.Quality` | src/Utils.hpp:85-103 | The quality is one of 50, 25, 15, 10 and 5. |
| `Utils.QualityLadder` | src/Utils.hpp:85-103 | Each quality holds exactly for its inputs. Two anchor errors give 5 and one gives 10, overriding everything else. Otherwise more than one solution gives 15, else a repeated anchor gives 25, else 50. |
| `Utils.IdentNTContract` | src/Utils.hpp:109-112 | The result is 0 or 1, symmetric and case-blind. It is 0 as soon as either base is N (N against N included), and otherwise 1 exactly when the bases agree up to case. |
| `Utils.FilledInsertion.WithTarget` | src/Utils.hpp:50-52 | The sequence, error count and target id are those given, and `solution_count` is not yet set. |
| `Utils.FilledInsertion.constructor` | src/Utils.hpp:53-55 | The sequence and error count are those given. The target id is value-initialised to ("", false), and `solution_count` is not yet set. |
| `Utils.FilledInsertion.SetSolutionCount` | src/Utils.hpp:66 | A caller's assignment to the public member `solution_count`. |
| `Utils.FilledInsertion.Reverse` | src/Utils.hpp:78-83 | The sequence becomes its reverse complement and nothing else changes. |
| `Utils.FilledInsertion.ComputeQual` | src/Utils.hpp:85-103 | Only `qual` changes, and it becomes the ladder's quality for the anchor flag, solution count and error count. |
| `Utils.ReverseTwice` | src/Utils.hpp:78-83 | Calling `reverse()` twice restores the sequence. |
| `Dna.ReverseComplementAt` | src/Filler.cpp:245-246 | Position k of the reverse complement is the complement of position \|s\|-1-k. |
| `Dna.ReverseComplementInvolution` | pipeline/genome_graph/genome_graph.py:94-95 | Taking the reverse complement twice gives the string back. |
| `Dna.StripIsSlice` | pipeline/genome_graph/genome_graph.py:95-97 | `strip()` keeps a slice whose removed prefix and suffix are all whitespace, with no whitespace left at either end. Stripping again changes nothing. |
| `Filler.KmerSpanIsSmallestAbove` | src/Filler.cpp:150-154 | The dispatch picks the smallest compiled span above k and fails from `KSIZE_4` on with the k-mer size in the error. |
| `Filler.ExecuteChecksOptionsFirst` | src/Filler.cpp:80-154 | Exactly one of `-graph` and `-in` must be given, and this is checked first. The k-mer size comes from the option with `-in` and from the graph otherwise. Execution succeeds exactly when that size is below `KSIZE_4`. |
| `Filler.ResizeAsWrittenIsNoOp` | src/Filler.cpp:233-239 | As written, the resize returns both anchors unchanged whatever their length (see Findings). |
| `Filler.ResizeAsWrittenKeepsLongSource` | src/Filler.cpp:233-239 | As written, 32-base anchors with k = 31 reach `gapFill` with 32 bases, where the intended resize gives 31. |
| `Filler.SourceAnchor` | src/Filler.cpp:234-236 | The source anchor is the source's suffix of `kmerSize` bases when it is longer, and the whole source otherwise. |
| `Filler.TargetAnchor` | src/Filler.cpp:237-239 | The target anchor is the target's prefix of `kmerSize` bases when it is longer, and the whole target otherwise. |
| `Filler.ReverseInputInvolution` | src/Filler.cpp:244-247 | The reverse attempt's inputs are the reverse complements, swapped. Doing the reversal twice gives the breakpoint back. |
| `Filler.FillBreakpoints` | src/Filler.cpp:207-241 | The bank is read as (source, target) pairs in order. Each complete pair becomes one `gapFill` input exactly as read: the resize result is discarded, so nothing is cut. An odd count gives the "odd number of sequences" error, after the complete pairs. |
| `Filler.FillBreakpointsIntended` | src/Filler.cpp:207-241 | The same pairs and the same error as `FillBreakpoints`, but each input carries the anchors the resize step intends: the source's last and the target's first `kmerSize` bases (the corrected half of the Findings row). |
| `Filler.MatchCount` | src/Filler.cpp:446-449 | `nbmatch` after n bases is the number of offsets i < n at which `identNT(node[j+i], anchor[i])` is 1. So it is at most n. |
| `Filler.ExactMatchCount` | src/Filler.cpp:446-450 | With no mismatch allowed, the anchor is seen at j exactly when every base agrees by `identNT`. |
| `Filler.FirstUngappedFromSpec` | src/Filler.cpp:412-458 | The ungapped scan from offset j stops at the first offset whose `identNT` agreements reach \|anchor\| - mismatches, and finds none exactly when no offset qualifies. |
| `Filler.FirstUngappedSpec` | src/Filler.cpp:395-458 | For one contig, the reported offset leaves room for the whole anchor, qualifies, and has no qualifying offset before it. Nothing is reported exactly when no offset qualifies. |
| `Filler.UngappedHitsSpec` | src/Filler.cpp:393-470 | Without a gap budget, (i, j) is reported exactly when i is a contig's 0-based index and j its first qualifying offset. There is at most one pair per contig, and it fits in the contig. |
| `Filler.BestUpTo` | src/Filler.cpp:408-443 | `best_j` stays -1 or one of the offsets tried. |
| `Filler.BestUpToSpec` | src/Filler.cpp:408-443 | After offsets 0..n-1, `best_j` is -1 exactly when none is within both budgets (then `best_err` keeps its initial value). Otherwise it is a qualifying offset with the least mismatches + gaps and no earlier offset as good. |
| `Filler.BestGappedSpec` | src/Filler.cpp:395-443 | For one contig, the gapped search keeps the earliest offset of minimal errors among those within both budgets, or nothing exactly when none is. |
| `Filler.FirstGappedFromSpec` | src/Filler.cpp:461-469 | The gapped search stops at the first contig with a kept offset, and no earlier contig had one. |
| `Filler.FindNodesContainingR` | src/Filler.cpp:373-480 | Short contigs are skipped. Without a gap budget the result is every contig's first qualifying offset. With one, it is the single pair of the first contig with a kept offset, or empty. |
| `Filler.OneMoreContig` | src/Filler.cpp:393-470 | The ungapped pairs of one more contig are those of the contigs before it plus that contig's own. |
| `Filler.ScanContig` | src/Filler.cpp:408-459 | For one contig at least as long as the anchor, the j loop adds the ungapped offset when there is one. In gapped mode it returns `best_j`, which is -1 exactly when the gapped search keeps nothing and is the kept offset otherwise. |
| `Filler.CountMatches` | src/Filler.cpp:446-449 | The inner loop's `nbmatch` is the number of `identNT` agreements between the anchor and the contig at j. |
| `GenomeGraphs.NodeEq` | pipeline/genome_graph/genome_graph.py:25-28 | Two nodes are equal exactly when sequence and name both are. |
| `GenomeGraphs.EntriesOfAdd` | pipeline/genome_graph/genome_graph.py:65-66 | `edges[s].add(d)` adds exactly the entry (s, d). |
| `GenomeGraphs.EntriesOfDiscard` | pipeline/genome_graph/genome_graph.py:70-73 | A removal takes out exactly the entry (s, d). |
| `GenomeGraphs.EntriesOfRemoveTwins` | pipeline/genome_graph/genome_graph.py:68-73 | `rem_edge` keeps the keys. It takes out the entry and its twin when the entry is there, and changes nothing otherwise. |
| `GenomeGraphs.EntriesOfStrip` | pipeline/genome_graph/genome_graph.py:75-88 | What `rem_node` leaves has the keys minus ±id and exactly the entries not mentioning the contig. |
| `GenomeGraphs.AddTwinsKeepsSymmetry` | pipeline/genome_graph/genome_graph.py:64-66 | On a symmetric map, `add_edge` adds an entry and its twin and stays symmetric. |
| `GenomeGraphs.RemoveTwinsKeepsSymmetry` | pipeline/genome_graph/genome_graph.py:68-73 | `rem_edge` keeps a symmetric map symmetric. |
| `GenomeGraphs.StripKeepsSymmetry` | pipeline/genome_graph/genome_graph.py:75-88 | `rem_node`'s result is symmetric when the graph was. |
| `GenomeGraphs.SweepRemovesOneNodeStrand` | pipeline/genome_graph/genome_graph.py:81-85 | One sweep removes exactly the entries leaving strand -a or entering strand a. |
| `GenomeGraphs.SweepStep` | pipeline/genome_graph/genome_graph.py:81-85 | One `rem_edge(-n, a)` of a sweep keeps the keys and symmetry, and removes the pair of entries for n. |
| `GenomeGraphs.TwoSweepsStrip` | pipeline/genome_graph/genome_graph.py:81-88 | The two sweeps followed by the two pops give exactly the stripped map. |
| `GenomeGraphs.TwoSweepsEntries` | pipeline/genome_graph/genome_graph.py:81-85 | After both sweeps the entries left are those not mentioning the contig. |
| `GenomeGraphs.DropBothStrands` | pipeline/genome_graph/genome_graph.py:81-85 | The first sweep drops one strand's entries and the second the other's. Together they drop every entry touching the contig. |
| `GenomeGraphs.PopBothKeys` | pipeline/genome_graph/genome_graph.py:87-88 | Popping both keys from a map whose entries avoid the contig gives the stripped map. |
| `GenomeGraphs.StripValidIff` | pipeline/genome_graph/genome_graph.py:75-88 | After `rem_node` the graph is valid exactly when the id removed was positive. |
| `GenomeGraphs.WholeEdgeCount` | pipeline/genome_graph/genome_graph.py:46-47 | The entries of a symmetric graph with no link to a contig's own reverse complement come in pairs. |
| `GenomeGraphs.KeysPerNode` | pipeline/genome_graph/genome_graph.py:56-62 | A valid graph has two adjacency keys per node. |
| `GenomeGraphs.NodeSeqStrands` | pipeline/genome_graph/genome_graph.py:93-98 | A positive id gives the stripped sequence, and its negation gives the reverse complement of that. |
| `GenomeGraphs.MaxKey` | pipeline/genome_graph/genome_graph.py:57 | `max()` of the ids returns an id no smaller than any other. |
| `GenomeGraphs.NextId` | pipeline/genome_graph/genome_graph.py:56-59 | The new id is fresh: 1 in an empty graph, otherwise one more than the largest id. |
| `GenomeGraphs.AddNodeKeepsValid` | pipeline/genome_graph/genome_graph.py:49-62 | The new id is positive. Adding the node with two empty strands keeps the graph valid, adds no entry and adds one node. |
| `GenomeGraphs.AddNodeKeysMatch` | pipeline/genome_graph/genome_graph.py:56-62 | Neither strand of the fresh id is a key yet, and after adding both the node ids and keys still match. |
| `GenomeGraphs.GenomeGraph.constructor` | pipeline/genome_graph/genome_graph.py:38-41 | An empty graph, which is valid. |
| `GenomeGraphs.GenomeGraph.NNodes` | pipeline/genome_graph/genome_graph.py:43-44 | In a valid graph the node count is half the number of adjacency keys. |
| `GenomeGraphs.GenomeGraph.NEdges` | pipeline/genome_graph/genome_graph.py:46-47 | Twice the result is the number of adjacency entries. It is the whole number of links unless some contig links to its own reverse complement. |
| `GenomeGraphs.GenomeGraph.AddNode` | pipeline/genome_graph/genome_graph.py:49-62 | A duplicate is reported but still added, under the fresh id with two empty strands. A valid graph stays valid with the same entries. |
| `GenomeGraphs.GenomeGraph.AddEdge` | pipeline/genome_graph/genome_graph.py:64-66 | It succeeds exactly when src and -dst are keys. A missing src changes nothing, and a missing -dst keeps the first insertion. On success the entry and its twin are added and validity is kept. |
| `GenomeGraphs.GenomeGraph.RemEdge` | pipeline/genome_graph/genome_graph.py:68-73 | Keys are kept. The entry and its twin go when the entry is there, nothing changes otherwise, and symmetry is kept. |
| `GenomeGraphs.GenomeGraph.RemNode` | pipeline/genome_graph/genome_graph.py:75-88 | It fails with nothing changed exactly when the id has no adjacency. Otherwise the node is popped and exactly the entries mentioning it go. The graph stays valid exactly when the id was positive. |
| `GenomeGraphs.GenomeGraph.Sweep` | pipeline/genome_graph/genome_graph.py:81-85 | A loop of `rem_edge(-n, a)` over a copy of `edges[-a]` keeps the keys and symmetry, and removes exactly the pairs for those n. |
| `Vde.VariantEq` | test/vde.py:21-28 | Two calls are equal exactly when type and comment both are. |
| `Vde.BumpRaisesOneCounter` | test/vde.py:109-119 | One `+= 1` raises exactly one counter of one type by one, starting from 0 for a type never seen, and leaves every other type alone. |
| `Vde.BumpCounts` | test/vde.py:109-148 | Applying an increment to the table is adding it to the multiset of increments the table counts. |
| `Vde.BumpCountsAt` | test/vde.py:109 | The counters of each type after one more increment match the multiset's counts. |
| `Vde.SumOverRemove` | test/vde.py:114 | The increments of a loop over a set do not depend on the order it is visited in. |
| `Vde.SumStep` | test/vde.py:114-148 | One iteration of a loop over positions adds that position's increments to those so far. |
| `Vde.FPsSpec` | test/vde.py:147-148 | The loop over a set of calls makes one FP per call and nothing else. |
| `Vde.Judge` | test/vde.py:115-119 | A call at a position the truth also has is counted under its own type, as TP exactly when the truth list there holds it. |
| `Vde.ExactTalliesSize` | test/vde.py:115-119 | Every call at an exact position adds exactly one increment. |
| `Vde.ExactTalliesSpec` | test/vde.py:115-119 | The increments at an exact position are exactly the judgements of its calls. |
| `Vde.ScanCallsMiss` | test/vde.py:125-142 | The scan over a position's calls adds nothing exactly when no call is a SNP type and none is in the truth list there. |
| `Vde.ScanCallsHit` | test/vde.py:125-142 | A scan that stops does so at the first SNP-typed or truth call: FP for a SNP type (checked first), TP otherwise. |
| `Vde.ScanWindowSpec` | test/vde.py:124-144 | The window scan misses exactly when every position in the window misses. A hit comes from the first position that hits. |
| `Vde.FuzzyPositionTotal` | test/vde.py:121-148 | An experiment-only position adds one increment when its window scan stops. Otherwise it adds one FP per distinct call there. |
| `Vde.Increment` | test/vde.py:117-119 | One `+= 1` on the table is recorded as one more increment. |
| `Vde.Compare` | test/vde.py:105-150 | The table holds, per type, as many TPs and FPs as `Tallies` lists: the exact positions, the window hits, then the positions left not found. |
| `Vde.ExactPositions` | test/vde.py:114-119 | The loop over the shared positions adds the exact increments of all of them. |
| `Vde.ExactStep` | test/vde.py:114-119 | One shared position adds its exact increments. |
| `Vde.FuzzyPositions` | test/vde.py:121-144 | The loop over experiment-only positions adds their window increments. It leaves `not_found` holding exactly the positions whose window scan missed. |
| `Vde.FuzzyDone` | test/vde.py:121-144 | After the loop every position has been visited, and `not_found` holds the missed ones. |
| `Vde.MoveDone` | test/vde.py:128-140 | A visited position leaves `not_found` exactly when its scan hit. |
| `Vde.FuzzyStep` | test/vde.py:122-144 | One iteration visits one new position, adds its window increment and updates `not_found`. |
| `Vde.WindowStep` | test/vde.py:123-144 | The window scan of one position adds its increment and reports a hit exactly when it did not miss. |
| `Vde.WindowOutcome` | test/vde.py:123-144 | The position is missed exactly when the scan finds nothing. A hit adds exactly the scan's increment, and a miss adds nothing. |
| `Vde.NotFoundPositions` | test/vde.py:146-148 | The loop over `not_found` adds one FP per distinct call of each position. |
| `Vde.LeftoverStep` | test/vde.py:146-148 | One position left not found adds its FPs. |
| `Vde.ExactPosition` | test/vde.py:115-119 | The loop over a shared position's calls adds their judgements, in order. |
| `Vde.FuzzyPosition` | test/vde.py:123-144 | The window loop stops at the first increment (the `end` flag) and adds exactly the window scan's result. |
| `Vde.LeftoverPosition` | test/vde.py:147-148 | The loop over `set(exp[pos])` adds one FP per distinct call. |
| `Vde.MtgToEvaTable` | test/vde.py:180-185 | `mtg2eva` is defined on exactly the six tags and maps distinct tags to distinct types. Only SNP and MSNP become the types the window scan counts as FP on sight. |

## Left out

- The de Bruijn graph (GATB) is not modelled. Its `contains` answer arrives as a membership bit with each k-mer, and k-mer values are an opaque type.
- The FASTA bank iterators (`BankFasta`, `KmerIterator`) are not modelled. Records, contigs and breakpoint sequences are sequences of strings.
- The uint64 counters of `FindBreakpoints` are unbounded naturals. No record reaches 2^64 k-mers, so wrap-around is not modelled.
- What an observer's `update()` does (the gap and SNP finders) is not modelled. Each call is an entry in a ghost log carrying the state the observer can read.
- The uninitialised `kmer_begin`, `kmer_end` and `previous_kmer` of a fresh `FindBreakpoints` are left unconstrained by the constructor.
- Utils.FilledInsertion.ComputeQual requires that `solution_count` was assigned, because neither constructor initialises it and reading it before that is undefined.
- The float fields `avg_coverage` and `median_coverage` of `filled_insertion_t` are left out.
- `revcomp_sequence` and `reverse_complement` are not part of this model. They are taken to complement A/T and C/G in either case and to keep every other character.
- `identNT` is only declared in src/Utils.hpp. Its documented contract is modelled.
- `KSIZE_1` to `KSIZE_4` are defined by the build, not by the source. The library defaults 32, 64, 96 and 128 are used.
- `gapFill`, the assembly, the output files, the statistics of `execute()` and the date-time output prefix are outside this model.
- `needleman_wunsch` is a function parameter returning its match, mismatch and gap counts.
- `print` diagnostics and debug output are left out. In `add_node` the duplicate warning becomes the `duplicate` result.
- `read_gfa`, `pop_bubble`, `compare_nodes` and the other pipeline scripts are not part of this model.
- The file readers (`eva2eva`, `breakpoints2eva`), `main` and the recall/precision printing of test/vde.py are not modelled.
- Vde.Compare: the defaultdict lookup `truth[pos]` in the window loop inserts an empty list into the caller's truth table. That insertion is not modelled, because `compare` never reads the table's keys again after taking `tru_pos`.
- Python's set and dict iteration order is not modelled. Every loop over a set picks an arbitrary element, and the results are proved independent of the order.
- GenomeGraphs.GenomeGraph.RemNode requires a valid graph. On an arbitrary map of adjacency sets, the partial effects of a `KeyError` raised midway through a sweep are not modelled.
- GenomeGraphs.GenomeGraph.NEdges returns a real, the result of Python 3's true division. Under Python 2's floor division it is the same number whenever the count is even, which `WholeEdgeCount` gives for graphs without self-reverse links.
- Python's `str.strip()` is modelled for the ASCII and Unicode whitespace that `str.isspace()` accepts, on code points. Byte strings and encodings are not modelled.

## Findings

| source | as written | input that shows it | evidently intended | confidence | as-written member | corrected member |
|---|---|---|---|---|---|---|
| src/Filler.cpp:233-239 | `substr` is called on the source and the target, and its result is discarded. Both anchors reach `gapFill` at full length. | A 32-base source and target with a k-mer size of 31: as written both stay 32 bases long. | The source is cut to its last k bases and the target to its first k bases. | high, not executed | `Filler.ResizeAsWrittenKeepsLongSource` | `Filler.FillBreakpointsIntended` |
