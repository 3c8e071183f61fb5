/**
 * The breakpoint finder of include/FindBreakpoints.hpp: a scan over the
 * k-mers of every reference record that tracks the current run of k-mers
 * the de Bruijn graph contains ("solid stretch") and the current run of
 * k-mers it does not contain ("gap stretch"), remembers the k-mers that
 * flank a gap, and notifies every registered observer on each indexed k-mer.
 *
 * The graph is an oracle: each k-mer arrives with its membership bit.
 * K-mer values are opaque (type parameter K).  An observer's update() is
 * recorded as one Notification in a ghost log, carrying the stretch state
 * the observer can read at that moment.
 */
module Breakpoints {
  import opened Common

  /** One k-mer of a record: its forward value and whether the graph contains it. */
  datatype KmerObs<K> = KmerObs(forward: K, indexed: bool)

  /** One reference record: its comment, its bases and the k-mers of those bases. */
  datatype Record<K> = Record(name: string, data: string, kmers: seq<KmerObs<K>>)

  /** The fields the scan updates (solid_stretch_size, gap_stretch_size, ...). */
  datatype Stretch<K> = Stretch(
    solid: nat,
    gap: nat,
    prevGap: nat,
    kmerBegin: K,
    kmerEnd: K,
    previousKmer: K)

  type ObserverId = nat

  /** One call of update() on one observer, with the state it sees. */
  datatype Notification<K> = Notification(observer: ObserverId, seen: Stretch<K>)

  // ---------------------------------------------------------------------
  // Specification of the scan
  // ---------------------------------------------------------------------

  /** The reset done at the start of every record. */
  function Reset<K>(s: Stretch<K>): Stretch<K>
  {
    s.(solid := 0, gap := 0, prevGap := 0)
  }

  /** The state notify() exposes on an indexed k-mer: the solid run already incremented, nothing else yet. */
  function Seen<K>(s: Stretch<K>): Stretch<K>
  {
    s.(solid := s.solid + 1)
  }

  /** One iteration of the inner loop of operator(). */
  function Next<K>(s: Stretch<K>, k: KmerObs<K>): Stretch<K>
  {
    if k.indexed then
      var solid := s.solid + 1;
      var gap := if solid > 1 then 0 else s.gap;
      var kmerEnd := if solid == 1 then k.forward else s.kmerEnd;
      var prevGap := if gap != 0 then gap else s.prevGap;
      Stretch(solid, gap, prevGap, s.kmerBegin, kmerEnd, k.forward)
    else
      var gap := if s.solid == 1 then s.prevGap + s.solid else s.gap;
      var kmerBegin := if s.solid > 1 then s.previousKmer else s.kmerBegin;
      Stretch(0, gap + 1, s.prevGap, kmerBegin, s.kmerEnd, k.forward)
  }

  /** The state after scanning the k-mers kms from s. */
  function ScanRecord<K>(s: Stretch<K>, kms: seq<KmerObs<K>>): Stretch<K>
  {
    if |kms| == 0 then s else Next(ScanRecord(s, kms[..|kms| - 1]), kms[|kms| - 1])
  }

  /** One notification per observer, in registration order. */
  function Broadcast<K>(observers: seq<ObserverId>, seen: Stretch<K>): (r: seq<Notification<K>>)
  {
    seq(|observers|, i requires 0 <= i < |observers| => Notification(observers[i], seen))
  }

  /** Everything the observers receive while kms is scanned from s. */
  function RecordLog<K>(s: Stretch<K>, observers: seq<ObserverId>, kms: seq<KmerObs<K>>): seq<Notification<K>>
  {
    if |kms| == 0 then []
    else
      var before := kms[..|kms| - 1];
      RecordLog(s, observers, before)
      + (if kms[|kms| - 1].indexed then Broadcast(observers, Seen(ScanRecord(s, before))) else [])
  }

  /** The state after operator() has gone through the records rs from s. */
  function RunSpec<K>(s: Stretch<K>, rs: seq<Record<K>>): Stretch<K>
  {
    if |rs| == 0 then s
    else ScanRecord(Reset(RunSpec(s, rs[..|rs| - 1])), rs[|rs| - 1].kmers)
  }

  /** Everything the observers receive while operator() goes through rs. */
  function RunLog<K>(s: Stretch<K>, observers: seq<ObserverId>, rs: seq<Record<K>>): seq<Notification<K>>
  {
    if |rs| == 0 then []
    else
      var before := rs[..|rs| - 1];
      RunLog(s, observers, before) + RecordLog(Reset(RunSpec(s, before)), observers, rs[|rs| - 1].kmers)
  }

  // ---------------------------------------------------------------------
  // The engine
  // ---------------------------------------------------------------------

  class FindBreakpoints<K(0)> {
    var breakpointId: nat
    var position: nat
    var chromSequence: Option<string>
    var chromName: string

    var kmerBegin: K
    var kmerEnd: K
    var previousKmer: K

    var solidStretchSize: nat
    var gapStretchSize: nat
    var previousGapStretchSize: nat

    /** list_obs, in registration order. */
    var observers: seq<ObserverId>
    /** The calls of update() made so far. */
    ghost var log: seq<Notification<K>>

    function State(): Stretch<K>
      reads this
    {
      Stretch(solidStretchSize, gapStretchSize, previousGapStretchSize, kmerBegin, kmerEnd, previousKmer)
    }

    /** The k-mer fields are left uninitialised by the source, so nothing is promised about them. */
    constructor ()
      ensures breakpointId == 0 && position == 0 && chromSequence == None && chromName == ""
      ensures solidStretchSize == 0 && gapStretchSize == 0 && previousGapStretchSize == 0
      ensures observers == [] && log == []
    {
      breakpointId := 0;
      position := 0;
      chromSequence := None;
      chromName := "";
      solidStretchSize := 0;
      gapStretchSize := 0;
      previousGapStretchSize := 0;
      observers := [];
      log := [];
    }

    method AddObserver(o: ObserverId)
      modifies this`observers
      ensures observers == old(observers) + [o]
    {
      observers := observers + [o];
    }

    /** Calls update() on every observer, in registration order, without stopping early. */
    method Notify()
      modifies this`log
      ensures |log| == |old(log)| + |observers|
      ensures log[..|old(log)|] == old(log)
      ensures forall i :: 0 <= i < |observers| ==> log[|old(log)| + i] == Notification(observers[i], State())
      ensures log == old(log) + Broadcast(observers, State())
    {
      var i := 0;
      while i < |observers|
        invariant 0 <= i <= |observers|
        invariant log == old(log) + Broadcast(observers[..i], State())
      {
        log := log + [Notification(observers[i], State())];
        assert Broadcast(observers[..i + 1], State()) == Broadcast(observers[..i], State()) + [Notification(observers[i], State())];
        i := i + 1;
      }
      assert observers[..i] == observers;
    }

    /** The body of the inner loop of operator() for the k-mer k. */
    method Step(k: KmerObs<K>)
      modifies this`solidStretchSize, this`gapStretchSize, this`previousGapStretchSize
      modifies this`kmerBegin, this`kmerEnd, this`previousKmer, this`log
      ensures State() == Next(old(State()), k)
      ensures log == old(log) + (if k.indexed then Broadcast(observers, Seen(old(State()))) else [])
    {
      if k.indexed {
        solidStretchSize := solidStretchSize + 1;
        Notify();
        if solidStretchSize > 1 {
          gapStretchSize := 0;
        }
        if solidStretchSize == 1 {
          kmerEnd := k.forward;
        }
        if gapStretchSize != 0 {
          previousGapStretchSize := gapStretchSize;
        }
      } else {
        if solidStretchSize == 1 {
          gapStretchSize := previousGapStretchSize + solidStretchSize;
        }
        if solidStretchSize > 1 {
          kmerBegin := previousKmer;
        }
        gapStretchSize := gapStretchSize + 1;
        solidStretchSize := 0;
      }
      previousKmer := k.forward;
    }

    /**
     * operator(): every record restarts the three counters; the record's
     * bases, comment and k-mer position live in locals that shadow the
     * members of the same name, so those members keep their values.
     */
    method Run(records: seq<Record<K>>)
      modifies this`solidStretchSize, this`gapStretchSize, this`previousGapStretchSize
      modifies this`kmerBegin, this`kmerEnd, this`previousKmer, this`log
      ensures State() == RunSpec(old(State()), records)
      ensures log == old(log) + RunLog(old(State()), observers, records)
      ensures position == old(position) && chromSequence == old(chromSequence) && chromName == old(chromName)
    {
      ghost var start, log0 := State(), log;
      var r := 0;
      while r < |records|
        invariant 0 <= r <= |records|
        invariant State() == RunSpec(start, records[..r])
        invariant log == log0 + RunLog(start, observers, records[..r])
      {
        RunRecord(records[r]);
        RunOneMore(start, observers, records, r);
        r := r + 1;
      }
      assert records[..r] == records;
    }

    /**
     * One iteration of the outer loop of operator(): the counters restart
     * and every k-mer of the record goes through the inner loop. The locals
     * for the record's bases, comment and position are not members.
     */
    method RunRecord(record: Record<K>)
      modifies this`solidStretchSize, this`gapStretchSize, this`previousGapStretchSize
      modifies this`kmerBegin, this`kmerEnd, this`previousKmer, this`log
      ensures State() == ScanRecord(Reset(old(State())), record.kmers)
      ensures log == old(log) + RecordLog(Reset(old(State())), observers, record.kmers)
    {
      solidStretchSize := 0;
      gapStretchSize := 0;
      previousGapStretchSize := 0;
      var chromSequence := record.data;
      var chromName := record.name;
      var position := 0;
      var kms := record.kmers;
      ghost var start, log0 := State(), log;
      var j := 0;
      while j < |kms|
        invariant 0 <= j <= |kms|
        invariant State() == ScanRecord(start, kms[..j])
        invariant log == log0 + RecordLog(start, observers, kms[..j])
      {
        ScanOneMore(start, observers, kms, j);
        Step(kms[j]);
        j := j + 1;
        position := position + 1;
      }
      assert kms[..j] == kms;
    }
  }

  /** Scanning one more k-mer applies Next to the state and adds the broadcast of an indexed k-mer. */
  lemma ScanOneMore<K>(s: Stretch<K>, observers: seq<ObserverId>, kms: seq<KmerObs<K>>, j: nat)
    requires j < |kms|
    ensures ScanRecord(s, kms[..j + 1]) == Next(ScanRecord(s, kms[..j]), kms[j])
    ensures RecordLog(s, observers, kms[..j + 1])
         == RecordLog(s, observers, kms[..j]) + (if kms[j].indexed then Broadcast(observers, Seen(ScanRecord(s, kms[..j]))) else [])
  {
    assert kms[..j + 1][..j] == kms[..j];
  }

  /** Going through one more record extends the state and the notifications by that record's scan. */
  lemma RunOneMore<K>(s: Stretch<K>, observers: seq<ObserverId>, records: seq<Record<K>>, r: nat)
    requires r < |records|
    ensures RunSpec(s, records[..r + 1]) == ScanRecord(Reset(RunSpec(s, records[..r])), records[r].kmers)
    ensures RunLog(s, observers, records[..r + 1])
         == RunLog(s, observers, records[..r]) + RecordLog(Reset(RunSpec(s, records[..r])), observers, records[r].kmers)
  {
    assert records[..r + 1][..r] == records[..r];
  }

  // ---------------------------------------------------------------------
  // Properties of the scan
  // ---------------------------------------------------------------------

  /**
   * The relation the counters keep inside a record: a run of two or more
   * indexed k-mers has no open gap, a lone indexed k-mer remembers the gap
   * it interrupts in prevGap, and an empty state has nothing remembered.
   */
  ghost predicate Consistent<K>(s: Stretch<K>)
  {
    && (s.solid >= 2 ==> s.gap == 0)
    && (s.solid == 1 ==> s.prevGap == s.gap)
    && (s.solid == 0 && s.gap == 0 ==> s.prevGap == 0)
  }

  function Counters<K>(s: Stretch<K>): (nat, nat, nat)
  {
    (s.solid, s.gap, s.prevGap)
  }

  lemma StepConsistent<K>(s: Stretch<K>, k: KmerObs<K>)
    requires Consistent(s)
    ensures Consistent(Next(s, k))
  {
  }

  lemma {:induction false} ScanConsistent<K>(s: Stretch<K>, kms: seq<KmerObs<K>>)
    requires Consistent(s)
    ensures Consistent(ScanRecord(s, kms))
  {
    if |kms| > 0 {
      ScanConsistent(s, kms[..|kms| - 1]);
      StepConsistent(ScanRecord(s, kms[..|kms| - 1]), kms[|kms| - 1]);
    }
  }

  /** After operator() has seen at least one record, the counters are consistent. */
  lemma RunConsistent<K>(s: Stretch<K>, rs: seq<Record<K>>)
    requires |rs| > 0
    ensures Consistent(RunSpec(s, rs))
  {
    ScanConsistent(Reset(RunSpec(s, rs[..|rs| - 1])), rs[|rs| - 1].kmers);
  }

  /** The counters after a scan depend only on the counters before it, never on k-mer values. */
  lemma {:induction false} CountersIgnoreKmerValues<K>(a: Stretch<K>, b: Stretch<K>, kms: seq<KmerObs<K>>)
    requires Counters(a) == Counters(b)
    ensures Counters(ScanRecord(a, kms)) == Counters(ScanRecord(b, kms))
  {
    if |kms| > 0 {
      CountersIgnoreKmerValues(a, b, kms[..|kms| - 1]);
    }
  }

  /**
   * No stretch spans two records: the counters after a record are those of
   * scanning that record alone from a reset state, whatever came before.
   */
  lemma NoStretchSpansRecords<K>(s: Stretch<K>, rs: seq<Record<K>>, r: Record<K>, t: Stretch<K>)
    ensures Counters(RunSpec(s, rs + [r])) == Counters(ScanRecord(Reset(t), r.kmers))
  {
    assert (rs + [r])[..|rs|] == rs;
    CountersIgnoreKmerValues(Reset(RunSpec(s, rs)), Reset(t), r.kmers);
  }

  /**
   * An indexed k-mer: the solid run grows by one and observers see the gap
   * before any reset; the gap is cleared only once the run is longer than
   * one; kmerEnd takes the k-mer exactly when it starts a run.
   */
  lemma IndexedKmer<K>(s: Stretch<K>, k: KmerObs<K>)
    requires k.indexed
    ensures Next(s, k).solid == s.solid + 1
    ensures Seen(s).gap == s.gap && Seen(s).solid == s.solid + 1
    ensures s.solid == 0 ==> Next(s, k).gap == s.gap
    ensures s.solid >= 1 ==> Next(s, k).gap == 0
    ensures Next(s, k).kmerEnd == (if s.solid == 0 then k.forward else s.kmerEnd)
    ensures Next(s, k).kmerBegin == s.kmerBegin
  {
  }

  /**
   * A k-mer the graph lacks: the solid run ends and the gap grows; after a
   * lone indexed k-mer that k-mer is counted into the gap as well, and after
   * a run of two or more the new gap starts with the run's last k-mer as
   * kmerBegin.
   */
  lemma NonIndexedKmer<K>(s: Stretch<K>, k: KmerObs<K>)
    requires Consistent(s) && !k.indexed
    ensures Next(s, k).solid == 0
    ensures Next(s, k).gap == (if s.solid == 1 then s.gap + 2 else if s.solid >= 2 then 1 else s.gap + 1)
    ensures Next(s, k).kmerBegin == (if s.solid >= 2 then s.previousKmer else s.kmerBegin)
    ensures Next(s, k).kmerEnd == s.kmerEnd
  {
  }

  /**
   * A single indexed k-mer inside a gap does not close it: observers see a
   * solid run of one, and the next missing k-mer finds the gap two longer.
   */
  lemma IsolatedHitIsFolded<K>(s: Stretch<K>, x: KmerObs<K>, y: KmerObs<K>)
    requires Consistent(s) && s.solid == 0
    requires x.indexed && !y.indexed
    ensures Seen(s).solid == 1
    ensures Next(s, x).gap == s.gap
    ensures Next(Next(s, x), y).gap == s.gap + 2 && Next(Next(s, x), y).solid == 0
    ensures Next(Next(s, x), y).kmerBegin == s.kmerBegin
  {
    IndexedKmer(s, x);
    StepConsistent(s, x);
    NonIndexedKmer(Next(s, x), y);
  }

  lemma {:induction false} ScanAppend<K>(s: Stretch<K>, x: seq<KmerObs<K>>, y: seq<KmerObs<K>>)
    ensures ScanRecord(s, x + y) == ScanRecord(ScanRecord(s, x), y)
  {
    if |y| == 0 {
      assert x + y == x;
    } else {
      var y' := y[..|y| - 1];
      assert (x + y)[..|x + y| - 1] == x + y';
      ScanAppend(s, x, y');
    }
  }

  predicate AllIndexed<K>(kms: seq<KmerObs<K>>)
  {
    forall i :: 0 <= i < |kms| ==> kms[i].indexed
  }

  predicate NoneIndexed<K>(kms: seq<KmerObs<K>>)
  {
    forall i :: 0 <= i < |kms| ==> !kms[i].indexed
  }

  /**
   * A record whose k-mers are all in the graph never opens a gap: the gap
   * stays 0, the solid run counts every k-mer, and every notification
   * shows a gap of 0.
   */
  lemma {:induction false} AllIndexedRecord<K>(s: Stretch<K>, observers: seq<ObserverId>, kms: seq<KmerObs<K>>)
    requires AllIndexed(kms)
    ensures ScanRecord(Reset(s), kms).gap == 0
    ensures ScanRecord(Reset(s), kms).solid == |kms|
    ensures forall n :: n in RecordLog(Reset(s), observers, kms) ==> n.seen.gap == 0
  {
    if |kms| > 0 {
      AllIndexedRecord(s, observers, kms[..|kms| - 1]);
    }
  }

  /**
   * A record whose k-mers are all missing from the graph is one growing
   * gap: the solid run stays 0, the gap counts every k-mer, and no observer
   * is notified.
   */
  lemma {:induction false} NoneIndexedRecord<K>(s: Stretch<K>, observers: seq<ObserverId>, kms: seq<KmerObs<K>>)
    requires NoneIndexed(kms)
    ensures ScanRecord(Reset(s), kms).solid == 0
    ensures ScanRecord(Reset(s), kms).gap == |kms|
    ensures RecordLog(Reset(s), observers, kms) == []
  {
    if |kms| > 0 {
      NoneIndexedRecord(s, observers, kms[..|kms| - 1]);
    }
  }

  /** Inside a gap, missing k-mers only lengthen it and leave the anchors alone. */
  lemma {:induction false} GapGrows<K>(s: Stretch<K>, kms: seq<KmerObs<K>>)
    requires s.solid == 0 && NoneIndexed(kms)
    ensures ScanRecord(s, kms).solid == 0
    ensures ScanRecord(s, kms).gap == s.gap + |kms|
    ensures ScanRecord(s, kms).kmerBegin == s.kmerBegin
  {
    if |kms| > 0 {
      GapGrows(s, kms[..|kms| - 1]);
    }
  }

  /**
   * Closing a gap: after a solid run of two or more (ending with the k-mer
   * last of pre), a gap of g missing k-mers, and two indexed k-mers a and
   * b, the observers notified on b see a solid run of 2, the gap length g,
   * kmerBegin = the last indexed k-mer before the gap and kmerEnd = a.
   */
  lemma GapClosureAnchors<K>(s: Stretch<K>, pre: seq<KmerObs<K>>, gap: seq<KmerObs<K>>, a: KmerObs<K>, b: KmerObs<K>)
    requires Consistent(s)
    requires |pre| > 0 && ScanRecord(s, pre).solid >= 2
    requires |gap| > 0 && NoneIndexed(gap)
    requires a.indexed && b.indexed
    ensures var t := ScanRecord(s, pre + gap + [a]);
            && Seen(t).solid == 2
            && Seen(t).gap == |gap|
            && Seen(t).kmerBegin == pre[|pre| - 1].forward
            && Seen(t).kmerEnd == a.forward
  {
    var p := ScanRecord(s, pre);
    ScanConsistent(s, pre);
    assert p.previousKmer == pre[|pre| - 1].forward;
    var first := gap[..1];
    var rest := gap[1..];
    assert gap == first + rest;
    var q := Next(p, gap[0]);
    assert ScanRecord(p, first) == q by {
      assert first[..0] == [];
    }
    assert q.solid == 0 && q.gap == 1 && q.kmerBegin == pre[|pre| - 1].forward;
    GapGrows(q, rest);
    ScanAppend(p, first, rest);
    ScanAppend(s, pre, gap);
    var u := ScanRecord(s, pre + gap);
    assert u == ScanRecord(q, rest);
    assert (pre + gap + [a])[..|pre + gap|] == pre + gap;
  }

  function CountIndexed<K>(kms: seq<KmerObs<K>>): nat
  {
    if |kms| == 0 then 0
    else CountIndexed(kms[..|kms| - 1]) + (if kms[|kms| - 1].indexed then 1 else 0)
  }

  /** notify() fires once per observer on every indexed k-mer, and never otherwise. */
  lemma {:induction false} RecordLogSize<K>(s: Stretch<K>, observers: seq<ObserverId>, kms: seq<KmerObs<K>>)
    ensures |RecordLog(s, observers, kms)| == |observers| * CountIndexed(kms)
  {
    if |kms| > 0 {
      var before := kms[..|kms| - 1];
      RecordLogSize(s, observers, before);
      if kms[|kms| - 1].indexed {
        calc {
          |RecordLog(s, observers, kms)|;
          |observers| * CountIndexed(before) + |observers|;
          |observers| * (CountIndexed(before) + 1);
        }
      }
    }
  }

  /** Every notification shows a solid run of at least one: it comes from an indexed k-mer. */
  lemma {:induction false} NotifiedOnIndexedOnly<K>(s: Stretch<K>, observers: seq<ObserverId>, kms: seq<KmerObs<K>>)
    ensures forall n :: n in RecordLog(s, observers, kms) ==> n.seen.solid >= 1 && n.observer in observers
  {
    if |kms| > 0 {
      NotifiedOnIndexedOnly(s, observers, kms[..|kms| - 1]);
    }
  }
}
