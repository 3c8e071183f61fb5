/**
 * test/vde.py: scoring an experiment's variant calls against a truth set.
 * Calls are grouped by position; compare counts, per variant type, true
 * positives (TP) and false positives (FP), matching exactly at positions
 * both sides have and within a window of +-delta elsewhere.
 */
module Vde {
  import opened Common

  datatype Variant = Variant(vtype: string, comment: string)

  /** Variant.__eq__: equal exactly when type and comment both are. */
  function VariantEq(a: Variant, b: Variant): (r: bool)
    ensures r <==> a == b
  {
    if a.vtype != b.vtype then false
    else if a.comment != b.comment then false
    else true
  }

  /** Calls by position, as eva2eva and breakpoints2eva build them. */
  type Calls = map<int, seq<Variant>>

  /** calls[pos] on a defaultdict(list): no call at a position without an entry. */
  function CallsAt(calls: Calls, pos: int): seq<Variant>
  {
    if pos in calls then calls[pos] else []
  }

  predicate IsSnpType(t: string)
  {
    t == "snp" || t == "multi_snp"
  }

  // ---------------------------------------------------------------------
  // The result table
  // ---------------------------------------------------------------------

  /** One increment of result[type]["TP"] or result[type]["FP"]. */
  datatype Tally = TP(ttype: string) | FP(ttype: string)

  datatype Counts = Counts(tp: nat, fp: nat)

  /** result[type] on the nested defaultdict: zero counters for a type never incremented. */
  function Get(result: map<string, Counts>, t: string): Counts
  {
    if t in result then result[t] else Counts(0, 0)
  }

  /** One `+= 1` on the result table. */
  function Bump(result: map<string, Counts>, x: Tally): map<string, Counts>
  {
    var c := Get(result, x.ttype);
    result[x.ttype := if x.TP? then c.(tp := c.tp + 1) else c.(fp := c.fp + 1)]
  }

  /** Counters start at 0 and only grow: one increment raises exactly one counter by one. */
  lemma BumpRaisesOneCounter(result: map<string, Counts>, x: Tally, t: string)
    ensures t != x.ttype ==> Get(Bump(result, x), t) == Get(result, t)
    ensures t == x.ttype && x.TP? ==> Get(Bump(result, x), t) == Get(result, t).(tp := Get(result, t).tp + 1)
    ensures t == x.ttype && x.FP? ==> Get(Bump(result, x), t) == Get(result, t).(fp := Get(result, t).fp + 1)
  {
  }

  ghost function TypesOf(ts: multiset<Tally>): set<string>
  {
    set x | x in ts :: x.ttype
  }

  lemma TypesOfAdd(ts: multiset<Tally>, x: Tally)
    ensures TypesOf(ts + multiset{x}) == TypesOf(ts) + {x.ttype}
  {
  }

  /** The table a multiset of increments produces: one entry per type incremented at least once. */
  ghost function CountsOf(ts: multiset<Tally>): map<string, Counts>
  {
    map t | t in TypesOf(ts) :: Counts(ts[TP(t)], ts[FP(t)])
  }

  /** Applying an increment to the table is adding it to the multiset of increments. */
  lemma BumpCounts(ts: multiset<Tally>, x: Tally)
    ensures CountsOf(ts + multiset{x}) == Bump(CountsOf(ts), x)
  {
    var after, bumped := CountsOf(ts + multiset{x}), Bump(CountsOf(ts), x);
    TypesOfAdd(ts, x);
    assert after.Keys == bumped.Keys;
    forall t | t in after
      ensures after[t] == bumped[t]
    {
      BumpCountsAt(ts, x, t);
    }
  }

  /** The counters of type t after one more increment. */
  lemma BumpCountsAt(ts: multiset<Tally>, x: Tally, t: string)
    requires t in TypesOf(ts) + {x.ttype}
    ensures t in CountsOf(ts + multiset{x}) && t in Bump(CountsOf(ts), x)
    ensures CountsOf(ts + multiset{x})[t] == Bump(CountsOf(ts), x)[t]
  {
    var ts' := ts + multiset{x};
    TypesOfAdd(ts, x);
    assert ts'[TP(t)] == ts[TP(t)] + (if x == TP(t) then 1 else 0);
    assert ts'[FP(t)] == ts[FP(t)] + (if x == FP(t) then 1 else 0);
    if t == x.ttype && t !in TypesOf(ts) {
      assert TP(t) !in ts && FP(t) !in ts;
    }
  }

  // ---------------------------------------------------------------------
  // Order-independent sums over the sets compare iterates
  // ---------------------------------------------------------------------

  /** Which of compare's loops over positions: each names what one position adds. */
  datatype Part =
    | ExactPart(exp: Calls, truth: Calls)
    | WindowPart(exp: Calls, truth: Calls, delta: int)
    | LeftoverPart(exp: Calls)

  /** The increments one loop makes at position p. */
  ghost function PartAt(part: Part, p: int): multiset<Tally>
  {
    if p !in part.exp then multiset{}
    else
      match part
      case ExactPart(exp, truth) => ExactTallies(exp[p], CallsAt(truth, p))
      case WindowPart(exp, truth, delta) =>
        (match ScanWindow(exp[p], truth, p - delta, p + delta)
         case Some(x) => multiset{x}
         case None => multiset{})
      case LeftoverPart(exp) => Leftover(exp[p])
  }

  /** The increments a loop over the positions s makes, whatever order it visits them in. */
  ghost function SumOver(s: set<int>, part: Part): multiset<Tally>
    decreases |s|
  {
    if s == {} then multiset{}
    else
      var p := Choose(s);
      PartAt(part, p) + SumOver(s - {p}, part)
  }

  /** The sum does not depend on the order a set is visited in. */
  lemma {:induction false} SumOverRemove(s: set<int>, part: Part, y: int)
    requires y in s
    ensures SumOver(s, part) == PartAt(part, y) + SumOver(s - {y}, part)
    decreases |s|
  {
    var x := Choose(s);
    if x != y {
      var sx, sy := s - {x}, s - {y};
      assert sx - {y} == sy - {x};
      SumOverRemove(sx, part, y);
      SumOverRemove(sy, part, x);
      calc {
        SumOver(s, part);
        PartAt(part, x) + SumOver(sx, part);
        PartAt(part, x) + (PartAt(part, y) + SumOver(sx - {y}, part));
        PartAt(part, y) + (PartAt(part, x) + SumOver(sy - {x}, part));
        PartAt(part, y) + SumOver(sy, part);
      }
    }
  }

  /** One iteration of a loop over positions: the increments so far plus the next position's. */
  lemma SumStep(base: multiset<Tally>, acc: multiset<Tally>, s: set<int>, part: Part, y: int, add: multiset<Tally>)
    requires acc == base + SumOver(s, part) && y !in s && add == PartAt(part, y)
    ensures acc + add == base + SumOver(s + {y}, part)
  {
    SumOverRemove(s + {y}, part, y);
    assert s + {y} - {y} == s;
  }

    /** One FP per call of the set s, whatever order it is visited in. */
  ghost function FPs(s: set<Variant>): multiset<Tally>
    decreases |s|
  {
    if s == {} then multiset{}
    else
      var v := Choose(s);
      multiset{FP(v.vtype)} + FPs(s - {v})
  }

  lemma {:induction false} FPsRemove(s: set<Variant>, v: Variant)
    requires v in s
    ensures FPs(s) == multiset{FP(v.vtype)} + FPs(s - {v})
    decreases |s|
  {
    var w := Choose(s);
    if w != v {
      FPsRemove(s - {w}, v);
      FPsRemove(s - {v}, w);
      assert s - {w} - {v} == s - {v} - {w};
    }
  }

  /** One iteration of the loop over a set of calls: the FPs so far plus the next call's. */
  lemma FPsStep(base: multiset<Tally>, acc: multiset<Tally>, s: set<Variant>, v: Variant)
    requires acc == base + FPs(s) && v !in s
    ensures acc + multiset{FP(v.vtype)} == base + FPs(s + {v})
  {
    FPsRemove(s + {v}, v);
    assert s + {v} - {v} == s;
  }

  /** One FP per call, and nothing but FPs. */
  lemma {:induction false} FPsSpec(s: set<Variant>)
    ensures |FPs(s)| == |s|
    ensures forall x :: x in FPs(s) ==> x.FP?
    decreases |s|
  {
    if s != {} {
      var v := Choose(s);
      FPsRemove(s, v);
      FPsSpec(s - {v});
    }
  }

  // ---------------------------------------------------------------------
  // Exact positions
  // ---------------------------------------------------------------------

  /** One experiment call at a position the truth also has: TP when the truth list holds it, else FP. */
  function Judge(v: Variant, truthHere: seq<Variant>): (x: Tally)
    ensures x.ttype == v.vtype
    ensures x.TP? <==> v in truthHere
  {
    if v in truthHere then TP(v.vtype) else FP(v.vtype)
  }

  /** The increments for the calls vs, in order. */
  function ExactTallies(vs: seq<Variant>, truthHere: seq<Variant>): multiset<Tally>
  {
    if |vs| == 0 then multiset{}
    else ExactTallies(vs[..|vs| - 1], truthHere) + multiset{Judge(vs[|vs| - 1], truthHere)}
  }

  /** Every call adds exactly one increment. */
  lemma {:induction false} ExactTalliesSize(vs: seq<Variant>, truthHere: seq<Variant>)
    ensures |ExactTallies(vs, truthHere)| == |vs|
  {
    if |vs| > 0 {
      ExactTalliesSize(vs[..|vs| - 1], truthHere);
    }
  }

  /** Each call's increment is its own judgement, and nothing else is added. */
  lemma {:induction false} ExactTalliesSpec(vs: seq<Variant>, truthHere: seq<Variant>)
    ensures forall i :: 0 <= i < |vs| ==> Judge(vs[i], truthHere) in ExactTallies(vs, truthHere)
    ensures forall x :: x in ExactTallies(vs, truthHere) ==>
              exists i :: 0 <= i < |vs| && Judge(vs[i], truthHere) == x
  {
    if |vs| > 0 {
      var init := vs[..|vs| - 1];
      ExactTalliesSpec(init, truthHere);
      forall x | x in ExactTallies(vs, truthHere)
        ensures exists i :: 0 <= i < |vs| && Judge(vs[i], truthHere) == x
      {
        if x != Judge(vs[|vs| - 1], truthHere) {
          var i :| 0 <= i < |init| && Judge(init[i], truthHere) == x;
          assert vs[i] == init[i];
        }
      }
      forall i | 0 <= i < |vs| - 1
        ensures Judge(vs[i], truthHere) in ExactTallies(vs, truthHere)
      {
        assert vs[i] == init[i];
      }
    }
  }

  // ---------------------------------------------------------------------
  // Fuzzy positions
  // ---------------------------------------------------------------------

  /**
   * The inner loop over exp[fuzzy_pos] at one window position: the first
   * call of type snp or multi_snp gives an FP, the first call found in the
   * truth list there gives a TP, whichever comes first.
   */
  function ScanCalls(vs: seq<Variant>, truthHere: seq<Variant>): Option<Tally>
  {
    if |vs| == 0 then None
    else if IsSnpType(vs[0].vtype) then Some(FP(vs[0].vtype))
    else if vs[0] in truthHere then Some(TP(vs[0].vtype))
    else ScanCalls(vs[1..], truthHere)
  }

  /** The scan stops at nothing exactly when no call is a SNP and none is in the truth list. */
  lemma {:induction false} ScanCallsMiss(vs: seq<Variant>, truthHere: seq<Variant>)
    ensures ScanCalls(vs, truthHere).None? <==>
              forall i :: 0 <= i < |vs| ==> !IsSnpType(vs[i].vtype) && vs[i] !in truthHere
  {
    if |vs| > 0 && !IsSnpType(vs[0].vtype) && vs[0] !in truthHere {
      ScanCallsMiss(vs[1..], truthHere);
      assert forall i :: 1 <= i < |vs| ==> vs[i] == vs[1..][i - 1];
    }
  }

  /** A scan that stops does so at the first SNP or truth call, with an FP for a SNP and a TP otherwise. */
  lemma {:induction false} ScanCallsHit(vs: seq<Variant>, truthHere: seq<Variant>)
    requires ScanCalls(vs, truthHere).Some?
    ensures exists i :: && 0 <= i < |vs|
                        && (forall j :: 0 <= j < i ==> !IsSnpType(vs[j].vtype) && vs[j] !in truthHere)
                        && (IsSnpType(vs[i].vtype) || vs[i] in truthHere)
                        && ScanCalls(vs, truthHere).value
                           == if IsSnpType(vs[i].vtype) then FP(vs[i].vtype) else TP(vs[i].vtype)
  {
    if !IsSnpType(vs[0].vtype) && vs[0] !in truthHere {
      var rest := vs[1..];
      ScanCallsHit(rest, truthHere);
      var i :| && 0 <= i < |rest|
               && (forall j :: 0 <= j < i ==> !IsSnpType(rest[j].vtype) && rest[j] !in truthHere)
               && (IsSnpType(rest[i].vtype) || rest[i] in truthHere)
               && ScanCalls(rest, truthHere).value
                  == if IsSnpType(rest[i].vtype) then FP(rest[i].vtype) else TP(rest[i].vtype);
      assert forall j :: 1 <= j < i + 1 ==> vs[j] == rest[j - 1];
      assert vs[i + 1] == rest[i];
      assert forall j :: 0 <= j < i + 1 ==> !IsSnpType(vs[j].vtype) && vs[j] !in truthHere;
    } else {
      assert 0 <= 0 < |vs|;
    }
  }

  /** The window loop: positions pos..hi in ascending order, stopping at the first one whose scan stops. */
  function ScanWindow(vs: seq<Variant>, truth: Calls, pos: int, hi: int): Option<Tally>
    decreases if pos <= hi then hi - pos + 1 else 0
  {
    if pos > hi then None
    else
      match ScanCalls(vs, CallsAt(truth, pos))
      case Some(x) => Some(x)
      case None => ScanWindow(vs, truth, pos + 1, hi)
  }

  /** The window scan misses exactly when every position misses, and a hit comes from the first position that hits. */
  lemma {:induction false} ScanWindowSpec(vs: seq<Variant>, truth: Calls, lo: int, hi: int)
    ensures ScanWindow(vs, truth, lo, hi).None? <==>
              forall p :: lo <= p <= hi ==> ScanCalls(vs, CallsAt(truth, p)).None?
    ensures ScanWindow(vs, truth, lo, hi).Some? ==>
              exists p :: && lo <= p <= hi
                          && ScanCalls(vs, CallsAt(truth, p)) == ScanWindow(vs, truth, lo, hi)
                          && forall q :: lo <= q < p ==> ScanCalls(vs, CallsAt(truth, q)).None?
    decreases if lo <= hi then hi - lo + 1 else 0
  {
    if lo <= hi && ScanCalls(vs, CallsAt(truth, lo)).None? {
      ScanWindowSpec(vs, truth, lo + 1, hi);
      if ScanWindow(vs, truth, lo, hi).Some? {
        var p :| && lo + 1 <= p <= hi
                 && ScanCalls(vs, CallsAt(truth, p)) == ScanWindow(vs, truth, lo, hi)
                 && forall q :: lo + 1 <= q < p ==> ScanCalls(vs, CallsAt(truth, q)).None?;
        assert forall q :: lo <= q < p ==> ScanCalls(vs, CallsAt(truth, q)).None?;
      }
    }
  }

  /** set(calls): the distinct calls, by Variant equality. */
  function Distinct(vs: seq<Variant>): set<Variant>
  {
    set v | v in vs
  }

  /** An FP per distinct call at a position no window scan matched. */
  ghost function Leftover(vs: seq<Variant>): multiset<Tally>
  {
    FPs(Distinct(vs))
  }

  /** Positions only the experiment has: exp_pos - (exp_pos & tru_pos). */
  ghost function ExpOnly(exp: Calls, truth: Calls): set<int>
  {
    exp.Keys - (exp.Keys * truth.Keys)
  }

  ghost predicate Missed(exp: Calls, truth: Calls, delta: int, p: int)
  {
    p in exp && ScanWindow(exp[p], truth, p - delta, p + delta).None?
  }

  /** not_found after the window scans: the experiment-only positions whose scan never stopped. */
  ghost function NotFound(exp: Calls, truth: Calls, delta: int): set<int>
  {
    set p | p in ExpOnly(exp, truth) && Missed(exp, truth, delta, p)
  }

  /** Every increment compare makes: exact positions, window hits, then the positions left not found. */
  ghost function Tallies(exp: Calls, truth: Calls, delta: int): multiset<Tally>
  {
    SumOver(exp.Keys * truth.Keys, ExactPart(exp, truth))
    + SumOver(ExpOnly(exp, truth), WindowPart(exp, truth, delta))
    + SumOver(NotFound(exp, truth, delta), LeftoverPart(exp))
  }

  /**
   * What one experiment-only position adds in all: one increment when its
   * window scan stops, otherwise one FP per distinct call there.
   */
  lemma FuzzyPositionTotal(exp: Calls, truth: Calls, delta: int, p: int)
    requires p in ExpOnly(exp, truth)
    ensures var total := PartAt(WindowPart(exp, truth, delta), p)
                         + (if p in NotFound(exp, truth, delta) then PartAt(LeftoverPart(exp), p) else multiset{});
            && (ScanWindow(exp[p], truth, p - delta, p + delta).Some? ==>
                  total == multiset{ScanWindow(exp[p], truth, p - delta, p + delta).value})
            && (ScanWindow(exp[p], truth, p - delta, p + delta).None? ==>
                  && total == Leftover(exp[p])
                  && |total| == |Distinct(exp[p])|
                  && forall x :: x in total ==> x.FP?)
  {
    FPsSpec(Distinct(exp[p]));
  }

  // ---------------------------------------------------------------------
  // compare
  // ---------------------------------------------------------------------

  /** result[type]["TP"] += 1 or result[type]["FP"] += 1, with the increment recorded. */
  method Increment(result: map<string, Counts>, ghost tallies: multiset<Tally>, x: Tally)
    returns (result': map<string, Counts>, ghost tallies': multiset<Tally>)
    requires result == CountsOf(tallies)
    ensures tallies' == tallies + multiset{x}
    ensures result' == CountsOf(tallies')
  {
    BumpCounts(tallies, x);
    result' := Bump(result, x);
    tallies' := tallies + multiset{x};
  }

  /**
   * compare: the result table holds, per type, as many TPs and FPs as
   * Tallies lists.
   */
  method Compare(exp: Calls, truth: Calls, delta: int) returns (result: map<string, Counts>)
    ensures result == CountsOf(Tallies(exp, truth, delta))
  {
    result := map[];
    assert result == CountsOf(multiset{});
    var expPos := exp.Keys;
    var truPos := truth.Keys;
    ghost var exactSum := SumOver(expPos * truPos, ExactPart(exp, truth));
    ghost var windowSum := SumOver(ExpOnly(exp, truth), WindowPart(exp, truth, delta));
    ghost var leftoverSum := SumOver(NotFound(exp, truth, delta), LeftoverPart(exp));
    result := ExactPositions(exp, truth, expPos * truPos, result, multiset{});
    var notFound;
    result, notFound := FuzzyPositions(exp, truth, delta, expPos - (expPos * truPos), result, multiset{} + exactSum, NotFound(exp, truth, delta));
    result := NotFoundPositions(exp, notFound, result, multiset{} + exactSum + windowSum);
    assert multiset{} + exactSum + windowSum + leftoverSum == exactSum + windowSum + leftoverSum;
  }

  /** The loop over the positions both sides have. */
  method ExactPositions(exp: Calls, truth: Calls, positions: set<int>, result: map<string, Counts>, ghost tallies: multiset<Tally>)
    returns (result': map<string, Counts>)
    requires positions == exp.Keys * truth.Keys
    requires result == CountsOf(tallies)
    ensures result' == CountsOf(tallies + SumOver(positions, ExactPart(exp, truth)))
  {
    result' := result;
    var todo := positions;
    ghost var done: set<int> := {};
    while todo != {}
      invariant todo <= positions && done == positions - todo
      invariant result' == CountsOf(tallies + SumOver(done, ExactPart(exp, truth)))
      decreases |todo|
    {
      var exactPos := Pick(todo);
      result' := ExactStep(exp, truth, done, exactPos, result', tallies);
      Visit(positions, todo, done, exactPos);
      todo := todo - {exactPos};
      done := done + {exactPos};
    }
    VisitedAll(positions, todo, done);
  }

  /** One iteration of the loop over the positions both sides have. */
  method ExactStep(exp: Calls, truth: Calls, ghost done: set<int>, p: int, result: map<string, Counts>, ghost base: multiset<Tally>)
    returns (result': map<string, Counts>)
    requires p in exp && p in truth && p !in done
    requires result == CountsOf(base + SumOver(done, ExactPart(exp, truth)))
    ensures result' == CountsOf(base + SumOver(done + {p}, ExactPart(exp, truth)))
  {
    ghost var tallies := base + SumOver(done, ExactPart(exp, truth));
    ghost var tallies';
    result', tallies' := ExactPosition(exp[p], truth[p], result, tallies);
    assert PartAt(ExactPart(exp, truth), p) == ExactTallies(exp[p], truth[p]);
    SumStep(base, tallies, done, ExactPart(exp, truth), p, tallies' - tallies);
  }

  /** The loop over the experiment-only positions, each with its window scan; it leaves not_found. */
  method FuzzyPositions(exp: Calls, truth: Calls, delta: int, positions: set<int>, result: map<string, Counts>,
                        ghost tallies: multiset<Tally>, ghost missed: set<int>)
    returns (result': map<string, Counts>, notFound: set<int>)
    requires positions == ExpOnly(exp, truth)
    requires result == CountsOf(tallies)
    requires missed <= positions
    requires forall p {:trigger Missed(exp, truth, delta, p)} :: p in positions ==> (p in missed <==> Missed(exp, truth, delta, p))
    ensures result' == CountsOf(tallies + SumOver(positions, WindowPart(exp, truth, delta)))
    ensures notFound == missed
  {
    result' := result;
    notFound := positions;
    var todo := positions;
    ghost var done: set<int> := {};
    assert notFound == todo + missed * done;
    assert tallies == tallies + SumOver(done, WindowPart(exp, truth, delta));
    while todo != {}
      invariant todo <= positions && done == positions - todo
      invariant result' == CountsOf(tallies + SumOver(done, WindowPart(exp, truth, delta)))
      invariant notFound == todo + missed * done
      decreases |todo|
    {
      result', notFound, todo, done := FuzzyStep(exp, truth, delta, positions, tallies, missed, result', notFound, todo, done);
    }
    FuzzyDone(positions, todo, done, missed);
  }

  /** After the last iteration every position is visited and not_found holds the missed ones. */
  lemma FuzzyDone(positions: set<int>, todo: set<int>, done: set<int>, missed: set<int>)
    requires todo == {} && done == positions - todo && missed <= positions
    ensures done == positions && todo + missed * done == missed
  {
  }

  /** not_found loses the visited position exactly when its scan hit. */
  lemma MoveDone(notFound: set<int>, todo: set<int>, missed: set<int>, done: set<int>, p: int, hit: bool)
    requires notFound == todo + missed * done && p in todo && p !in done
    requires hit <==> p !in missed
    ensures (if hit then notFound - {p} else notFound) == (todo - {p}) + missed * (done + {p})
  {
  }

  /**
   * One iteration of the loop over the experiment-only positions: the window
   * scan of some position not yet visited, which leaves not_found exactly
   * when the scan hits.
   */
  method FuzzyStep(exp: Calls, truth: Calls, delta: int, positions: set<int>, ghost tallies: multiset<Tally>, ghost missed: set<int>,
                   result: map<string, Counts>, notFound: set<int>, todo: set<int>, ghost done: set<int>)
    returns (result': map<string, Counts>, notFound': set<int>, todo': set<int>, ghost done': set<int>)
    requires positions == ExpOnly(exp, truth)
    requires forall p {:trigger Missed(exp, truth, delta, p)} :: p in positions ==> (p in missed <==> Missed(exp, truth, delta, p))
    requires todo != {} && todo <= positions && done == positions - todo
    requires result == CountsOf(tallies + SumOver(done, WindowPart(exp, truth, delta)))
    requires notFound == todo + missed * done
    ensures todo' <= positions && done' == positions - todo' && |todo'| < |todo|
    ensures result' == CountsOf(tallies + SumOver(done', WindowPart(exp, truth, delta)))
    ensures notFound' == todo' + missed * done'
  {
    var p := Pick(todo);
    var hit;
    result', hit := WindowStep(exp, truth, delta, done, p, result, tallies);
    Visit(positions, todo, done, p);
    MoveDone(notFound, todo, missed, done, p, hit);
    notFound' := if hit then notFound - {p} else notFound;
    todo' := todo - {p};
    done' := done + {p};
  }

  /** The window scan of one experiment-only position, added to those of the positions visited before it. */
  method WindowStep(exp: Calls, truth: Calls, delta: int, ghost done: set<int>, p: int, result: map<string, Counts>, ghost base: multiset<Tally>)
    returns (result': map<string, Counts>, hit: bool)
    requires p in ExpOnly(exp, truth) && p !in done
    requires result == CountsOf(base + SumOver(done, WindowPart(exp, truth, delta)))
    ensures result' == CountsOf(base + SumOver(done + {p}, WindowPart(exp, truth, delta)))
    ensures hit <==> !Missed(exp, truth, delta, p)
  {
    ghost var tallies := base + SumOver(done, WindowPart(exp, truth, delta));
    ghost var tallies';
    result', tallies', hit := FuzzyPosition(exp[p], truth, p - delta, p + delta, result, tallies);
    WindowOutcome(exp, truth, delta, p, hit);
    SumStep(base, tallies, done, WindowPart(exp, truth, delta), p, tallies' - tallies);
  }

  /** What the window scan at one experiment-only position decides: its increment, and whether it stays not found. */
  lemma WindowOutcome(exp: Calls, truth: Calls, delta: int, p: int, hit: bool)
    requires p in ExpOnly(exp, truth)
    requires hit <==> ScanWindow(exp[p], truth, p - delta, p + delta).Some?
    ensures Missed(exp, truth, delta, p) <==> !hit
    ensures PartAt(WindowPart(exp, truth, delta), p)
            == if hit then multiset{ScanWindow(exp[p], truth, p - delta, p + delta).value} else multiset{}
  {
  }

  /** The loop over the positions left in not_found. */
  method NotFoundPositions(exp: Calls, positions: set<int>, result: map<string, Counts>, ghost tallies: multiset<Tally>)
    returns (result': map<string, Counts>)
    requires positions <= exp.Keys
    requires result == CountsOf(tallies)
    ensures result' == CountsOf(tallies + SumOver(positions, LeftoverPart(exp)))
  {
    result' := result;
    var todo := positions;
    ghost var done: set<int> := {};
    while todo != {}
      invariant todo <= positions && done == positions - todo
      invariant result' == CountsOf(tallies + SumOver(done, LeftoverPart(exp)))
      decreases |todo|
    {
      var pos := Pick(todo);
      result' := LeftoverStep(exp, done, pos, result', tallies);
      Visit(positions, todo, done, pos);
      todo := todo - {pos};
      done := done + {pos};
    }
    VisitedAll(positions, todo, done);
  }

  /** One iteration of the loop over the positions left in not_found. */
  method LeftoverStep(exp: Calls, ghost done: set<int>, p: int, result: map<string, Counts>, ghost base: multiset<Tally>)
    returns (result': map<string, Counts>)
    requires p in exp && p !in done
    requires result == CountsOf(base + SumOver(done, LeftoverPart(exp)))
    ensures result' == CountsOf(base + SumOver(done + {p}, LeftoverPart(exp)))
  {
    ghost var tallies := base + SumOver(done, LeftoverPart(exp));
    ghost var tallies';
    result', tallies' := LeftoverPosition(exp[p], result, tallies);
    SumStep(base, tallies, done, LeftoverPart(exp), p, tallies' - tallies);
  }

  /** The loop over exp[exact_pos]: one judgement per call, in order. */
  method ExactPosition(vs: seq<Variant>, truthHere: seq<Variant>, result: map<string, Counts>, ghost tallies: multiset<Tally>)
    returns (result': map<string, Counts>, ghost tallies': multiset<Tally>)
    requires result == CountsOf(tallies)
    ensures tallies' == tallies + ExactTallies(vs, truthHere)
    ensures result' == CountsOf(tallies')
  {
    result', tallies' := result, tallies;
    var i := 0;
    while i < |vs|
      invariant 0 <= i <= |vs|
      invariant tallies' == tallies + ExactTallies(vs[..i], truthHere)
      invariant result' == CountsOf(tallies')
    {
      var variant := vs[i];
      assert vs[..i + 1][..i] == vs[..i];
      if variant in truthHere {
        result', tallies' := Increment(result', tallies', TP(variant.vtype));
      } else {
        result', tallies' := Increment(result', tallies', FP(variant.vtype));
      }
      i := i + 1;
    }
    assert vs[..i] == vs;
  }

  /**
   * The window loop for one experiment-only position: positions lo..hi in
   * ascending order, each running the scan over the position's calls;
   * the `end` flag stops both loops at the first increment.
   */
  method FuzzyPosition(vs: seq<Variant>, truth: Calls, lo: int, hi: int, result: map<string, Counts>, ghost tallies: multiset<Tally>)
    returns (result': map<string, Counts>, ghost tallies': multiset<Tally>, end: bool)
    requires result == CountsOf(tallies)
    ensures end <==> ScanWindow(vs, truth, lo, hi).Some?
    ensures tallies' == tallies + (if end then multiset{ScanWindow(vs, truth, lo, hi).value} else multiset{})
    ensures result' == CountsOf(tallies')
  {
    result', tallies' := result, tallies;
    end := false;
    var pos := lo;
    while pos <= hi
      invariant ScanWindow(vs, truth, lo, hi) == ScanWindow(vs, truth, pos, hi)
      invariant !end && tallies' == tallies && result' == result
      decreases if pos <= hi then hi - pos + 1 else 0
    {
      var truthHere := CallsAt(truth, pos);
      var i := 0;
      while i < |vs|
        invariant 0 <= i <= |vs|
        invariant ScanCalls(vs, truthHere) == ScanCalls(vs[i..], truthHere)
        invariant !end && tallies' == tallies && result' == result
      {
        var variant := vs[i];
        if variant.vtype == "snp" || variant.vtype == "multi_snp" {
          result', tallies' := Increment(result', tallies', FP(variant.vtype));
          end := true;
          break;
        }
        if variant in truthHere {
          result', tallies' := Increment(result', tallies', TP(variant.vtype));
          end := true;
          break;
        }
        assert vs[i..][1..] == vs[i + 1..];
        i := i + 1;
      }
      if end {
        break;
      }
      pos := pos + 1;
    }
  }

  /** The loop over set(exp[pos]) for a position left in not_found: one FP per distinct call. */
  method LeftoverPosition(vs: seq<Variant>, result: map<string, Counts>, ghost tallies: multiset<Tally>)
    returns (result': map<string, Counts>, ghost tallies': multiset<Tally>)
    requires result == CountsOf(tallies)
    ensures tallies' == tallies + Leftover(vs)
    ensures result' == CountsOf(tallies')
  {
    result', tallies' := result, tallies;
    var distinct := Distinct(vs);
    var todo := distinct;
    ghost var done: set<Variant> := {};
    while todo != {}
      invariant todo <= distinct && done == distinct - todo
      invariant tallies' == tallies + FPs(done)
      invariant result' == CountsOf(tallies')
      decreases |todo|
    {
      var variant := Pick(todo);
      ghost var before := tallies';
      result', tallies' := Increment(result', tallies', FP(variant.vtype));
      Visit(distinct, todo, done, variant);
      FPsStep(tallies, before, done, variant);
      todo := todo - {variant};
      done := done + {variant};
    }
    VisitedAll(distinct, todo, done);
  }

  // ---------------------------------------------------------------------
  // breakpoints2eva's tag table
  // ---------------------------------------------------------------------

  /** mtg2eva: MindTheGap's breakpoint type tags to evaluation types; any other tag raises KeyError. */
  function MtgToEva(tag: string): Option<string>
  {
    if tag == "HOM" then Some("homo")
    else if tag == "HET" then Some("hete")
    else if tag == "SNP" then Some("snp")
    else if tag == "MSNP" then Some("multi_snp")
    else if tag == "DEL" then Some("deletion")
    else if tag == "BACKUP" then Some("backup")
    else None
  }

  /**
   * The table is defined on exactly the six tags, maps distinct tags to
   * distinct types, and only SNP and MSNP become types the window scan
   * counts as FP on sight.
   */
  lemma MtgToEvaTable(a: string, b: string)
    ensures MtgToEva(a).Some? <==> a in {"HOM", "HET", "SNP", "MSNP", "DEL", "BACKUP"}
    ensures MtgToEva(a).Some? && MtgToEva(a) == MtgToEva(b) ==> a == b
    ensures MtgToEva(a).Some? ==> (IsSnpType(MtgToEva(a).value) <==> a == "SNP" || a == "MSNP")
  {
  }
}
