/**
 * pipeline/genome_graph/genome_graph.py: a genome graph whose nodes are
 * contigs with positive ids; an adjacency key -id stands for the reverse
 * complement of contig id.  Every adjacency entry src -> dst has a twin
 * -dst -> -src (the same link read on the other strand); add_edge,
 * rem_edge and rem_node keep that symmetry.
 */
module GenomeGraphs {
  import opened Common
  import opened Dna

  datatype GenomeNode = GenomeNode(nodeSeq: string, nodeName: string)

  /** GenomeNode.__eq__: two nodes are equal exactly when sequence and name both are. */
  function NodeEq(a: GenomeNode, b: GenomeNode): (r: bool)
    ensures r <==> a == b
  {
    a.nodeSeq == b.nodeSeq && a.nodeName == b.nodeName
  }

  /** self.edges: signed node id to the set of signed ids it links to. */
  type Adjacency = map<int, set<int>>

  type Entry = (int, int)

  /** Every (src, dst) with dst in edges[src]: the elements of the flattened adjacency lists. */
  function Entries(m: Adjacency): set<Entry>
  {
    set s, d | s in m && d in m[s] :: (s, d)
  }

  /** The same link read on the other strand. */
  function Twin(e: Entry): Entry
  {
    (-e.1, -e.0)
  }

  ghost predicate TwinClosed(es: set<Entry>)
  {
    forall e {:trigger Twin(e)} :: e in es ==> Twin(e) in es
  }

  /** Whether an entry mentions contig id on either strand. */
  predicate Touches(e: Entry, id: int)
  {
    e.0 == id || e.0 == -id || e.1 == id || e.1 == -id
  }

  /** The entries that do not mention contig id on either strand. */
  ghost function Untouched(es: set<Entry>, id: int): set<Entry>
  {
    set e | e in es && !Touches(e, id)
  }

  /** The entries that neither leave s nor enter d. */
  ghost function Avoiding(es: set<Entry>, s: int, d: int): set<Entry>
  {
    set e | e in es && e.0 != s && e.1 != d
  }

  /**
   * The graph's invariant: node ids are positive, the adjacency keys are
   * exactly the ids of the nodes and their negations, and every entry's
   * twin is present.
   */
  ghost predicate ValidGraph(nodes: map<int, GenomeNode>, edges: Adjacency)
  {
    KeysMatch(nodes, edges) && TwinClosed(Entries(edges))
  }

  /** Node ids are positive and the adjacency keys are exactly the node ids and their negations. */
  ghost predicate KeysMatch(nodes: map<int, GenomeNode>, edges: Adjacency)
  {
    && (forall id {:trigger id in nodes} :: id in nodes ==> id > 0 && id in edges && -id in edges)
    && (forall k {:trigger k in edges} :: k in edges ==> (k > 0 && k in nodes) || (k < 0 && -k in nodes))
  }

  // ---------------------------------------------------------------------
  // Updates of the adjacency map
  // ---------------------------------------------------------------------

  /** edges[s].add(d). */
  function AddEntry(m: Adjacency, s: int, d: int): Adjacency
    requires s in m
  {
    m[s := m[s] + {d}]
  }

  /** edges[s].remove(d) when it succeeds; no change when it raises KeyError. */
  function DiscardEntry(m: Adjacency, s: int, d: int): Adjacency
  {
    if s in m && d in m[s] then m[s := m[s] - {d}] else m
  }

  /** rem_edge: both removals, the second skipped when the first raised KeyError. */
  function RemoveTwins(m: Adjacency, s: int, d: int): Adjacency
  {
    if s in m && d in m[s] then DiscardEntry(DiscardEntry(m, s, d), -d, -s) else m
  }

  /** What rem_node leaves of the adjacency: no ±id key and no ±id target. */
  function StripNode(m: Adjacency, id: int): Adjacency
  {
    map k | k in m && k != id && k != -id :: m[k] - {id, -id}
  }

  /** rem_edge(-n, a) for every n of ns: the entries (-n, a) and their twins (-a, n). */
  ghost function Cut(ns: set<int>, a: int): set<Entry>
  {
    (set n | n in ns :: (-n, a)) + (set n | n in ns :: (-a, n))
  }

  lemma EntriesOfAdd(m: Adjacency, s: int, d: int)
    requires s in m
    ensures Entries(AddEntry(m, s, d)) == Entries(m) + {(s, d)}
  {
  }

  lemma EntriesOfDiscard(m: Adjacency, s: int, d: int)
    ensures Entries(DiscardEntry(m, s, d)) == Entries(m) - {(s, d)}
  {
    if s in m && d in m[s] {
      var m' := DiscardEntry(m, s, d);
      forall e | e in Entries(m) - {(s, d)}
        ensures e in Entries(m')
      {
        assert e.0 in m' && e.1 in m'[e.0];
      }
    }
  }

  /** rem_edge takes out the entry and its twin when the entry is there, and changes nothing otherwise. */
  lemma EntriesOfRemoveTwins(m: Adjacency, s: int, d: int)
    ensures RemoveTwins(m, s, d).Keys == m.Keys
    ensures Entries(RemoveTwins(m, s, d))
            == if (s, d) in Entries(m) then Entries(m) - {(s, d), Twin((s, d))} else Entries(m)
  {
    if s in m && d in m[s] {
      EntriesOfDiscard(m, s, d);
      EntriesOfDiscard(DiscardEntry(m, s, d), -d, -s);
    }
  }

  /** Two adjacency maps with the same keys and the same entries are the same map. */
  lemma SameEntriesSameMap(m1: Adjacency, m2: Adjacency)
    requires m1.Keys == m2.Keys && Entries(m1) == Entries(m2)
    ensures m1 == m2
  {
    forall k | k in m1
      ensures m1[k] == m2[k]
    {
      forall d | d in m1[k]
        ensures d in m2[k]
      {
        assert (k, d) in Entries(m1);
      }
      forall d | d in m2[k]
        ensures d in m1[k]
      {
        assert (k, d) in Entries(m2);
      }
    }
  }

  /** Dropping a key whose set is empty loses no entry. */
  lemma EntriesOfRemoveKey(m: Adjacency, k: int)
    requires forall e :: e in Entries(m) ==> e.0 != k
    ensures Entries(m - {k}) == Entries(m)
  {
    forall e | e in Entries(m)
      ensures e in Entries(m - {k})
    {
      assert e.0 in m - {k};
    }
  }

  /** rem_node's result keeps exactly the entries that do not mention the node. */
  lemma EntriesOfStrip(m: Adjacency, id: int)
    ensures StripNode(m, id).Keys == m.Keys - {id, -id}
    ensures Entries(StripNode(m, id)) == Untouched(Entries(m), id)
  {
    var m' := StripNode(m, id);
    forall e | e in Entries(m) && !Touches(e, id)
      ensures e in Entries(m')
    {
      assert e.0 in m' && e.1 in m'[e.0];
    }
  }

  /** add_edge on a symmetric map adds an entry together with its twin and stays symmetric. */
  lemma AddTwinsKeepsSymmetry(m: Adjacency, s: int, d: int)
    requires TwinClosed(Entries(m)) && s in m && -d in m
    ensures var m' := AddEntry(AddEntry(m, s, d), -d, -s);
            && m'.Keys == m.Keys
            && Entries(m') == Entries(m) + {(s, d), Twin((s, d))}
            && TwinClosed(Entries(m'))
  {
    EntriesOfAdd(m, s, d);
    EntriesOfAdd(AddEntry(m, s, d), -d, -s);
  }

  /** rem_edge keeps a symmetric map symmetric. */
  lemma RemoveTwinsKeepsSymmetry(m: Adjacency, s: int, d: int)
    requires TwinClosed(Entries(m))
    ensures TwinClosed(Entries(RemoveTwins(m, s, d)))
  {
    EntriesOfRemoveTwins(m, s, d);
    if (s, d) in Entries(m) {
      TwinClosedWithoutPair(Entries(m), (s, d));
    }
  }

  /** Taking an entry out together with its twin keeps a set of entries closed under Twin. */
  lemma TwinClosedWithoutPair(es: set<Entry>, x: Entry)
    requires TwinClosed(es)
    ensures TwinClosed(es - {x, Twin(x)})
  {
    forall e | e in es - {x, Twin(x)}
      ensures Twin(e) in es - {x, Twin(x)}
    {
      assert Twin(Twin(e)) == e && Twin(Twin(x)) == x;
    }
  }

  /** rem_node's result is symmetric when the graph was. */
  lemma StripKeepsSymmetry(m: Adjacency, id: int)
    requires TwinClosed(Entries(m))
    ensures TwinClosed(Entries(StripNode(m, id)))
  {
    EntriesOfStrip(m, id);
  }

  /**
   * One sweep of rem_node: calling rem_edge(-n, a) for every n linked from
   * -a removes, from a symmetric map, every entry leaving -a or entering a,
   * and nothing else.
   */
  lemma SweepRemovesOneNodeStrand(m: Adjacency, a: int)
    requires TwinClosed(Entries(m)) && -a in m
    ensures Entries(m) - Cut(m[-a], a) == Avoiding(Entries(m), -a, a)
  {
    var es := Entries(m);
    forall e | e in es && (e.0 == -a || e.1 == a)
      ensures e in Cut(m[-a], a)
    {
      if e.0 == -a {
        assert e == (-a, e.1) && e.1 in m[-a];
      } else {
        assert Twin(e) in es;
        assert -e.0 in m[-a];
        assert e == (-(-e.0), a);
      }
    }
  }

  /** One rem_edge(-n, a) of a sweep: the removed entries grow by the pair Cut adds for n. */
  lemma SweepStep(m: Adjacency, start: set<Entry>, done: set<int>, n: int, a: int)
    requires TwinClosed(Entries(m)) && Entries(m) == start - Cut(done, a)
    ensures RemoveTwins(m, -n, a).Keys == m.Keys
    ensures Entries(RemoveTwins(m, -n, a)) == start - Cut(done + {n}, a)
    ensures TwinClosed(Entries(RemoveTwins(m, -n, a)))
  {
    EntriesOfRemoveTwins(m, -n, a);
    CutAddOne(done, n, a);
    RemoveTwinsKeepsSymmetry(m, -n, a);
    if (-a, n) in Entries(m) {
      assert Twin((-a, n)) in Entries(m);
    }
  }

  /**
   * rem_node's two sweeps followed by popping both keys leave exactly
   * StripNode of the graph it started from.
   */
  lemma TwoSweepsStrip(e0: Adjacency, e1: Adjacency, e2: Adjacency, id: int)
    requires TwinClosed(Entries(e0)) && id in e0 && -id in e0
    requires e1.Keys == e0.Keys && Entries(e1) == Entries(e0) - Cut(e0[id], -id)
    requires TwinClosed(Entries(e1))
    requires e2.Keys == e0.Keys && Entries(e2) == Entries(e1) - Cut(e1[-id], id)
    ensures (e2 - {id}) - {-id} == StripNode(e0, id)
  {
    TwoSweepsEntries(e0, e1, e2, id);
    PopBothKeys(e0, e2, id);
  }

  /** After both sweeps the entries left are those that do not mention the node. */
  lemma TwoSweepsEntries(e0: Adjacency, e1: Adjacency, e2: Adjacency, id: int)
    requires TwinClosed(Entries(e0)) && id in e0 && -id in e0
    requires e1.Keys == e0.Keys && Entries(e1) == Entries(e0) - Cut(e0[id], -id)
    requires TwinClosed(Entries(e1))
    requires Entries(e2) == Entries(e1) - Cut(e1[-id], id)
    ensures Entries(e2) == Untouched(Entries(e0), id)
  {
    SweepRemovesOneNodeStrand(e0, -id);
    SweepRemovesOneNodeStrand(e1, id);
    DropBothStrands(Entries(e0), Entries(e1), Entries(e2), id);
  }

  /** Popping both strands' keys from a map whose entries avoid the node gives StripNode. */
  lemma PopBothKeys(e0: Adjacency, e2: Adjacency, id: int)
    requires e2.Keys == e0.Keys
    requires Entries(e2) == Untouched(Entries(e0), id)
    ensures (e2 - {id}) - {-id} == StripNode(e0, id)
  {
    EntriesOfRemoveKey(e2, id);
    EntriesOfRemoveKey(e2 - {id}, -id);
    EntriesOfStrip(e0, id);
    SameEntriesSameMap((e2 - {id}) - {-id}, StripNode(e0, id));
  }

  /** The first sweep drops the entries leaving id or entering -id, the second those leaving -id or entering id. */
  lemma DropBothStrands(es0: set<Entry>, es1: set<Entry>, es2: set<Entry>, id: int)
    requires es1 == Avoiding(es0, id, -id)
    requires es2 == Avoiding(es1, -id, id)
    ensures es2 == Untouched(es0, id)
  {
  }

  /** After rem_node the graph is valid again exactly when the id removed was a positive one. */
  lemma StripValidIff(nodes: map<int, GenomeNode>, edges: Adjacency, id: int)
    requires ValidGraph(nodes, edges) && id in edges
    ensures ValidGraph(nodes - {id}, StripNode(edges, id)) <==> id > 0
  {
    StripKeepsSymmetry(edges, id);
    if id < 0 {
      assert -id in nodes - {id} && -id !in StripNode(edges, id);
    }
  }

  lemma CutAddOne(ns: set<int>, n: int, a: int)
    ensures Cut(ns + {n}, a) == Cut(ns, a) + {(-n, a), (-a, n)}
  {
  }

  lemma {:induction false} TwinClosedIsEven(es: set<Entry>)
    requires TwinClosed(es)
    requires forall e :: e in es ==> e.1 != -e.0
    ensures |es| % 2 == 0
    decreases |es|
  {
    if |es| > 0 {
      var e :| e in es;
      var t := Twin(e);
      assert t in es && t != e;
      var es1 := es - {e};
      assert |es1| == |es| - 1 && t in es1;
      var rest := es1 - {t};
      assert |rest| == |es1| - 1;
      forall x | x in rest
        ensures Twin(x) in rest
      {
        assert Twin(Twin(x)) == x && Twin(Twin(e)) == e;
        assert Twin(x) in es;
      }
      TwinClosedIsEven(rest);
    }
  }

  /** Without a link from a contig to its own reverse complement the entries pair up. */
  lemma WholeEdgeCount(m: Adjacency)
    ensures TwinClosed(Entries(m)) && (forall s :: s in m ==> -s !in m[s]) ==> |Entries(m)| % 2 == 0
  {
    if TwinClosed(Entries(m)) && (forall s :: s in m ==> -s !in m[s]) {
      forall e | e in Entries(m)
        ensures e.1 != -e.0
      {
        assert e.1 in m[e.0];
      }
      TwinClosedIsEven(Entries(m));
    }
  }

  function Negated(ids: set<int>): set<int>
  {
    set x | x in ids :: -x
  }

  lemma {:induction false} NegatedSize(ids: set<int>)
    ensures |Negated(ids)| == |ids|
    decreases |ids|
  {
    if ids != {} {
      var x := Choose(ids);
      NegatedSize(ids - {x});
      forall y | y in Negated(ids)
        ensures y in Negated(ids - {x}) + {-x}
      {
        if y != -x {
          assert -y in ids - {x};
        }
      }
      assert Negated(ids) == Negated(ids - {x}) + {-x};
      assert -x !in Negated(ids - {x});
    }
  }

  /** In a valid graph there are two adjacency keys per node, one per strand. */
  lemma KeysPerNode(nodes: map<int, GenomeNode>, edges: Adjacency)
    ensures ValidGraph(nodes, edges) ==> |edges| == 2 * |nodes|
  {
    if ValidGraph(nodes, edges) {
      var pos := nodes.Keys;
      forall k | k in edges
        ensures k in pos + Negated(pos)
      {
        if k < 0 {
          assert -k in pos && k == -(-k);
        }
      }
      forall y | y in Negated(pos)
        ensures y in edges
      {
        assert -y in nodes && -(-y) == y;
      }
      forall k | k in pos
        ensures k in edges
      {
        assert k in nodes;
      }
      assert edges.Keys == pos + Negated(pos);
      assert pos !! Negated(pos);
      NegatedSize(pos);
    }
  }

  // ---------------------------------------------------------------------
  // get_node_seq
  // ---------------------------------------------------------------------

  /** get_node_seq: the stripped sequence for id > 0, its reverse complement for -id; KeyError otherwise. */
  function NodeSeq(nodes: map<int, GenomeNode>, nodeId: int): Option<string>
  {
    if nodeId < 0 then
      if -nodeId in nodes then Some(ReverseComplement(Strip(nodes[-nodeId].nodeSeq))) else None
    else
      if nodeId in nodes then Some(Strip(nodes[nodeId].nodeSeq)) else None
  }

  /** The two strands of a contig are reverse complements of each other. */
  lemma NodeSeqStrands(nodes: map<int, GenomeNode>, id: int)
    requires id > 0 && id in nodes
    ensures NodeSeq(nodes, id) == Some(Strip(nodes[id].nodeSeq))
    ensures NodeSeq(nodes, -id).Some?
    ensures ReverseComplement(NodeSeq(nodes, -id).value) == NodeSeq(nodes, id).value
    ensures NodeSeq(nodes, -id).value == ReverseComplement(NodeSeq(nodes, id).value)
  {
    ReverseComplementInvolution(Strip(nodes[id].nodeSeq));
  }

  // ---------------------------------------------------------------------
  // GenomeGraph
  // ---------------------------------------------------------------------

  /** max() of a non-empty set of ids. */
  method MaxKey(keys: set<int>) returns (m: int)
    requires keys != {}
    ensures m in keys && forall k :: k in keys ==> k <= m
  {
    m := Pick(keys);
    var rest := keys - {m};
    while rest != {}
      invariant m in keys && rest <= keys
      invariant forall k :: k in keys && k !in rest ==> k <= m
      decreases |rest|
    {
      var k := Pick(rest);
      if k > m {
        m := k;
      }
      rest := rest - {k};
    }
  }

  /** add_node's id: max(ids) + 1, or 1 when there is no node yet. */
  method NextId(ids: set<int>) returns (id: int)
    ensures id !in ids
    ensures |ids| == 0 ==> id == 1
    ensures |ids| > 0 ==> id - 1 in ids && forall k :: k in ids ==> k < id
  {
    if ids != {} {
      var m := MaxKey(ids);
      id := m + 1;
    } else {
      assert ids == {};
      id := 1;
    }
  }

  /** A fresh positive id with two empty strands keeps the graph valid and adds no entry. */
  lemma AddNodeKeepsValid(nodes: map<int, GenomeNode>, edges: Adjacency, id: int, node: GenomeNode)
    requires ValidGraph(nodes, edges)
    requires id !in nodes && (|nodes| == 0 ==> id == 1) && (|nodes| > 0 ==> id - 1 in nodes)
    ensures id > 0
    ensures ValidGraph(nodes[id := node], edges[id := {}][-id := {}])
    ensures Entries(edges[id := {}][-id := {}]) == Entries(edges)
    ensures |nodes[id := node]| == |nodes| + 1
  {
    assert id > 0;
    AddNodeKeysMatch(nodes, edges, id, node);
    EntriesOfNewKey(edges, id);
    EntriesOfNewKey(edges[id := {}], -id);
  }

  /** A fresh positive id whose two strands become keys keeps node ids and keys in step. */
  lemma AddNodeKeysMatch(nodes: map<int, GenomeNode>, edges: Adjacency, id: int, node: GenomeNode)
    requires KeysMatch(nodes, edges) && id > 0 && id !in nodes
    ensures id !in edges && -id !in edges
    ensures KeysMatch(nodes[id := node], edges[id := {}][-id := {}])
  {
    var nodes', edges' := nodes[id := node], edges[id := {}][-id := {}];
    forall i | i in nodes'
      ensures i > 0 && i in edges' && -i in edges'
    {
      if i != id {
        assert i in nodes;
      }
    }
    forall k | k in edges'
      ensures (k > 0 && k in nodes') || (k < 0 && -k in nodes')
    {
      if k != id && k != -id {
        assert k in edges;
      }
    }
  }

  /** A new key with an empty set adds no entry. */
  lemma EntriesOfNewKey(m: Adjacency, k: int)
    requires k !in m
    ensures Entries(m[k := {}]) == Entries(m)
  {
    var m' := m[k := {}];
    forall e | e in Entries(m)
      ensures e in Entries(m')
    {
      assert e.0 in m' && e.1 in m'[e.0];
    }
  }

  class GenomeGraph {
    var nodes: map<int, GenomeNode>
    var edges: Adjacency

    ghost predicate Valid()
      reads this
    {
      ValidGraph(nodes, edges)
    }

    constructor ()
      ensures nodes == map[] && edges == map[]
      ensures Valid()
    {
      nodes := map[];
      edges := map[];
    }

    /** nNodes; in a valid graph it is half the number of adjacency keys. */
    function NNodes(): (r: nat)
      reads this
      ensures ValidGraph(nodes, edges) ==> |edges| == 2 * r
    {
      KeysPerNode(nodes, edges);
      |nodes|
    }

    /**
     * nEdges: half the number of adjacency entries (true division).  Each
     * link is stored twice, once per strand, so the count is whole unless
     * some contig links to its own reverse complement.
     */
    function NEdges(): (r: real)
      reads this
      ensures r * 2.0 == |Entries(edges)| as real
      ensures TwinClosed(Entries(edges)) && (forall s :: s in edges ==> -s !in edges[s]) ==>
                r == (|Entries(edges)| / 2) as real
    {
      WholeEdgeCount(edges);
      var n := |Entries(edges)|;
      assert n % 2 == 0 ==> (n as real) / 2.0 == (n / 2) as real;
      (n as real) / 2.0
    }

    /**
     * add_node: the new id is one more than the largest id (1 in an empty
     * graph), both strands get an empty adjacency set, and a node equal to
     * an existing one is still added (the duplicate is only reported).
     */
    method AddNode(nodeName: string, nodeSeq: string) returns (nodeId: int, duplicate: bool)
      modifies this
      ensures duplicate <==> GenomeNode(nodeSeq, nodeName) in old(nodes).Values
      ensures nodeId !in old(nodes)
      ensures |old(nodes)| == 0 ==> nodeId == 1
      ensures |old(nodes)| > 0 ==> nodeId - 1 in old(nodes) && forall k :: k in old(nodes) ==> k < nodeId
      ensures nodes == old(nodes)[nodeId := GenomeNode(nodeSeq, nodeName)]
      ensures edges == old(edges)[nodeId := {}][-nodeId := {}]
      ensures old(Valid()) ==> Valid() && Entries(edges) == Entries(old(edges)) && |nodes| == |old(nodes)| + 1
    {
      var newNode := GenomeNode(nodeSeq, nodeName);
      duplicate := newNode in nodes.Values;
      nodeId := NextId(nodes.Keys);
      if ValidGraph(nodes, edges) {
        AddNodeKeepsValid(nodes, edges, nodeId, newNode);
      }
      nodes := nodes[nodeId := newNode];
      edges := edges[nodeId := {}][-nodeId := {}];
    }

    /**
     * add_edge: dst goes into edges[src], then -src into edges[-dst].  A
     * missing src raises before any change; a missing -dst raises after
     * the first insertion, which stays.
     */
    method AddEdge(src: int, dst: int) returns (ok: bool)
      modifies this`edges
      ensures ok <==> src in old(edges) && -dst in old(edges)
      ensures src !in old(edges) ==> edges == old(edges)
      ensures src in old(edges) && -dst !in old(edges) ==> edges == AddEntry(old(edges), src, dst)
      ensures ok ==> edges == AddEntry(AddEntry(old(edges), src, dst), -dst, -src)
      ensures ok && old(Valid()) ==>
                && Valid()
                && Entries(edges) == Entries(old(edges)) + {(src, dst), (-dst, -src)}
    {
      if src !in edges {
        ok := false;
        return;
      }
      edges := AddEntry(edges, src, dst);
      if -dst !in edges {
        ok := false;
        return;
      }
      edges := AddEntry(edges, -dst, -src);
      ok := true;
      if old(Valid()) {
        AddTwinsKeepsSymmetry(old(edges), src, dst);
      }
    }

    /** rem_edge: remove dst from edges[src] and then -src from edges[-dst]; a KeyError stops it. */
    method RemEdge(src: int, dst: int)
      modifies this`edges
      ensures edges == RemoveTwins(old(edges), src, dst)
      ensures edges.Keys == old(edges).Keys
      ensures Entries(edges) == if (src, dst) in Entries(old(edges))
                                then Entries(old(edges)) - {(src, dst), (-dst, -src)}
                                else Entries(old(edges))
      ensures TwinClosed(Entries(old(edges))) ==> TwinClosed(Entries(edges))
    {
      if src in edges && dst in edges[src] {
        edges := edges[src := edges[src] - {dst}];
        if -dst in edges && -src in edges[-dst] {
          edges := edges[-dst := edges[-dst] - {-src}];
        }
      }
      EntriesOfRemoveTwins(old(edges), src, dst);
      if TwinClosed(Entries(old(edges))) {
        RemoveTwinsKeepsSymmetry(old(edges), src, dst);
      }
    }

    /**
     * rem_node: pop the node, then rem_edge every link into the node on
     * either strand (each also drops the twin leaving the node), then pop
     * both adjacency keys.  An id without adjacency raises KeyError; a
     * negative id strips the contig's links but leaves the node itself.
     */
    method RemNode(nodeId: int) returns (ok: bool)
      requires Valid()
      modifies this
      ensures ok <==> nodeId in old(edges)
      ensures !ok ==> nodes == old(nodes) && edges == old(edges)
      ensures ok ==> nodes == old(nodes) - {nodeId} && edges == StripNode(old(edges), nodeId)
      ensures ok ==> Entries(edges) == Untouched(Entries(old(edges)), nodeId)
      ensures ok ==> (Valid() <==> nodeId > 0)
    {
      nodes := nodes - {nodeId};
      if nodeId !in edges {
        ok := false;
        return;
      }
      ghost var e0 := edges;
      Sweep(-nodeId);
      ghost var e1 := edges;
      Sweep(nodeId);
      TwoSweepsStrip(e0, e1, edges, nodeId);
      edges := edges - {nodeId};
      edges := edges - {-nodeId};
      EntriesOfStrip(e0, nodeId);
      StripValidIff(old(nodes), e0, nodeId);
      ok := true;
    }

    /**
     * One of rem_node's loops: rem_edge(-n, a) for every n of a copy of
     * edges[-a], taken before the loop changes it.
     */
    method Sweep(a: int)
      requires -a in edges && TwinClosed(Entries(edges))
      modifies this`edges
      ensures edges.Keys == old(edges).Keys
      ensures Entries(edges) == Entries(old(edges)) - Cut(old(edges)[-a], a)
      ensures TwinClosed(Entries(edges))
    {
      ghost var start, keys := Entries(edges), edges.Keys;
      var ns := edges[-a];
      ghost var all, done: set<int> := ns, {};
      while ns != {}
        invariant edges.Keys == keys
        invariant ns <= all && done == all - ns
        invariant Entries(edges) == start - Cut(done, a)
        invariant TwinClosed(Entries(edges))
        decreases |ns|
      {
        var n := Pick(ns);
        SweepStep(edges, start, done, n, a);
        RemEdge(-n, a);
        Visit(all, ns, done, n);
        ns := ns - {n};
        done := done + {n};
      }
      VisitedAll(all, ns, done);
    }
  }
}
