/**
 * The older interface of the package. It has the same automaton as the
 * library, with two differences. An edge is a record whose endpoint
 * fields the node replacement overwrites in place. The conversion reports
 * no errors: it answers "" where the library reports one.
 *
 * The conversion works on a shallow copy, whose edge records are the
 * caller's. Rewriting them in place therefore reaches the caller's
 * automaton, and NFA2Regex states exactly how.
 */
module Legacy {
  import opened Combinators
  import opened Graph
  import opened Conversion
  import opened Multiples
  import A = Automaton

  /** An edge record, whose endpoints the node replacement overwrites. */
  class Edge {
    var srcNode: A.Node
    var dstNode: A.Node
    const value: string

    constructor (srcNode: A.Node, dstNode: A.Node, value: string)
      ensures this.srcNode == srcNode && this.dstNode == dstNode && this.value == value
    {
      this.srcNode := srcNode;
      this.dstNode := dstNode;
      this.value := value;
    }
  }

  /** The records of an edge list, as a set. */
  ghost function RecordSet(es: seq<Edge>): set<Edge>
  {
    set e | e in es
  }

  /** The edge a record holds now, as a value. */
  function ArcOf(e: Edge): A.Edge
    reads e
  {
    Arc(e.srcNode, e.dstNode, e.value)
  }

  /** The edges the records hold now, in order. */
  function Snap(es: seq<Edge>): (r: seq<A.Edge>)
    reads es
    ensures |r| == |es|
  {
    seq(|es|, i reads es requires 0 <= i < |es| => ArcOf(es[i]))
  }

  lemma {:induction false} SnapAt(es: seq<Edge>, i: nat)
    requires i < |es|
    ensures Snap(es)[i] == ArcOf(es[i])
    decreases |es|
  {
    if i < |es| - 1 {
      SnapAt(es[..|es| - 1], i);
    }
  }

  /** The snapshot, read off record by record. */
  lemma SnapPointwise(es: seq<Edge>)
    ensures forall i | 0 <= i < |es| :: Snap(es)[i] == Arc(es[i].srcNode, es[i].dstNode, es[i].value)
  {
    forall i | 0 <= i < |es| ensures Snap(es)[i] == Arc(es[i].srcNode, es[i].dstNode, es[i].value) {
      SnapAt(es, i);
    }
  }

  /** Every snapshot of edges into `name` ends at a node named `name`. */
  lemma SnapInto(es: seq<Edge>, name: string)
    requires forall e | e in es :: e.dstNode.name == name
    ensures forall a | a in Snap(es) :: a.dst.name == name
  {
    forall a | a in Snap(es) ensures a.dst.name == name {
      var k :| 0 <= k < |es| && Snap(es)[k] == a;
      SnapAt(es, k);
      assert es[k] in es;
    }
  }

  /** A sequence that agrees with every record is the snapshot. */
  lemma SnapIs(es: seq<Edge>, r: seq<A.Edge>)
    requires |r| == |es|
    requires forall i | 0 <= i < |es| :: r[i] == Arc(es[i].srcNode, es[i].dstNode, es[i].value)
    ensures Snap(es) == r
  {
    SnapPointwise(es);
  }

  lemma SnapSnoc(es: seq<Edge>, e: Edge)
    ensures Snap(es + [e]) == Snap(es) + [ArcOf(e)]
  {
  }

  /** Points every endpoint that is `from` at `to`, record by record, in place. */
  method RewireRecords(es: seq<Edge>, from: A.Node?, to: A.Node)
    modifies es`srcNode, es`dstNode
    ensures forall e | e in es :: e.srcNode == (if old(e.srcNode) == from then to else old(e.srcNode))
    ensures forall e | e in es :: e.dstNode == (if old(e.dstNode) == from then to else old(e.dstNode))
  {
    ghost var done: set<Edge> := {};
    for i := 0 to |es|
      invariant done == set j | 0 <= j < i :: es[j]
      invariant forall e | e in es :: e.srcNode == (if e in done && old(e.srcNode) == from then to else old(e.srcNode))
      invariant forall e | e in es :: e.dstNode == (if e in done && old(e.dstNode) == from then to else old(e.dstNode))
    {
      var edge := es[i];
      if edge.srcNode == from {
        edge.srcNode := to;
      }
      if edge.dstNode == from {
        edge.dstNode := to;
      }
      done := done + {edge};
    }
  }

  /** A node record flagged initial or terminal. */
  predicate Flagged(n: A.Node)
    reads n
  {
    n.isInitial || n.isTerminal
  }

  /** The names carrying neither flag. */
  function UnflaggedNames(flags: map<string, Flags>): set<string>
  {
    set k | k in flags && flags[k] == Unflagged
  }

  /** Every name in `keep` is registered in `n0` and still to the same record in `n1`. */
  ghost predicate Keeps(keep: set<string>, n0: map<string, A.Node>, n1: map<string, A.Node>)
  {
    forall k | k in keep :: k in n0 && k in n1 && n1[k] == n0[k]
  }

  /**
   * An endpoint that was the record `was` is now `now`: a different record,
   * held nowhere in `ns`, when `flags` marks the name of `was` initial or
   * terminal, and `was` itself otherwise.
   */
  ghost predicate KeptEnd(was: A.Node, now: A.Node, ns: map<string, A.Node>, flags: map<string, Flags>)
  {
    if was.name in flags && flags[was.name] != Unflagged then now !in ns.Values else now == was
  }

  /** Position by position, the endpoints of `after` are those of `before` as `KeptEnd` describes. */
  ghost predicate Repointed(before: seq<A.Edge>, after: seq<A.Edge>, ns: map<string, A.Node>, flags: map<string, Flags>)
  {
    && |before| == |after|
    && forall i | 0 <= i < |before| ::
      KeptEnd(before[i].src, after[i].src, ns, flags) && KeptEnd(before[i].dst, after[i].dst, ns, flags)
  }

  class NFA {
    var nodes: map<string, A.Node>
    var edges: seq<Edge>
    /** The edge records this automaton may rewrite: at least those in `edges`. */
    ghost var records: set<Edge>

    /** Every node is registered under its name and every edge record joins registered nodes. */
    ghost predicate Valid()
      reads this, edges
    {
      A.NamedRight(nodes) && A.Registered(Snap(edges), nodes) && RecordSet(edges) <= records
    }

    /** The synthetic initial and terminal nodes are registered as these records. */
    ghost predicate SyntheticAre(initialNode: A.Node, terminalNode: A.Node)
      reads this`nodes
    {
      InitialName in nodes && nodes[InitialName] == initialNode
      && TerminalName in nodes && nodes[TerminalName] == terminalNode
    }

    /** The automaton seen by node names. */
    function Abs(): Nfa
      reads this, nodes.Values, edges
    {
      Nfa(NodeFlags(), A.Names(Snap(edges)))
    }

    function NodeFlags(): (r: map<string, Flags>)
      reads this`nodes, nodes.Values
      ensures r.Keys == nodes.Keys
    {
      map k | k in nodes :: Flags(nodes[k].isInitial, nodes[k].isTerminal)
    }

    /** Flags that agree with every registered record are the flag map. */
    lemma NodeFlagsIs(r: map<string, Flags>)
      requires r.Keys == nodes.Keys
      requires forall k | k in nodes :: r[k] == Flags(nodes[k].isInitial, nodes[k].isTerminal)
      ensures NodeFlags() == r
    {
    }

    function Lookup(name: string): (r: A.Node?)
      reads this
      ensures r != null <==> name in nodes
    {
      if name in nodes then nodes[name] else null
    }

    /** A new, empty automaton. */
    constructor ()
      ensures Valid()
      ensures nodes == map[] && edges == []
      ensures Abs() == Nfa(map[], [])
    {
      nodes := map[];
      edges := [];
      records := {};
    }

    /** The record named `name`, created with both flags false if it is missing. */
    method GetOrCreateNode(name: string) returns (node: A.Node)
      requires Valid()
      modifies this`nodes
      ensures Valid()
      ensures Abs() == GetOrCreate(old(Abs()), name)
      ensures nodes == old(nodes)[name := node] && edges == old(edges)
      ensures node.name == name
      ensures name in old(nodes) ==> node == old(nodes[name]) && nodes == old(nodes)
      ensures name !in old(nodes) ==> fresh(node)
      ensures forall k | k in nodes :: (k in old(nodes) && nodes[k] == old(nodes[k])) || fresh(nodes[k])
    {
      if name in nodes {
        node := nodes[name];
      } else {
        node := new A.Node(name, false, false);
        A.RegisteredGrow(Snap(edges), nodes, name, node);
        nodes := nodes[name := node];
      }
    }

    /** Appends a new record joining two registered nodes. */
    method AppendEdge(srcNode: A.Node, dstNode: A.Node, value: string)
      requires Valid()
      requires srcNode.name in nodes && nodes[srcNode.name] == srcNode
      requires dstNode.name in nodes && nodes[dstNode.name] == dstNode
      modifies this`edges, this`records
      ensures Valid()
      ensures |edges| == |old(edges)| + 1 && edges[..|old(edges)|] == old(edges)
      ensures fresh(edges[|old(edges)|]) && records == old(records) + {edges[|old(edges)|]}
      ensures ArcOf(edges[|old(edges)|]) == Arc(srcNode, dstNode, value)
      ensures Abs() == old(Abs()).(arcs := old(Abs()).arcs + [Arc(srcNode.name, dstNode.name, value)])
    {
      var edge := new Edge(srcNode, dstNode, value);
      ghost var s := Snap(edges);
      ghost var s' := Snap(edges + [edge]);
      assert s' == s + [ArcOf(edge)] by { SnapSnoc(edges, edge); }
      A.NamesSnoc(s, ArcOf(edge));
      A.RegisteredSnoc(s, ArcOf(edge), nodes);
      edges, records := edges + [edge], records + {edge};
      assert edges[..|edges| - 1] == old(edges);
      assert Snap(edges) == s';
    }

    /** Appends a new edge record; missing endpoints are created unflagged. */
    method AddEdge(srcName: string, dstName: string, value: string)
      requires Valid()
      modifies this
      ensures Valid()
      ensures Abs() == AddArc(old(Abs()), srcName, dstName, value)
      ensures nodes.Keys == old(nodes).Keys + {srcName, dstName}
      ensures nodes == old(nodes)[srcName := nodes[srcName]][dstName := nodes[dstName]]
      ensures srcName in old(nodes) ==> nodes[srcName] == old(nodes[srcName])
      ensures dstName in old(nodes) ==> nodes[dstName] == old(nodes[dstName])
      ensures srcName !in old(nodes) ==> fresh(nodes[srcName])
      ensures dstName !in old(nodes) ==> fresh(nodes[dstName])
      ensures |edges| == |old(edges)| + 1 && edges[..|old(edges)|] == old(edges)
      ensures fresh(edges[|old(edges)|]) && records == old(records) + {edges[|old(edges)|]}
      ensures ArcOf(edges[|old(edges)|]) == Arc(nodes[srcName], nodes[dstName], value)
      ensures forall k | k in nodes :: (k in old(nodes) && nodes[k] == old(nodes[k])) || fresh(nodes[k])
    {
      var srcNode, dstNode := GetOrCreateEnds(srcName, dstName);
      AppendEdge(srcNode, dstNode, value);
    }

    /** The records named `srcName` and `dstName`, each created unflagged if it is missing. */
    method GetOrCreateEnds(srcName: string, dstName: string) returns (srcNode: A.Node, dstNode: A.Node)
      requires Valid()
      modifies this`nodes
      ensures Valid() && edges == old(edges)
      ensures Abs() == GetOrCreate(GetOrCreate(old(Abs()), srcName), dstName)
      ensures nodes == old(nodes)[srcName := srcNode][dstName := dstNode]
      ensures srcName in nodes && nodes[srcName] == srcNode && dstName in nodes && nodes[dstName] == dstNode
      ensures srcName in old(nodes) ==> srcNode == old(nodes[srcName])
      ensures dstName in old(nodes) ==> dstNode == old(nodes[dstName])
      ensures srcName !in old(nodes) ==> fresh(srcNode)
      ensures dstName !in old(nodes) ==> fresh(dstNode)
      ensures forall k | k in nodes :: (k in old(nodes) && nodes[k] == old(nodes[k])) || fresh(nodes[k])
    {
      srcNode := GetOrCreateNode(srcName);
      dstNode := GetOrCreateNode(dstName);
    }

    /** Two new edge records out of `srcName`, as the construction of the multiples automaton adds them. */
    method AddEdgePair(srcName: string, dstName0: string, value0: string, dstName1: string, value1: string)
      requires Valid()
      modifies this
      ensures Valid()
      ensures Abs() == AddArc(AddArc(old(Abs()), srcName, dstName0, value0), srcName, dstName1, value1)
      ensures forall k | k in nodes :: (k in old(nodes) && nodes[k] == old(nodes[k])) || fresh(nodes[k])
    {
      AddEdge(srcName, dstName0, value0);
      AddEdge(srcName, dstName1, value1);
    }

    /** Flags the record registered under `name` initial, in place. */
    method MarkInitial(name: string)
      requires Valid() && name in nodes
      modifies nodes[name]
      ensures Valid() && Abs() == WithInitial(old(Abs()), name)
    {
      ghost var g: Nfa := Abs();
      var node := nodes[name];
      node.isInitial := true;
      NodeFlagsIs(g.nodes[name := g.nodes[name].(isInitial := true)]);
    }

    /** Flags the record registered under `name` terminal, in place. */
    method MarkTerminal(name: string)
      requires Valid() && name in nodes
      modifies nodes[name]
      ensures Valid() && Abs() == WithTerminal(old(Abs()), name)
    {
      ghost var g: Nfa := Abs();
      var node := nodes[name];
      node.isTerminal := true;
      NodeFlagsIs(g.nodes[name := g.nodes[name].(isTerminal := true)]);
    }

    /** One round of the construction loop of the multiples automaton. */
    method AddRound(n: int, i: nat)
      requires Valid() && 0 <= i < n && Abs() == MultiplesLoop(n, i)
      requires "start" !in nodes
      modifies this
      ensures Valid() && Abs() == MultiplesLoop(n, i + 1)
      ensures "start" !in nodes
      ensures forall k | k in nodes :: (k in old(nodes) && nodes[k] == old(nodes[k])) || fresh(nodes[k])
    {
      ItoaNotStart(i);
      ItoaNotStart((2 * i) % n);
      ItoaNotStart((2 * i + 1) % n);
      AddEdgePair(Itoa(i), Itoa((2 * i) % n), "0", Itoa((2 * i + 1) % n), "1");
    }

    /**
     * Registers `newNode` under `name` and, in every edge record, overwrites
     * an endpoint that was the record previously registered there with
     * `newNode`. The edge records themselves are kept.
     */
    method ReplaceNode(name: string, newNode: A.Node)
      requires Valid()
      requires newNode.name == name
      modifies this`nodes, RecordSet(edges)
      ensures Valid()
      ensures Abs() == SetFlags(old(Abs()), name, Flags(newNode.isInitial, newNode.isTerminal))
      ensures nodes == old(nodes)[name := newNode] && edges == old(edges)
      ensures forall e | e in edges ::
        && e.srcNode == (if old(e.srcNode) == old(Lookup(name)) then newNode else old(e.srcNode))
        && e.dstNode == (if old(e.dstNode) == old(Lookup(name)) then newNode else old(e.dstNode))
    {
      ghost var g0 := Abs();
      ghost var s0 := Snap(edges);
      SnapPointwise(edges);
      ghost var n0 := nodes;
      var oldNode := Lookup(name);
      Register(name, newNode);
      ghost var flags := NodeFlags();
      RewireRecords(edges, oldNode, newNode);
      forall j | 0 <= j < |s0| ensures Arc(edges[j].srcNode, edges[j].dstNode, edges[j].value) == A.Rewire(s0[j], oldNode, newNode) {
        assert edges[j] in edges;
      }
      NodeFlagsIs(flags);
      RewiredValid(s0, n0, name, oldNode, newNode);
    }

    /** Registers `newNode` under `name`, in place of any record there. */
    method Register(name: string, newNode: A.Node)
      modifies this`nodes
      ensures nodes == old(nodes)[name := newNode]
      ensures NodeFlags() == old(NodeFlags())[name := Flags(newNode.isInitial, newNode.isTerminal)]
    {
      nodes := nodes[name := newNode];
    }

    /** Edge records rewired from `oldNode` to `newNode` keep their names and stay registered once `newNode` replaces it. */
    lemma RewiredValid(s0: seq<A.Edge>, n0: map<string, A.Node>, name: string, oldNode: A.Node?, newNode: A.Node)
      requires A.NamedRight(n0) && A.Registered(s0, n0) && newNode.name == name
      requires oldNode == (if name in n0 then n0[name] else null)
      requires nodes == n0[name := newNode] && |edges| == |s0| && RecordSet(edges) <= records
      requires forall j | 0 <= j < |s0| :: Arc(edges[j].srcNode, edges[j].dstNode, edges[j].value) == A.Rewire(s0[j], oldNode, newNode)
      ensures Valid() && A.Names(Snap(edges)) == A.Names(s0)
    {
      var s1 := seq(|s0|, j requires 0 <= j < |s0| => A.Rewire(s0[j], oldNode, newNode));
      SnapIs(edges, s1);
      A.RegisteredRewire(s0, n0, name, newNode, s1);
    }

    /** Deletes the record named `name` and every edge record touching it; the others keep their order. */
    method RemoveNode(name: string)
      requires Valid()
      modifies this`nodes, this`edges
      ensures Valid()
      ensures Abs() == Graph.RemoveNode(old(Abs()), name)
      ensures nodes == old(nodes) - {name}
      ensures name in old(nodes) ==> Snap(edges) == Avoiding(old(Snap(edges)), old(nodes)[name])
      ensures name !in old(nodes) ==> edges == old(edges)
    {
      ghost var g0 := Abs();
      ghost var s := Snap(edges);
      A.FilterByName(s, nodes, name);
      A.RegisteredRemove(s, nodes, name);
      var node := Lookup(name);
      var newEdges := EdgesAvoiding(node);
      Unregister(name, newEdges);
    }

    /** Drops the record named `name` and keeps the edge records `newEdges`. */
    method Unregister(name: string, newEdges: seq<Edge>)
      modifies this`nodes, this`edges
      ensures nodes == old(nodes) - {name} && edges == newEdges
      ensures NodeFlags() == old(NodeFlags()) - {name} && Snap(edges) == old(Snap(newEdges))
    {
      nodes, edges := nodes - {name}, newEdges;
    }

    /** The edge records that touch neither endpoint `node` (all of them when there is no such record), in order. */
    method EdgesAvoiding(node: A.Node?) returns (newEdges: seq<Edge>)
      ensures node != null ==> Snap(newEdges) == Avoiding(old(Snap(edges)), node)
      ensures node == null ==> newEdges == edges
      ensures RecordSet(newEdges) <= RecordSet(edges)
    {
      var es := edges;
      ghost var s := Snap(es);
      newEdges := [];
      for i := 0 to |es|
        invariant node != null ==> Snap(newEdges) == Avoiding(s[..i], node)
        invariant node == null ==> newEdges == es[..i]
        invariant RecordSet(newEdges) <= RecordSet(es)
      {
        var edge := es[i];
        SnapAt(es, i);
        TakeSnoc(s, i);
        TakeSnoc(es, i);
        if node != null {
          AvoidingSnoc(s[..i], ArcOf(edge), node);
        }
        if !(edge.srcNode == node || edge.dstNode == node) {
          SnapSnoc(newEdges, edge);
          newEdges := newEdges + [edge];
        }
      }
      assert s[..|es|] == s;
      assert es[..|es|] == es;
    }

    /** The edge records into `name`, in edge-list order. */
    method EdgesIn(name: string) returns (res: seq<Edge>)
      requires Valid()
      ensures A.Names(Snap(res)) == Into(old(Abs()).arcs, name)
      ensures name in nodes ==> Snap(res) == Into(old(Snap(edges)), nodes[name])
      ensures name !in nodes ==> res == []
      ensures forall e | e in res :: e in edges && e.dstNode.name == name
    {
      var node := Lookup(name);
      ghost var s := Snap(edges);
      res := [];
      for i := 0 to |edges|
        invariant node != null ==> Snap(res) == Into(s[..i], node)
        invariant node == null ==> res == []
        invariant forall e | e in res :: e in edges && e.dstNode == node
      {
        var edge := edges[i];
        SnapAt(edges, i);
        TakeSnoc(s, i);
        if node != null {
          IntoSnoc(s[..i], ArcOf(edge), node);
        }
        if edge.dstNode == node {
          SnapSnoc(res, edge);
          res := res + [edge];
        }
      }
      assert s[..|edges|] == s;
      A.FilterByName(s, nodes, name);

    }

    /** The edge records out of `name`, in edge-list order. */
    method EdgesOut(name: string) returns (res: seq<Edge>)
      requires Valid()
      ensures A.Names(Snap(res)) == OutOf(old(Abs()).arcs, name)
      ensures name in nodes ==> Snap(res) == OutOf(old(Snap(edges)), nodes[name])
      ensures name !in nodes ==> res == []
      ensures forall e | e in res :: e in edges && e.srcNode.name == name
    {
      var node := Lookup(name);
      ghost var s := Snap(edges);
      res := [];
      for i := 0 to |edges|
        invariant node != null ==> Snap(res) == OutOf(s[..i], node)
        invariant node == null ==> res == []
        invariant forall e | e in res :: e in edges && e.srcNode == node
      {
        var edge := edges[i];
        SnapAt(edges, i);
        TakeSnoc(s, i);
        if node != null {
          OutOfSnoc(s[..i], ArcOf(edge), node);
        }
        if edge.srcNode == node {
          SnapSnoc(res, edge);
          res := res + [edge];
        }
      }
      assert s[..|edges|] == s;
      A.FilterByName(s, nodes, name);

    }

    /** A new automaton sharing this one's node records and edge records. */
    method ShallowCopy() returns (res: NFA)
      requires Valid()
      ensures fresh(res)
      ensures res.nodes == nodes && res.edges == edges && res.records == RecordSet(edges)
      ensures res.Valid() && res.Abs() == Abs()
    {
      res := new NFA();
      var unvisited := nodes.Keys;
      while unvisited != {}
        invariant fresh(res) && res.edges == []
        invariant unvisited <= nodes.Keys
        invariant res.nodes == map k | k in nodes && k !in unvisited :: nodes[k]
        decreases unvisited
      {
        var key :| key in unvisited;
        res.nodes := res.nodes[key := nodes[key]];
        unvisited := unvisited - {key};
      }
      res.edges := edges;
      res.records := RecordSet(edges);
    }

    // -------------------------------------------------------------------
    // The conversion, on the working copy
    // -------------------------------------------------------------------

    /**
     * The normalisation loop, visiting the nodes in `order`: each initial
     * node gets an epsilon edge from the synthetic initial node and each
     * terminal node one to the synthetic terminal node, and the node is
     * replaced by an unflagged record, which rewrites every edge record
     * that pointed at it. A flagged node of `g` ends up registered as a
     * new record; every other node keeps its record.
     */
    method AddSyntheticEdges(order: seq<string>, ghost g: Nfa, ghost initialNode: A.Node, ghost terminalNode: A.Node)
      requires Valid() && UserNfa(g) && Abs() == Prepare(g)
      requires IsOrdering(order, Prepare(g).nodes.Keys)
      requires SyntheticAre(initialNode, terminalNode)
      modifies this, records
      ensures Valid()
      ensures Abs() == Normalize(Prepare(g), order)
      ensures old(edges) <= edges
      ensures SyntheticAre(initialNode, terminalNode)
      ensures Keeps(UnflaggedNames(g.nodes), old(nodes), nodes)
    {
      ghost var edges0, records0, nodes0 := edges, records, nodes;
      assert Keeps(UnflaggedNames(g.nodes), nodes0, nodes) by {
        assert forall k | k in g.nodes :: k in NodeFlags();
      }
      for i := 0 to |order|
        invariant Valid() && Abs() == Normalize(Prepare(g), order[..i])
        invariant edges0 <= edges
        invariant SyntheticAre(initialNode, terminalNode)
        invariant records0 <= records && fresh(records - records0)
        invariant Keeps(UnflaggedNames(g.nodes), nodes0, nodes)
      {
        NormalizeAt(order, i, g, initialNode, terminalNode, nodes0);
      }
      assert order[..|order|] == order;
    }

    /** The normalisation loop at position `i` of `order`, as Normalize takes it one node further. */
    method NormalizeAt(order: seq<string>, i: nat, ghost g: Nfa, ghost initialNode: A.Node, ghost terminalNode: A.Node,
                       ghost n0: map<string, A.Node>)
      requires UserNfa(g) && IsOrdering(order, Prepare(g).nodes.Keys) && i < |order|
      requires Valid() && Abs() == Normalize(Prepare(g), order[..i])
      requires SyntheticAre(initialNode, terminalNode)
      requires Keeps(UnflaggedNames(g.nodes), n0, nodes)
      modifies this, records
      ensures Valid() && Abs() == Normalize(Prepare(g), order[..i + 1])
      ensures |edges| >= |old(edges)| && edges[..|old(edges)|] == old(edges)
      ensures SyntheticAre(initialNode, terminalNode)
      ensures old(records) <= records && fresh(records - old(records))
      ensures Keeps(UnflaggedNames(g.nodes), n0, nodes)
    {
      NormalizeVisit(g, order, i);
      var wasInitial, wasTerminal := NormalizeNode(order[i]);
      assert order[i] in UnflaggedNames(g.nodes) ==> !wasInitial && !wasTerminal;
    }

    /**
     * One iteration of the normalisation loop. The flags tested are the
     * ones the node's record had on entry.
     */
    method NormalizeNode(name: string) returns (wasInitial: bool, wasTerminal: bool)
      requires Valid() && name in nodes && InitialName in nodes && TerminalName in nodes
      modifies this, records
      ensures Valid()
      ensures Abs() == NormStep(old(Abs()), name)
      ensures wasInitial == old(Abs()).nodes[name].isInitial
      ensures wasTerminal == old(Abs()).nodes[name].isTerminal
      ensures nodes.Keys == old(nodes).Keys
      ensures forall k | k in nodes && k != name :: nodes[k] == old(nodes[k])
      ensures !wasInitial && !wasTerminal ==> nodes == old(nodes)
      ensures |edges| >= |old(edges)| && edges[..|old(edges)|] == old(edges)
      ensures old(records) <= records && fresh(records - old(records))
    {
      var node := nodes[name];
      wasInitial, wasTerminal := node.isInitial, node.isTerminal;
      ghost var m := Abs();
      EpsilonIf(node.isInitial, InitialName, name, name);
      assert Abs() == if wasInitial then SetFlags(AddArc(m, InitialName, name, ""), name, Unflagged) else m;
      EpsilonIf(node.isTerminal, name, TerminalName, name);
    }

    /** The epsilon edge and the new unflagged record for `name` when `flagged` holds; nothing otherwise. */
    method EpsilonIf(flagged: bool, srcName: string, dstName: string, name: string)
      requires Valid() && srcName in nodes && dstName in nodes && name in nodes
      modifies this, records
      ensures Valid()
      ensures Abs() == if flagged then SetFlags(AddArc(old(Abs()), srcName, dstName, ""), name, Unflagged) else old(Abs())
      ensures nodes.Keys == old(nodes).Keys
      ensures forall k | k in nodes && k != name :: nodes[k] == old(nodes[k])
      ensures !flagged ==> nodes == old(nodes)
      ensures |edges| >= |old(edges)| && edges[..|old(edges)|] == old(edges)
      ensures old(records) <= records && fresh(records - old(records))
    {
      if flagged {
        AddEpsilonEdge(srcName, dstName, name);
        assert edges == old(edges) + [edges[|old(edges)|]];
      }
    }

    /** An epsilon edge from `srcName` to `dstName`, after which `name` is registered as a new, unflagged record. */
    method AddEpsilonEdge(srcName: string, dstName: string, name: string)
      requires Valid() && srcName in nodes && dstName in nodes && name in nodes
      modifies this, records
      ensures Valid()
      ensures Abs() == SetFlags(AddArc(old(Abs()), srcName, dstName, ""), name, Unflagged)
      ensures nodes == old(nodes)[name := nodes[name]] && fresh(nodes[name])
      ensures |edges| == |old(edges)| + 1 && edges[..|old(edges)|] == old(edges)
      ensures fresh(edges[|old(edges)|]) && records == old(records) + {edges[|old(edges)|]}
    {
      AddEdge(srcName, dstName, "");
      assert nodes == old(nodes);
      assert edges == old(edges) + [edges[|old(edges)|]];
      Unflag(name);
    }

    /** Registers a new, unflagged record under `name`, which rewrites every edge record that pointed at the old one. */
    method Unflag(name: string)
      requires Valid()
      modifies this`nodes, records
      ensures Valid()
      ensures Abs() == SetFlags(old(Abs()), name, Unflagged)
      ensures nodes == old(nodes)[name := nodes[name]] && fresh(nodes[name])
      ensures edges == old(edges)
    {
      var unflagged := new A.Node(name, false, false);
      ReplaceNode(name, unflagged);
    }

    /** Looks up or creates the synthetic initial and terminal nodes. */
    method CreateSynthetic() returns (initialNode: A.Node, terminalNode: A.Node)
      requires Valid()
      modifies this`nodes
      ensures Valid() && Abs() == Prepare(old(Abs())) && edges == old(edges)
      ensures InitialName in nodes && nodes[InitialName] == initialNode
      ensures TerminalName in nodes && nodes[TerminalName] == terminalNode
      ensures InitialName !in old(nodes) ==> fresh(initialNode)
      ensures TerminalName !in old(nodes) ==> fresh(terminalNode)
      ensures forall k | k in old(nodes) :: k in nodes && nodes[k] == old(nodes)[k]
    {
      initialNode := GetOrCreateNode(InitialName);
      terminalNode := GetOrCreateNode(TerminalName);
    }

    /** Flags the two synthetic nodes, after the normalisation loop. */
    method FlagSynthetic(initialNode: A.Node, terminalNode: A.Node)
      requires Valid()
      requires InitialName in nodes && nodes[InitialName] == initialNode
      requires TerminalName in nodes && nodes[TerminalName] == terminalNode
      modifies initialNode`isInitial, terminalNode`isTerminal
      ensures Valid()
      ensures Abs() == MarkSynthetic(old(Abs()))
    {
      initialNode.isInitial := true;
      terminalNode.isTerminal := true;
    }

    /**
     * Creates the synthetic initial and terminal nodes, links them to the
     * initial and terminal nodes of `g` by epsilon edges and flags them.
     */
    method Normalise(normOrder: seq<string>, ghost g: Nfa) returns (initialNode: A.Node, terminalNode: A.Node)
      requires Valid() && Abs() == g && UserNfa(g)
      requires IsOrdering(normOrder, Prepare(g).nodes.Keys)
      modifies this, records
      ensures Valid() && Abs() == Normalized(g, normOrder)
      ensures InitialName in nodes && nodes[InitialName] == initialNode
      ensures TerminalName in nodes && nodes[TerminalName] == terminalNode
      ensures old(edges) <= edges
      ensures Keeps(UnflaggedNames(g.nodes), old(nodes), nodes)
    {
      ghost var n0 := nodes;
      initialNode, terminalNode := CreateSynthetic();
      ghost var n1 := nodes;
      AddSyntheticEdges(normOrder, g, initialNode, terminalNode);
      assert Keeps(UnflaggedNames(g.nodes), n0, nodes) by {
        assert forall k | k in UnflaggedNames(g.nodes) :: k in n0 && n1[k] == n0[k];
      }
      FlagSynthetic(initialNode, terminalNode);
    }

    /**
     * Eliminates `name`: for every edge into it that is not a self-loop and
     * every edge out of it that is not a self-loop, adds an edge labelled
     * in + (self-loops, starred) + out, then removes the node.
     */
    method EliminateNode(name: string)
      requires Valid() && name in nodes
      modifies this
      ensures Valid()
      ensures Abs() == Eliminate(old(Abs()), name)
      ensures nodes == old(nodes) - {name}
    {
      AddBypassFor(name);
      RemoveNode(name);
    }

    /** The first half of EliminateNode: the bypass edges round `name`, labelled across its self-loops. */
    method AddBypassFor(name: string)
      requires Valid() && name in nodes
      modifies this
      ensures Valid() && nodes == old(nodes)
      ensures var ins := Into(old(Abs()).arcs, name);
        Abs() == old(Abs()).(arcs := old(Abs()).arcs + Bypass(ins, OutOf(old(Abs()).arcs, name), LoopLabel(ins)))
    {
      ghost var g0 := Abs();
      var inEdges := EdgesIn(name);
      ghost var ins := Into(g0.arcs, name);
      var kleenStarMiddle := LoopLabelOf(inEdges);
      assert A.Names(Snap(inEdges)) == ins && kleenStarMiddle == LoopLabel(ins);
      assert Abs() == g0;
      AddBypassEdges(name, inEdges, kleenStarMiddle, ins);
    }

    /**
     * The label standing for any number of turns round the self-loops among
     * `inEdges`: their labels alternated and starred.
     */
    method LoopLabelOf(inEdges: seq<Edge>) returns (kleenStarMiddle: string)
      requires Valid()
      requires forall e | e in inEdges :: e in edges
      ensures kleenStarMiddle == LoopLabel(A.Names(Snap(inEdges)))
    {
      ghost var ins := Snap(inEdges);
      RegisteredMembers(inEdges);
      var kleenStarValues: seq<string> := [];
      for j := 0 to |inEdges|
        invariant kleenStarValues == LoopValues(A.Names(ins[..j]))
      {
        var inEdge := inEdges[j];
        assert ins[j] == ArcOf(inEdge);
        assert A.Registered([ins[j]], nodes) by { assert ins[j] in ins; }
        A.LoopValuesStep(ins, j, nodes);
        if inEdge.srcNode == inEdge.dstNode {
          kleenStarValues := kleenStarValues + [inEdge.value];
        }
      }
      assert ins[..|inEdges|] == ins;
      kleenStarMiddle := AddKleenStar(OrJoin(kleenStarValues), |kleenStarValues| > 1);
    }

    /** The bypass edges of all edges into `name`, in edge-list order. */
    method AddBypassEdges(name: string, inEdges: seq<Edge>, mid: string, ghost ins: seq<Arc<string>>)
      requires Valid() && name in nodes
      requires forall e | e in inEdges :: e in edges && e.dstNode.name == name
      requires ins == A.Names(Snap(inEdges))
      modifies this
      ensures Valid() && nodes == old(nodes)
      ensures Abs() == old(Abs()).(arcs := old(Abs()).arcs + Bypass(ins, OutOf(old(Abs()).arcs, name), mid))
    {
      ghost var g0 := Abs();
      ghost var outs := OutOf(g0.arcs, name);
      ghost var snap := Snap(inEdges);
      RegisteredMembers(inEdges);
      SnapInto(inEdges, name);
      for j := 0 to |inEdges|
        invariant Valid() && nodes == old(nodes)
        invariant Abs() == g0.(arcs := g0.arcs + Bypass(A.Names(snap[..j]), outs, mid))
      {
        AddBypassAt(name, inEdges, j, mid, g0, snap, outs);
      }
      assert snap[..|inEdges|] == snap;
    }

    /** One turn of the loop in `AddBypassEdges`: the bypass edges of `inEdges[j]` extend the prefix by one. */
    method AddBypassAt(name: string, inEdges: seq<Edge>, j: nat, mid: string,
                       ghost g0: Nfa, ghost snap: seq<A.Edge>, ghost outs: seq<Arc<string>>)
      requires Valid() && j < |inEdges| && snap == Snap(inEdges)
      requires A.Registered(snap, nodes) && forall a | a in snap :: a.dst.name == name
      requires outs == OutOf(g0.arcs, name)
      requires Abs() == g0.(arcs := g0.arcs + Bypass(A.Names(snap[..j]), outs, mid))
      modifies this
      ensures Valid() && nodes == old(nodes)
      ensures Abs() == g0.(arcs := g0.arcs + Bypass(A.Names(snap[..j + 1]), outs, mid))
    {
      var inEdge := inEdges[j];
      SnapAt(inEdges, j);
      assert A.Registered([snap[j]], nodes) by { assert snap[j] in snap; }
      A.BypassPrefix(g0.arcs, snap, j, outs, mid);
      A.BypassKeepsOutOf(g0.arcs, snap[..j], outs, mid, name);
      AddBypassEdge(name, inEdge, mid, outs);
    }

    /** The bypass edges of `inEdge`, unless it is a self-loop. */
    method AddBypassEdge(name: string, inEdge: Edge, mid: string, ghost outs: seq<Arc<string>>)
      requires Valid() && A.Registered([ArcOf(inEdge)], nodes)
      requires OutOf(Abs().arcs, name) == outs
      modifies this
      ensures Valid() && nodes == old(nodes)
      ensures Abs() == old(Abs()).(arcs := old(Abs()).arcs +
        if IsLoop(A.NameOf()(ArcOf(inEdge))) then [] else Fan(A.NameOf()(ArcOf(inEdge)), outs, mid))
    {
      assert ArcOf(inEdge) in [ArcOf(inEdge)];
      if inEdge.srcNode != inEdge.dstNode {
        AddFanEdges(name, inEdge, mid);
      }
    }

    /** The bypass edges of one edge into `name`, one per edge out of `name` that is not a self-loop. */
    method AddFanEdges(name: string, inEdge: Edge, mid: string)
      requires Valid()
      requires inEdge.srcNode.name in nodes && nodes[inEdge.srcNode.name] == inEdge.srcNode
      modifies this
      ensures Valid() && nodes == old(nodes)
      ensures Abs() == old(Abs()).(arcs := old(Abs()).arcs + Fan(A.NameOf()(ArcOf(inEdge)), OutOf(old(Abs()).arcs, name), mid))
    {
      ghost var g0 := Abs();
      var outEdges := EdgesOut(name);
      ghost var outs := Snap(outEdges);
      ghost var inArc := ArcOf(inEdge);
      RegisteredMembers(outEdges);
      assert Abs() == g0;
      for m := 0 to |outEdges|
        invariant Valid() && nodes == old(nodes) && ArcOf(inEdge) == inArc
        invariant Abs() == g0.(arcs := g0.arcs + Fan(A.NameOf()(inArc), A.Names(outs[..m]), mid))
      {
        AddFanAt(inEdge, outEdges, m, mid, g0, outs, inArc);
      }
      assert outs[..|outEdges|] == outs;
    }

    /** One turn of the loop in `AddFanEdges`: the edge across `outEdges[m]` extends the prefix by one. */
    method AddFanAt(inEdge: Edge, outEdges: seq<Edge>, m: nat, mid: string,
                    ghost g0: Nfa, ghost outs: seq<A.Edge>, ghost inArc: A.Edge)
      requires Valid() && m < |outEdges| && outs == Snap(outEdges) && A.Registered(outs, nodes)
      requires inArc == ArcOf(inEdge) && inEdge.srcNode.name in nodes
      requires Abs() == g0.(arcs := g0.arcs + Fan(A.NameOf()(inArc), A.Names(outs[..m]), mid))
      modifies this
      ensures Valid() && nodes == old(nodes) && ArcOf(inEdge) == inArc
      ensures Abs() == g0.(arcs := g0.arcs + Fan(A.NameOf()(inArc), A.Names(outs[..m + 1]), mid))
    {
      var outEdge := outEdges[m];
      SnapAt(outEdges, m);
      assert A.Registered([outs[m]], nodes) by { assert outs[m] in outs; }
      A.FanPrefix(g0.arcs, inArc, outs, m, mid);
      AddFanEdge(inEdge, outEdge, mid);
    }

    /** The bypass edge from `inEdge` across `outEdge`, unless `outEdge` is a self-loop. */
    method AddFanEdge(inEdge: Edge, outEdge: Edge, mid: string)
      requires Valid()
      requires inEdge.srcNode.name in nodes
      requires A.Registered([ArcOf(outEdge)], nodes)
      modifies this
      ensures Valid() && nodes == old(nodes)
      ensures Abs() == old(Abs()).(arcs := old(Abs()).arcs +
        if IsLoop(A.NameOf()(ArcOf(outEdge))) then []
        else [Arc(inEdge.srcNode.name, outEdge.dstNode.name, inEdge.value + mid + outEdge.value)])
    {
      assert ArcOf(outEdge) in [ArcOf(outEdge)];
      if outEdge.srcNode != outEdge.dstNode {
        AddArcPresent(Abs(), inEdge.srcNode.name, outEdge.dstNode.name, inEdge.value + mid + outEdge.value);
        AddEdge(inEdge.srcNode.name, outEdge.dstNode.name, inEdge.value + mid + outEdge.value);
      }
    }

    /** Every record of `sub`, each one in `edges`, joins registered nodes. */
    lemma RegisteredMembers(sub: seq<Edge>)
      requires Valid()
      requires forall e | e in sub :: e in edges
      ensures A.Registered(Snap(sub), nodes)
    {
      forall a | a in Snap(sub)
        ensures a.src.name in nodes && nodes[a.src.name] == a.src
        ensures a.dst.name in nodes && nodes[a.dst.name] == a.dst
      {
        var k :| 0 <= k < |sub| && Snap(sub)[k] == a;
        assert sub[k] in sub;
        var j :| 0 <= j < |edges| && edges[j] == sub[k];
        assert Snap(edges)[j] == a;
      }
    }

    /**
     * One pass of the elimination loop over the nodes in `order`, skipping
     * the two synthetic nodes.
     */
    method EliminationPass(order: seq<string>, initialNode: A.Node, terminalNode: A.Node, ghost h: Nfa)
      requires Valid() && Shaped(h) && Abs() == h
      requires IsOrdering(order, h.nodes.Keys)
      requires SyntheticAre(initialNode, terminalNode)
      modifies this
      ensures Valid() && SyntheticAre(initialNode, terminalNode)
      ensures EliminateAll(h, order, Silent) == Done(Abs())
    {
      for idx := 0 to |order|
        invariant Valid() && SyntheticAre(initialNode, terminalNode)
        invariant EliminateAll(h, order[..idx], Silent) == Done(Abs())
      {
        PassOne(order, idx, initialNode, terminalNode, h);
      }
      assert order[..|order|] == order;
    }

    /** The elimination pass at position `idx` of `order`, as EliminateAll takes it one node further. */
    method PassOne(order: seq<string>, idx: nat, initialNode: A.Node, terminalNode: A.Node, ghost h: Nfa)
      requires Valid() && Shaped(h) && IsOrdering(order, h.nodes.Keys)
      requires idx < |order| && EliminateAll(h, order[..idx], Silent) == Done(Abs())
      requires SyntheticAre(initialNode, terminalNode)
      modifies this
      ensures Valid() && SyntheticAre(initialNode, terminalNode)
      ensures EliminateAll(h, order[..idx + 1], Silent) == Done(Abs())
    {
      PassStep(h, order, idx, Silent);
      ghost var k := Abs();
      VisitNode(order[idx], initialNode, terminalNode);
      PassContinue(h, order, idx, Silent, k, Abs());
    }

    /** The body of the elimination pass for one node: the synthetic nodes are skipped, any other is eliminated. */
    method VisitNode(name: string, initialNode: A.Node, terminalNode: A.Node)
      requires Valid() && name in nodes
      requires SyntheticAre(initialNode, terminalNode)
      modifies this
      ensures Valid() && SyntheticAre(initialNode, terminalNode)
      ensures name == InitialName || name == TerminalName ==> Abs() == old(Abs())
      ensures name != InitialName && name != TerminalName ==> Abs() == Eliminate(old(Abs()), name)
    {
      var node := nodes[name];
      if node == initialNode || node == terminalNode {
        return;
      }
      EliminateNode(name);
    }

    /**
     * The elimination loop: passes over the nodes until only the two
     * synthetic ones are left, which takes at most one pass.
     */
    method EliminateOrdinary(elimOrder: seq<string>, initialNode: A.Node, terminalNode: A.Node, ghost h: Nfa)
      requires Shaped(h) && IsOrdering(elimOrder, h.nodes.Keys)
      requires |h.nodes.Keys| <= 2 ==> EliminateAll(h, elimOrder, Silent) == Done(h)
      requires EliminateAll(h, elimOrder, Silent).Done? ==> |EliminateAll(h, elimOrder, Silent).g.nodes.Keys| == 2
      requires Valid() && Abs() == h
      requires SyntheticAre(initialNode, terminalNode)
      modifies this
      ensures Valid()
      ensures EliminateAll(h, elimOrder, Silent) == Done(Abs())
    {
      ghost var done := false;
      while |nodes| > 2
        invariant Valid() && SyntheticAre(initialNode, terminalNode)
        invariant !done ==> Abs() == h
        invariant done ==> EliminateAll(h, elimOrder, Silent) == Done(Abs())
        decreases if done then 0 else 1
      {
        EliminationPass(elimOrder, initialNode, terminalNode, h);
        done := true;
      }
      if !done {
        assert |h.nodes.Keys| == |nodes.Keys| == |nodes|;
      }
    }

    /** The final step: every remaining label, alternated. */
    method FinalRegex() returns (r: string)
      requires Valid()
      ensures r == OrJoin(Values(Abs().arcs))
    {
      ghost var s := Snap(edges);
      var res: seq<string> := [];
      for i := 0 to |edges|
        invariant res == Values(A.Names(s[..i]))
      {
        var edge := edges[i];
        assert s[i] == ArcOf(edge);
        TakeSnoc(s, i);
        A.NamesSnoc(s[..i], s[i]);
        ValuesSnoc(A.Names(s[..i]), A.NameOf()(s[i]));
        res := res + [edge.value];
      }
      assert s[..|edges|] == s;
      r := OrJoin(res);
    }

    /** Eliminates every ordinary node of the normalised copy, then alternates the labels that are left. */
    method EliminateAndFinish(ghost g: Nfa, ghost normOrder: seq<string>, elimOrder: seq<string>, initialNode: A.Node, terminalNode: A.Node)
      returns (r: string)
      requires UserNfa(g)
      requires IsOrdering(normOrder, Prepare(g).nodes.Keys) && IsOrdering(elimOrder, Prepare(g).nodes.Keys)
      requires Valid() && Abs() == Normalized(g, normOrder)
      requires SyntheticAre(initialNode, terminalNode)
      modifies this
      ensures r == LegacyRegexSpec(g, normOrder, elimOrder)
    {
      ghost var h := Normalized(g, normOrder);
      LegacySetup(g, normOrder, elimOrder);
      EliminateOrdinary(elimOrder, initialNode, terminalNode, h);
      ghost var k := Abs();
      r := FinalRegex();
      LegacySpecDone(g, normOrder, elimOrder, k);
    }

    /** Once every edge record points at unflagged records, an edge touching a flagged node cannot be registered. */
    lemma FlagTouchedBroken()
      requires forall e | e in edges :: !Flagged(e.srcNode) && !Flagged(e.dstNode)
      ensures FlagTouched(Abs()) ==> !Valid()
    {
      if FlagTouched(Abs()) {
        var a :| a in Abs().arcs &&
          ((a.src in Abs().nodes && Abs().nodes[a.src] != Unflagged) || (a.dst in Abs().nodes && Abs().nodes[a.dst] != Unflagged));
        var k :| 0 <= k < |edges| && A.Names(Snap(edges))[k] == a;
        assert edges[k] in edges;
        assert Snap(edges)[k] in Snap(edges);
      }
    }

    /**
     * After normalisation the records `e0` the copy started with are still
     * its first edges: they carry the same names as the arcs of `g`, and
     * each endpoint is the copy's unflagged record for that name.
     */
    lemma PrefixUnflagged(g: Nfa, order: seq<string>, e0: seq<Edge>)
      requires UserNfa(g) && IsOrdering(order, Prepare(g).nodes.Keys)
      requires Valid() && Abs() == Normalized(g, order)
      requires e0 <= edges && |e0| == |g.arcs|
      ensures A.Names(Snap(e0)) == g.arcs
      ensures forall e | e in e0 :: !Flagged(e.srcNode) && !Flagged(e.dstNode)
    {
      NormalizedShape(g, order);
      ghost var h := Normalized(g, order);
      forall i | 0 <= i < |e0|
        ensures A.Names(Snap(e0))[i] == g.arcs[i]
        ensures !Flagged(e0[i].srcNode) && !Flagged(e0[i].dstNode)
      {
        assert e0[i] == edges[i];
        var a := Snap(edges)[i];
        assert a == ArcOf(e0[i]);
        assert h.arcs[..|g.arcs|][i] == g.arcs[i];
        assert a in Snap(edges);
        assert g.arcs[i] in g.arcs;
        assert NodeFlags()[a.src.name] == h.nodes[a.src.name];
        assert NodeFlags()[a.dst.name] == h.nodes[a.dst.name];
      }
    }
  }

  /** Some edge of `g` touches a node flagged initial or terminal. */
  ghost predicate FlagTouched(g: Nfa)
  {
    exists a | a in g.arcs ::
      (a.src in g.nodes && g.nodes[a.src] != Unflagged) || (a.dst in g.nodes && g.nodes[a.dst] != Unflagged)
  }

  /**
   * The conversion. It works on a shallow copy, but the copy shares the
   * edge records, so the node replacement in the normalisation loop
   * rewrites the caller's records too. Seen by names the caller's
   * automaton is unchanged, but every edge record now points at unflagged
   * node records, so the caller no longer holds together when one of its
   * edges touched a flagged node.
   */
  method NFA2Regex(nfa: NFA, normOrder: seq<string>, elimOrder: seq<string>) returns (r: string)
    requires nfa.Valid() && UserNfa(nfa.Abs())
    requires IsOrdering(normOrder, Prepare(nfa.Abs()).nodes.Keys)
    requires IsOrdering(elimOrder, Prepare(nfa.Abs()).nodes.Keys)
    modifies RecordSet(nfa.edges)
    ensures r == LegacyRegexSpec(old(nfa.Abs()), normOrder, elimOrder)
    ensures nfa.nodes == old(nfa.nodes) && nfa.edges == old(nfa.edges) && nfa.Abs() == old(nfa.Abs())
    ensures forall e | e in nfa.edges :: !Flagged(e.srcNode) && !Flagged(e.dstNode)
    ensures Repointed(old(Snap(nfa.edges)), Snap(nfa.edges), nfa.nodes, old(nfa.Abs()).nodes)
    ensures FlagTouched(nfa.Abs()) ==> !nfa.Valid()
  {
    ghost var g := nfa.Abs();
    var copy, initialNode, terminalNode := NormalisedCopy(nfa, normOrder);
    ghost var flags, arcs := nfa.NodeFlags(), Snap(nfa.edges);
    r := copy.EliminateAndFinish(g, normOrder, elimOrder, initialNode, terminalNode);
    assert nfa.NodeFlags() == flags && Snap(nfa.edges) == arcs;
    nfa.FlagTouchedBroken();
  }

  /**
   * The first half of NFA2Regex: a shallow copy, normalised. The copy
   * shares the caller's edge records, so every one of them ends up
   * pointing at unflagged records, while the caller's map is unchanged.
   */
  method NormalisedCopy(nfa: NFA, normOrder: seq<string>) returns (copy: NFA, initialNode: A.Node, terminalNode: A.Node)
    requires nfa.Valid() && UserNfa(nfa.Abs())
    requires IsOrdering(normOrder, Prepare(nfa.Abs()).nodes.Keys)
    modifies RecordSet(nfa.edges)
    ensures fresh(copy) && copy.Valid() && copy.Abs() == Normalized(old(nfa.Abs()), normOrder)
    ensures copy.SyntheticAre(initialNode, terminalNode)
    ensures nfa.nodes == old(nfa.nodes) && nfa.edges == old(nfa.edges) && nfa.Abs() == old(nfa.Abs())
    ensures forall e | e in nfa.edges :: !Flagged(e.srcNode) && !Flagged(e.dstNode)
    ensures Repointed(old(Snap(nfa.edges)), Snap(nfa.edges), nfa.nodes, old(nfa.Abs()).nodes)
  {
    ghost var g := nfa.Abs();
    ghost var s0 := Snap(nfa.edges);
    copy := nfa.ShallowCopy();
    initialNode, terminalNode := NormaliseShared(nfa, copy, normOrder, g, s0);
  }

  /** Normalises `copy`, which shares the records of `nfa`, and states what that leaves of `nfa`. */
  method NormaliseShared(nfa: NFA, copy: NFA, normOrder: seq<string>, ghost g: Nfa, ghost s0: seq<A.Edge>)
    returns (initialNode: A.Node, terminalNode: A.Node)
    requires nfa.Valid() && g == nfa.Abs() && s0 == Snap(nfa.edges) && UserNfa(g)
    requires IsOrdering(normOrder, Prepare(g).nodes.Keys)
    requires copy != nfa && copy.Valid() && copy.Abs() == g
    requires copy.nodes == nfa.nodes && copy.edges == nfa.edges && copy.records == RecordSet(nfa.edges)
    modifies copy, copy.records
    ensures copy.Valid() && copy.Abs() == Normalized(g, normOrder)
    ensures copy.SyntheticAre(initialNode, terminalNode)
    ensures nfa.nodes == old(nfa.nodes) && nfa.edges == old(nfa.edges) && nfa.Abs() == g
    ensures forall e | e in nfa.edges :: !Flagged(e.srcNode) && !Flagged(e.dstNode)
    ensures Repointed(s0, Snap(nfa.edges), nfa.nodes, g.nodes)
  {
    ghost var flags := nfa.NodeFlags();
    initialNode, terminalNode := copy.Normalise(normOrder, g);
    assert nfa.NodeFlags() == flags;
    CallerAfterNormalise(nfa, copy, g, normOrder, s0);
  }

  /**
   * What the normalisation of a copy sharing the caller's edge records
   * leaves of the caller: the same names, every endpoint unflagged, an
   * endpoint that was unflagged kept, and a flagged one replaced by a
   * record the caller's map does not hold.
   */
  lemma CallerAfterNormalise(nfa: NFA, copy: NFA, g: Nfa, order: seq<string>, s0: seq<A.Edge>)
    requires UserNfa(g) && IsOrdering(order, Prepare(g).nodes.Keys)
    requires copy.Valid() && copy.Abs() == Normalized(g, order)
    requires nfa.edges <= copy.edges
    requires |s0| == |nfa.edges| && g.arcs == A.Names(s0)
    requires A.NamedRight(nfa.nodes) && A.Registered(s0, nfa.nodes) && nfa.NodeFlags() == g.nodes
    requires Keeps(UnflaggedNames(g.nodes), nfa.nodes, copy.nodes)
    ensures nfa.Abs() == g
    ensures forall e | e in nfa.edges :: !Flagged(e.srcNode) && !Flagged(e.dstNode)
    ensures Repointed(s0, Snap(nfa.edges), nfa.nodes, g.nodes)
  {
    copy.PrefixUnflagged(g, order, nfa.edges);
    forall i | 0 <= i < |s0|
      ensures KeptEnd(s0[i].src, Snap(nfa.edges)[i].src, nfa.nodes, g.nodes)
      ensures KeptEnd(s0[i].dst, Snap(nfa.edges)[i].dst, nfa.nodes, g.nodes)
    {
      var e := nfa.edges[i];
      assert e == copy.edges[i] && e in nfa.edges && s0[i] in s0;
      assert A.Names(Snap(nfa.edges))[i] == A.Names(s0)[i];
      SnapAt(nfa.edges, i);
      assert ArcOf(e) in Snap(copy.edges) by { SnapAt(copy.edges, i); }
      EndpointKept(nfa.nodes, copy.nodes, g.nodes, s0[i].src, e.srcNode);
      EndpointKept(nfa.nodes, copy.nodes, g.nodes, s0[i].dst, e.dstNode);
    }
  }

  /**
   * An endpoint `now`, registered in the copy under the name of the
   * caller's record `was`: it is `was` itself when `was` is unflagged,
   * and otherwise no record of the caller's map.
   */
  lemma EndpointKept(n0: map<string, A.Node>, n1: map<string, A.Node>, flags: map<string, Flags>, was: A.Node, now: A.Node)
    requires A.NamedRight(n0) && was.name in n0 && n0[was.name] == was
    requires flags.Keys == n0.Keys && flags[was.name] == Flags(was.isInitial, was.isTerminal)
    requires Keeps(UnflaggedNames(flags), n0, n1)
    requires now.name == was.name && now.name in n1 && n1[now.name] == now && !Flagged(now)
    ensures KeptEnd(was, now, n0, flags)
  {
    if !Flagged(was) {
      assert was.name in UnflaggedNames(flags);
    }
  }

  /**
   * The automaton reading binary numerals whose nodes are the remainders
   * modulo `n`, built edge by edge: two edges per remainder, then the
   * edges out of "start", then the flags.
   */
  method MakeNFAMultiplesOfN(n: int) returns (nfa: NFA)
    ensures fresh(nfa) && nfa.Valid()
    ensures nfa.Abs() == MultiplesOfN(n)
  {
    nfa := RemainderEdges(n);
    nfa.AddEdgePair("start", "0", "0", "1", "1");
    nfa.MarkInitial("start");
    nfa.MarkTerminal("0");
  }

  /** The construction loop: a new automaton with the two edges out of the node of each remainder modulo `n`. */
  method RemainderEdges(n: int) returns (nfa: NFA)
    ensures fresh(nfa) && "start" !in nfa.nodes && forall k | k in nfa.nodes :: fresh(nfa.nodes[k])
    ensures nfa.Valid() && nfa.Abs() == MultiplesLoop(n, Rounds(n))
  {
    nfa := new NFA();
    var i := 0;
    while i < n
      invariant 0 <= i && (i == 0 || i <= n)
      invariant fresh(nfa) && "start" !in nfa.nodes && forall k | k in nfa.nodes :: fresh(nfa.nodes[k])
      invariant nfa.Valid() && nfa.Abs() == MultiplesLoop(n, i)
    {
      nfa.AddRound(n, i);
      i := i + 1;
    }
  }
}