/**
 * The automaton type of the library, on the heap: node records that the
 * conversion replaces rather than mutates, a node map and an edge list
 * that the methods reassign. Each method is tied to the value-level
 * operation of Graph through `Abs()`, the automaton seen by node names.
 */
module Automaton {
  import opened Combinators
  import opened Graph
  import opened Conversion
  import opened Simulation

  /** A node record; the library never renames a node, so the name is constant. */
  class Node {
    const name: string
    var isInitial: bool
    var isTerminal: bool

    constructor (name: string, isInitial: bool, isTerminal: bool)
      ensures this.name == name && this.isInitial == isInitial && this.isTerminal == isTerminal
    {
      this.name := name;
      this.isInitial := isInitial;
      this.isTerminal := isTerminal;
    }
  }

  /**
   * An edge record. The library never writes to an edge record and only
   * compares its endpoints, so an edge is a value holding two node references.
   */
  type Edge = Arc<Node>

  function NameOf(): Edge -> Arc<string>
  {
    (e: Edge) => Arc(e.src.name, e.dst.name, e.value)
  }

  /** The edges seen by node names. */
  function Names(es: seq<Edge>): seq<Arc<string>>
  {
    Map(es, NameOf())
  }

  lemma NamesSnoc(es: seq<Edge>, e: Edge)
    ensures Names(es + [e]) == Names(es) + [NameOf()(e)]
  {
  }

  /** Filtering edges by reference agrees with filtering their names, when the two tests agree. */
  lemma NamesFilter(es: seq<Edge>, p: Edge -> bool, q: Arc<string> -> bool)
    requires forall i | 0 <= i < |es| :: p(es[i]) == q(NameOf()(es[i]))
    ensures Names(Filter(es, p)) == Filter(Names(es), q)
  {
    MapFilter(es, NameOf(), p, q);
  }

  /** Every node is registered under its own name. */
  ghost predicate NamedRight(ns: map<string, Node>)
  {
    forall k | k in ns :: ns[k].name == k
  }

  /** Every edge joins node records registered in `ns`. */
  ghost predicate Registered(es: seq<Edge>, ns: map<string, Node>)
  {
    forall e | e in es ::
      && e.src.name in ns && ns[e.src.name] == e.src
      && e.dst.name in ns && ns[e.dst.name] == e.dst
  }

  lemma RegisteredSnoc(es: seq<Edge>, e: Edge, ns: map<string, Node>)
    requires Registered(es, ns)
    requires e.src.name in ns && ns[e.src.name] == e.src && e.dst.name in ns && ns[e.dst.name] == e.dst
    ensures Registered(es + [e], ns)
  {
  }

  /** A filtered edge list stays registered. */
  lemma RegisteredFilter(es: seq<Edge>, ns: map<string, Node>, p: Edge -> bool)
    requires Registered(es, ns)
    ensures Registered(Filter(es, p), ns)
  {
    FilterMembers(es, p);
  }

  /** Registering more nodes keeps every edge registered. */
  lemma RegisteredGrow(es: seq<Edge>, ns: map<string, Node>, k: string, n: Node)
    requires Registered(es, ns)
    requires k in ns ==> ns[k] == n
    ensures Registered(es, ns[k := n])
  {
  }

  /** Rewiring the edges from the registered record of `name` to its replacement keeps them registered and named alike. */
  lemma RegisteredRewire(es: seq<Edge>, ns: map<string, Node>, name: string, newNode: Node, newEs: seq<Edge>)
    requires NamedRight(ns) && Registered(es, ns) && newNode.name == name
    requires |newEs| == |es|
    requires forall i | 0 <= i < |es| :: newEs[i] == Rewire(es[i], if name in ns then ns[name] else null, newNode)
    ensures Registered(newEs, ns[name := newNode])
    ensures Names(newEs) == Names(es)
  {
    assert forall j | 0 <= j < |es| :: NameOf()(newEs[j]) == NameOf()(es[j]);
    forall e | e in newEs
      ensures e.src.name in ns[name := newNode] && ns[name := newNode][e.src.name] == e.src
      ensures e.dst.name in ns[name := newNode] && ns[name := newNode][e.dst.name] == e.dst
    {
      var j :| 0 <= j < |newEs| && newEs[j] == e;
      assert es[j] in es;
    }
  }

  /** One more edge for the loop-label accumulation: its label joins exactly when it is a self-loop. */
  lemma LoopValuesStep(es: seq<Edge>, j: nat, ns: map<string, Node>)
    requires j < |es| && NamedRight(ns) && Registered([es[j]], ns)
    ensures LoopValues(Names(es[..j + 1])) ==
      LoopValues(Names(es[..j])) + (if es[j].src == es[j].dst then [es[j].value] else [])
  {
    TakeSnoc(es, j);
    NamesSnoc(es[..j], es[j]);
    LoopsSnoc(Names(es[..j]), NameOf()(es[j]));
    ValuesSnoc(Loops(Names(es[..j])), NameOf()(es[j]));
  }

  /** The step from the first j + 1 active nodes adds the step from the (j + 1)-th to that from the first j. */
  lemma StepPrefix(arcs: seq<Arc<string>>, activeNodes: seq<Node>, j: nat, ch: char)
    requires j < |activeNodes|
    ensures StepAlong(arcs, NameSet(activeNodes[..j + 1]), ch) ==
      StepAlong(arcs, NameSet(activeNodes[..j]), ch) + StepAlong(arcs, {activeNodes[j].name}, ch)
  {
    TakeSnoc(activeNodes, j);
    assert NameSet(activeNodes[..j + 1]) == NameSet(activeNodes[..j]) + {activeNodes[j].name};
    StepAlongUnion(arcs, NameSet(activeNodes[..j]), {activeNodes[j].name}, ch);
  }

  /** Dropping a node together with the edges touching it keeps the rest registered. */
  lemma RegisteredRemove(es: seq<Edge>, ns: map<string, Node>, name: string)
    requires NamedRight(ns) && Registered(es, ns)
    ensures name in ns ==> Registered(Avoiding(es, ns[name]), ns - {name})
    ensures name !in ns ==> Registered(es, ns - {name})
  {
    if name in ns {
      FilterMembers(es, Misses(ns[name]));
    }
  }

  /** Comparing registered records is comparing names: the three filters agree on both views. */
  lemma FilterByName(es: seq<Edge>, ns: map<string, Node>, name: string)
    requires NamedRight(ns) && Registered(es, ns)
    ensures name in ns ==> Names(Into(es, ns[name])) == Into(Names(es), name)
    ensures name in ns ==> Names(OutOf(es, ns[name])) == OutOf(Names(es), name)
    ensures name in ns ==> Names(Avoiding(es, ns[name])) == Avoiding(Names(es), name)
    ensures name !in ns ==> Into(Names(es), name) == [] && OutOf(Names(es), name) == []
    ensures name !in ns ==> Avoiding(Names(es), name) == Names(es)
  {
    if name in ns {
      var n := ns[name];
      forall i | 0 <= i < |es|
        ensures DstIs(n)(es[i]) == DstIs(name)(NameOf()(es[i]))
        ensures SrcIs(n)(es[i]) == SrcIs(name)(NameOf()(es[i]))
        ensures Misses(n)(es[i]) == Misses(name)(NameOf()(es[i]))
      {
        assert es[i] in es;
      }
      NamesFilter(es, DstIs(n), DstIs(name));
      NamesFilter(es, SrcIs(n), SrcIs(name));
      NamesFilter(es, Misses(n), Misses(name));
    } else {
      var ns' := Names(es);
      forall i | 0 <= i < |ns'|
        ensures Misses(name)(ns'[i]) && !DstIs(name)(ns'[i]) && !SrcIs(name)(ns'[i])
      {
        assert es[i] in es;
      }
      FilterAll(ns', Misses(name));
      FilterNone(ns', DstIs(name));
      FilterNone(ns', SrcIs(name));
    }
  }

  /** Replaces the endpoints of `e` that are `from` by `to`. */
  function Rewire(e: Edge, from: Node?, to: Node): (r: Edge)
    ensures r.value == e.value
    ensures r.src == (if e.src == from then to else e.src)
    ensures r.dst == (if e.dst == from then to else e.dst)
  {
    var e1 := if e.src == from then Arc(to, e.dst, e.value) else e;
    if e1.dst == from then Arc(e1.src, to, e1.value) else e1
  }

  class NFA {
    var nodes: map<string, Node>
    var edges: seq<Edge>

    /**
     * Every node is registered under its own name, and every edge joins
     * registered node records.
     */
    ghost predicate Valid()
      reads this
    {
      NamedRight(nodes) && Registered(edges, nodes)
    }

    /** The automaton seen by node names. */
    function Abs(): Nfa
      reads this, nodes.Values
    {
      Nfa(NodeFlags(), Names(edges))
    }

    /** The flags of every registered node, by name. */
    function NodeFlags(): (r: map<string, Flags>)
      reads this`nodes, nodes.Values
      ensures r.Keys == nodes.Keys
    {
      map k | k in nodes :: Flags(nodes[k].isInitial, nodes[k].isTerminal)
    }

    /** The record registered under `name`, or null, as a map lookup of the source gives it. */
    function Lookup(name: string): (r: Node?)
      reads this
      ensures r != null <==> name in nodes
    {
      if name in nodes then nodes[name] else null
    }

    lemma AbsWellFormed()
      requires Valid()
      ensures WellFormed(Abs())
    {
      forall a | a in Abs().arcs ensures a.src in Abs().nodes && a.dst in Abs().nodes {
        var i :| 0 <= i < |edges| && Names(edges)[i] == a;
        assert edges[i] in edges;
      }
    }

    /** A new, empty automaton. */
    constructor ()
      ensures Valid()
      ensures nodes == map[] && edges == []
      ensures Abs() == Nfa(map[], [])
    {
      nodes := map[];
      edges := [];
    }

    /** The record named `name`, created with both flags false if it is missing. */
    method GetOrCreateNode(name: string) returns (node: Node)
      requires Valid()
      modifies this
      ensures Valid()
      ensures Abs() == GetOrCreate(old(Abs()), name)
      ensures nodes == old(nodes)[name := node] && edges == old(edges)
      ensures node.name == name
      ensures name in old(nodes) ==> node == old(nodes[name]) && nodes == old(nodes)
      ensures name !in old(nodes) ==> fresh(node)
    {
      if name in nodes {
        node := nodes[name];
      } else {
        node := new Node(name, false, false);
        RegisteredGrow(edges, nodes, name, node);
        nodes := nodes[name := node];
      }
    }

    /** Appends one edge; missing endpoints are created unflagged. */
    method AddEdge(srcName: string, dstName: string, value: string)
      requires Valid()
      modifies this
      ensures Valid()
      ensures Abs() == AddArc(old(Abs()), srcName, dstName, value)
      ensures nodes.Keys == old(nodes).Keys + {srcName, dstName}
      ensures srcName in old(nodes) && dstName in old(nodes) ==> nodes == old(nodes)
      ensures nodes == old(nodes)[srcName := nodes[srcName]][dstName := nodes[dstName]]
      ensures srcName in old(nodes) ==> nodes[srcName] == old(nodes[srcName])
      ensures dstName in old(nodes) ==> nodes[dstName] == old(nodes[dstName])
      ensures srcName !in old(nodes) ==> fresh(nodes[srcName])
      ensures dstName !in old(nodes) ==> fresh(nodes[dstName])
      ensures edges == old(edges) + [Arc(nodes[srcName], nodes[dstName], value)]
    {
      var srcNode := GetOrCreateNode(srcName);
      var dstNode := GetOrCreateNode(dstName);
      ghost var before := Abs();
      NamesSnoc(edges, Arc(srcNode, dstNode, value));
      RegisteredSnoc(edges, Arc(srcNode, dstNode, value), nodes);
      edges := edges + [Arc(srcNode, dstNode, value)];
      assert Abs() == before.(arcs := before.arcs + [Arc(srcName, dstName, value)]);
    }

    /**
     * Registers `newNode` under `name` and points every edge that touched
     * the record previously registered there at `newNode` instead. Edge
     * order, labels and every other endpoint are kept.
     */
    method ReplaceNode(name: string, newNode: Node)
      requires Valid()
      requires newNode.name == name
      modifies this
      ensures Valid()
      ensures Abs() == SetFlags(old(Abs()), name, Flags(newNode.isInitial, newNode.isTerminal))
      ensures nodes == old(nodes)[name := newNode]
      ensures |edges| == |old(edges)|
      ensures forall i | 0 <= i < |edges| :: edges[i] == Rewire(old(edges)[i], old(Lookup(name)), newNode)
    {
      ghost var g0 := Abs();
      var oldNode := Lookup(name);
      var newEdges := RewiredEdges(oldNode, newNode);
      RegisteredRewire(edges, nodes, name, newNode, newEdges);
      nodes := nodes[name := newNode];
      edges := newEdges;
      ghost var flags := NodeFlags();
      assert flags == g0.nodes[name := Flags(newNode.isInitial, newNode.isTerminal)];
      assert Abs() == Nfa(flags, g0.arcs);
    }

    /** The edge list with every endpoint `oldNode` replaced by `newNode`, in the same order. */
    method RewiredEdges(oldNode: Node?, newNode: Node) returns (newEdges: seq<Edge>)
      ensures |newEdges| == |edges|
      ensures forall i | 0 <= i < |edges| :: newEdges[i] == Rewire(edges[i], oldNode, newNode)
    {
      var es := edges;
      newEdges := [];
      for i := 0 to |es|
        invariant |newEdges| == i
        invariant forall j | 0 <= j < i :: newEdges[j] == Rewire(es[j], oldNode, newNode)
      {
        var edge := es[i];
        if edge.src == oldNode {
          edge := Arc(newNode, edge.dst, edge.value);
        }
        if edge.dst == oldNode {
          edge := Arc(edge.src, newNode, edge.value);
        }
        newEdges := newEdges + [edge];
      }
    }

    /** Deletes the record named `name` and every edge touching it; the other edges keep their order. */
    method RemoveNode(name: string)
      requires Valid()
      modifies this
      ensures Valid()
      ensures Abs() == Graph.RemoveNode(old(Abs()), name)
      ensures nodes == old(nodes) - {name}
      ensures name in old(nodes) ==> edges == Avoiding(old(edges), old(nodes)[name])
      ensures name !in old(nodes) ==> edges == old(edges)
    {
      ghost var g0 := Abs();
      var node := Lookup(name);
      var newEdges := EdgesAvoiding(node);
      assert Names(newEdges) == Avoiding(g0.arcs, name) by {
        FilterByName(edges, nodes, name);
      }
      RegisteredRemove(edges, nodes, name);
      edges := newEdges;
      nodes := nodes - {name};
      ghost var flags := NodeFlags();
      assert flags == g0.nodes - {name};
      assert Abs() == Nfa(flags, Names(newEdges));
    }

    /** The edges that touch neither endpoint `node` (all of them when there is no such record), in order. */
    method EdgesAvoiding(node: Node?) returns (newEdges: seq<Edge>)
      ensures node != null ==> newEdges == Avoiding(edges, node)
      ensures node == null ==> newEdges == edges
    {
      var es := edges;
      newEdges := [];
      for i := 0 to |es|
        invariant node != null ==> newEdges == Avoiding(es[..i], node)
        invariant node == null ==> newEdges == es[..i]
      {
        var edge := es[i];
        TakeSnoc(es, i);
        if node != null {
          AvoidingSnoc(es[..i], edge, node);
        }
        if !(edge.src == node || edge.dst == node) {
          newEdges := newEdges + [edge];
        }
      }
      assert es[..|es|] == es;
    }

    /** The edges into `name`, in edge-list order. */
    method EdgesIn(name: string) returns (res: seq<Edge>)
      requires Valid()
      ensures Names(res) == Into(Abs().arcs, name)
      ensures forall e | e in res :: e in edges && e.dst.name == name
    {
      var node := Lookup(name);
      res := [];
      for i := 0 to |edges|
        invariant node != null ==> res == Into(edges[..i], node)
        invariant node == null ==> res == []
      {
        var edge := edges[i];
        TakeSnoc(edges, i);
        if node != null {
          IntoSnoc(edges[..i], edge, node);
        }
        if edge.dst == node {
          res := res + [edge];
        }
      }
      assert edges[..|edges|] == edges;
      FilterByName(edges, nodes, name);
      if node != null {
        FilterMembers(edges, DstIs(node));
      }
    }

    /** The edges out of `name`, in edge-list order. */
    method EdgesOut(name: string) returns (res: seq<Edge>)
      requires Valid()
      ensures Names(res) == OutOf(Abs().arcs, name)
      ensures forall e | e in res :: e in edges && e.src.name == name
    {
      var node := Lookup(name);
      res := [];
      for i := 0 to |edges|
        invariant node != null ==> res == OutOf(edges[..i], node)
        invariant node == null ==> res == []
      {
        var edge := edges[i];
        TakeSnoc(edges, i);
        if node != null {
          OutOfSnoc(edges[..i], edge, node);
        }
        if edge.src == node {
          res := res + [edge];
        }
      }
      assert edges[..|edges|] == edges;
      FilterByName(edges, nodes, name);
      if node != null {
        FilterMembers(edges, SrcIs(node));
      }
    }

    /** A new automaton sharing this one's node records and edge records. */
    method ShallowCopy() returns (res: NFA)
      requires Valid()
      ensures fresh(res)
      ensures res.nodes == nodes && res.edges == edges
      ensures res.Valid() && res.Abs() == Abs()
    {
      res := new NFA();
      var unvisited := nodes.Keys;
      while unvisited != {}
        invariant fresh(res) && res.edges == []
        invariant unvisited <= nodes.Keys
        invariant res.nodes == map k | k in nodes && k !in unvisited :: nodes[k]
        decreases unvisited
      {
        var key :| key in unvisited;
        res.nodes := res.nodes[key := nodes[key]];
        unvisited := unvisited - {key};
      }
      res.edges := edges;
    }

    /**
     * Simulates the automaton on `input`, one character at a time, from
     * every initial node at once.
     */
    method Match(input: string) returns (accepted: bool)
      requires Valid()
      ensures accepted == Accepts(Abs(), input)
    {
      ghost var g := Abs();
      var activeNodes := InitialNodes();
      assert input[..0] == [];
      for i := 0 to |input|
        invariant Members(activeNodes, nodes)
        invariant NameSet(activeNodes) == Run(g, input[..i])
      {
        var ch := input[i];
        activeNodes := StepNodes(activeNodes, ch);
        RunSnoc(g, input[..i], ch);
        TakeSnoc(input, i);
      }
      assert input[..|input|] == input;
      accepted := AnyTerminal(activeNodes);
    }

    /** The last loop of the simulation: is some active node terminal? */
    method AnyTerminal(activeNodes: seq<Node>) returns (found: bool)
      requires Valid() && Members(activeNodes, nodes)
      ensures found <==> exists k | k in NameSet(activeNodes) :: k in Abs().nodes && Abs().nodes[k].isTerminal
    {
      for j := 0 to |activeNodes|
        invariant forall j' | 0 <= j' < j :: !activeNodes[j'].isTerminal
      {
        if activeNodes[j].isTerminal {
          var k := activeNodes[j].name;
          assert activeNodes[j] in activeNodes;
          assert k in NameSet(activeNodes) && k in nodes && nodes[k] == activeNodes[j];
          assert Abs().nodes[k].isTerminal;
          return true;
        }
      }
      forall k | k in NameSet(activeNodes) ensures !(k in Abs().nodes && Abs().nodes[k].isTerminal) {
        var n :| n in activeNodes && n.name == k;
      }
      return false;
    }

    /** The first loop of the simulation: every initial node, in map order. */
    method InitialNodes() returns (activeNodes: seq<Node>)
      requires Valid()
      ensures Members(activeNodes, nodes)
      ensures NameSet(activeNodes) == Initials(Abs())
    {
      activeNodes := [];
      var unvisited := nodes.Keys;
      while unvisited != {}
        invariant unvisited <= nodes.Keys
        invariant Members(activeNodes, nodes)
        invariant NameSet(activeNodes) == set k | k in nodes && k !in unvisited && nodes[k].isInitial
        decreases unvisited
      {
        var key :| key in unvisited;
        var node := nodes[key];
        ghost var found := set k | k in nodes && k !in unvisited && nodes[k].isInitial;
        assert (set k | k in nodes && k !in unvisited - {key} && nodes[k].isInitial) ==
          found + (if node.isInitial then {key} else {});
        if node.isInitial {
          assert NameSet(activeNodes + [node]) == NameSet(activeNodes) + {node.name};
          activeNodes := activeNodes + [node];
        }
        unvisited := unvisited - {key};
      }
    }

    /** One character of the simulation: follow every edge labelled exactly `ch` out of an active node. */
    method StepNodes(activeNodes: seq<Node>, ch: char) returns (newActiveNodes: seq<Node>)
      requires Valid()
      requires Members(activeNodes, nodes)
      ensures Members(newActiveNodes, nodes)
      ensures NameSet(newActiveNodes) == Step(Abs(), NameSet(activeNodes), ch)
    {
      newActiveNodes := [];
      EmptyStep(Abs().arcs, ch);
      assert NameSet(activeNodes[..0]) == {};
      for j := 0 to |activeNodes|
        invariant Members(newActiveNodes, nodes)
        invariant NameSet(newActiveNodes) == StepAlong(Abs().arcs, NameSet(activeNodes[..j]), ch)
      {
        var activeNode := activeNodes[j];
        newActiveNodes := FollowEdges(newActiveNodes, activeNode, ch);
        StepPrefix(Abs().arcs, activeNodes, j, ch);
      }
      assert activeNodes[..|activeNodes|] == activeNodes;
    }

    /** The inner loop of one simulation step: appends the targets of the edges out of `activeNode` labelled `ch`. */
    method FollowEdges(acc: seq<Node>, activeNode: Node, ch: char) returns (newActiveNodes: seq<Node>)
      requires Valid()
      requires Members(acc, nodes)
      ensures Members(newActiveNodes, nodes)
      ensures NameSet(newActiveNodes) == NameSet(acc) + StepAlong(Abs().arcs, {activeNode.name}, ch)
    {
      newActiveNodes := acc;
      var outEdges := EdgesOut(activeNode.name);
      for m := 0 to |outEdges|
        invariant Members(newActiveNodes, nodes)
        invariant NameSet(newActiveNodes) == NameSet(acc) + StepAlong(Names(outEdges[..m]), {activeNode.name}, ch)
      {
        var outEdge := outEdges[m];
        assert outEdge in edges;
        TakeSnoc(outEdges, m);
        NamesSnoc(outEdges[..m], outEdge);
        StepAlongSnoc(Names(outEdges[..m]), NameOf()(outEdge), {activeNode.name}, ch);
        if outEdge.value == [ch] {
          assert NameSet(newActiveNodes + [outEdge.dst]) == NameSet(newActiveNodes) + {outEdge.dst.name};
          newActiveNodes := newActiveNodes + [outEdge.dst];
        }
      }
      assert outEdges[..|outEdges|] == outEdges;
      StepAlongOutOf(Abs().arcs, activeNode.name, ch);
    }

    // -------------------------------------------------------------------
    // The steps of the conversion
    // -------------------------------------------------------------------

    /**
     * The normalisation loop, visiting the nodes in `order`: each initial
     * node gets an epsilon edge from the synthetic initial node and each
     * terminal node one to the synthetic terminal node, and the node's
     * record is replaced by an unflagged one. Reports whether any node
     * was initial and whether any was terminal.
     */
    method AddSyntheticEdges(order: seq<string>, ghost g: Nfa) returns (hasInitial: bool, hasTerminal: bool)
      requires Valid() && UserNfa(g) && Abs() == Prepare(g)
      requires IsOrdering(order, Prepare(g).nodes.Keys)
      modifies this
      ensures Valid()
      ensures Abs() == Normalize(Prepare(g), order)
      ensures hasInitial == HasInitial(g) && hasTerminal == HasTerminal(g)
      ensures InitialName in nodes && nodes[InitialName] == old(nodes[InitialName])
      ensures TerminalName in nodes && nodes[TerminalName] == old(nodes[TerminalName])
    {
      hasInitial, hasTerminal := false, false;
      for i := 0 to |order|
        invariant Valid()
        invariant Abs() == Normalize(Prepare(g), order[..i])
        invariant InitialName in nodes && nodes[InitialName] == old(nodes[InitialName])
        invariant TerminalName in nodes && nodes[TerminalName] == old(nodes[TerminalName])
        invariant hasInitial == Seen(g, order[..i], true)
        invariant hasTerminal == Seen(g, order[..i], false)
      {
        ghost var m := Abs();
        NormalizeVisit(g, order, i);
        var wasInitial, wasTerminal := NormalizeNode(order[i]);
        VisitStep(g, order, i, m, wasInitial, wasTerminal);
        hasInitial := hasInitial || wasInitial;
        hasTerminal := hasTerminal || wasTerminal;
      }
      assert order[..|order|] == order;
      OrderingCovers(g, order);
    }

    /**
     * One iteration of the normalisation loop: an initial node gets an
     * epsilon edge from the synthetic initial node, a terminal node one to
     * the synthetic terminal node, and either way the record is replaced
     * by an unflagged one. The flags tested are the ones the node had on entry.
     */
    method NormalizeNode(name: string) returns (wasInitial: bool, wasTerminal: bool)
      requires Valid() && name in nodes && InitialName in nodes && TerminalName in nodes
      modifies this
      ensures Valid()
      ensures Abs() == NormStep(old(Abs()), name)
      ensures wasInitial == old(Abs()).nodes[name].isInitial
      ensures wasTerminal == old(Abs()).nodes[name].isTerminal
      ensures nodes.Keys == old(nodes).Keys
      ensures forall k | k in nodes && k != name :: nodes[k] == old(nodes[k])
      ensures !wasInitial && !wasTerminal ==> nodes == old(nodes)
    {
      var node := nodes[name];
      wasInitial, wasTerminal := node.isInitial, node.isTerminal;
      ghost var m := Abs();
      if node.isInitial {
        AddEpsilonEdge(InitialName, name, name);
      }
      ghost var m1 := Abs();
      assert m1 == if wasInitial then SetFlags(AddArc(m, InitialName, name, ""), name, Unflagged) else m;
      if node.isTerminal {
        AddEpsilonEdge(name, TerminalName, name);
      }
    }

    /** An epsilon edge from `srcName` to `dstName`, after which `name` is registered unflagged. */
    method AddEpsilonEdge(srcName: string, dstName: string, name: string)
      requires Valid() && srcName in nodes && dstName in nodes && name in nodes
      modifies this
      ensures Valid()
      ensures Abs() == SetFlags(AddArc(old(Abs()), srcName, dstName, ""), name, Unflagged)
      ensures nodes.Keys == old(nodes).Keys
      ensures forall k | k in nodes && k != name :: nodes[k] == old(nodes[k])
    {
      AddEdge(srcName, dstName, "");
      var unflagged := new Node(name, false, false);
      ReplaceNode(name, unflagged);
    }

    /**
     * Eliminates `name`: for every edge into it that is not a self-loop and
     * every edge out of it that is not a self-loop, adds an edge labelled
     * in + (self-loops, starred) + out, then removes the node.
     */
    method EliminateNode(name: string)
      requires Valid() && name in nodes
      modifies this
      ensures Valid()
      ensures Abs() == Eliminate(old(Abs()), name)
      ensures nodes == old(nodes) - {name}
    {
      ghost var g0 := Abs();
      var inEdges := EdgesIn(name);
      var kleenStarMiddle := LoopLabelOf(inEdges, name);
      AddBypassEdges(name, inEdges, kleenStarMiddle);
      ghost var ins := Into(g0.arcs, name);
      assert Abs() == g0.(arcs := g0.arcs + Bypass(ins, OutOf(g0.arcs, name), LoopLabel(ins)));
      RemoveNode(name);
    }

    /**
     * The label standing for any number of turns round the self-loops among
     * `inEdges`: their labels alternated and starred.
     */
    method LoopLabelOf(inEdges: seq<Edge>, ghost name: string) returns (kleenStarMiddle: string)
      requires Valid()
      requires forall e | e in inEdges :: e in edges && e.dst.name == name
      ensures kleenStarMiddle == LoopLabel(Names(inEdges))
    {
      assert Registered(inEdges, nodes);
      var kleenStarValues: seq<string> := [];
      for j := 0 to |inEdges|
        invariant kleenStarValues == LoopValues(Names(inEdges[..j]))
      {
        var inEdge := inEdges[j];
        assert Registered([inEdge], nodes) by { assert inEdge in inEdges; }
        LoopValuesStep(inEdges, j, nodes);
        if inEdge.src == inEdge.dst {
          kleenStarValues := kleenStarValues + [inEdge.value];
        }
      }
      assert inEdges[..|inEdges|] == inEdges;
      kleenStarMiddle := AddKleenStar(OrJoin(kleenStarValues), |kleenStarValues| > 1);
    }

    /** The bypass edges of all edges into `name`, in edge-list order. */
    method AddBypassEdges(name: string, inEdges: seq<Edge>, mid: string)
      requires Valid() && name in nodes
      requires forall e | e in inEdges :: e in edges && e.dst.name == name
      modifies this
      ensures Valid() && nodes == old(nodes)
      ensures Abs() == old(Abs()).(arcs := old(Abs()).arcs + Bypass(Names(inEdges), OutOf(old(Abs()).arcs, name), mid))
    {
      ghost var g0 := Abs();
      ghost var outs := OutOf(g0.arcs, name);
      assert Registered(inEdges, nodes);
      for j := 0 to |inEdges|
        invariant Valid() && nodes == old(nodes)
        invariant Abs() == g0.(arcs := g0.arcs + Bypass(Names(inEdges[..j]), outs, mid))
      {
        var inEdge := inEdges[j];
        assert Registered([inEdge], nodes) by { assert inEdge in inEdges; }
        BypassPrefix(g0.arcs, inEdges, j, outs, mid);
        BypassKeepsOutOf(g0.arcs, inEdges[..j], outs, mid, name);
        AddBypassEdge(name, inEdge, mid, outs);
      }
      assert inEdges[..|inEdges|] == inEdges;
    }

    /** The bypass edges of `inEdge`, unless it is a self-loop. */
    method AddBypassEdge(name: string, inEdge: Edge, mid: string, ghost outs: seq<Arc<string>>)
      requires Valid() && Registered([inEdge], nodes)
      requires OutOf(Abs().arcs, name) == outs
      modifies this
      ensures Valid() && nodes == old(nodes)
      ensures Abs() == old(Abs()).(arcs := old(Abs()).arcs +
        if IsLoop(NameOf()(inEdge)) then [] else Fan(NameOf()(inEdge), outs, mid))
    {
      assert inEdge in [inEdge];
      if inEdge.src != inEdge.dst {
        AddFanEdges(name, inEdge, mid);
      }
    }

    /** The bypass edges of one edge into `name`, one per edge out of `name` that is not a self-loop. */
    method AddFanEdges(name: string, inEdge: Edge, mid: string)
      requires Valid()
      requires inEdge.src.name in nodes && nodes[inEdge.src.name] == inEdge.src
      modifies this
      ensures Valid() && nodes == old(nodes)
      ensures Abs() == old(Abs()).(arcs := old(Abs()).arcs + Fan(NameOf()(inEdge), OutOf(old(Abs()).arcs, name), mid))
    {
      ghost var g0 := Abs();
      var outEdges := EdgesOut(name);
      assert Registered(outEdges, nodes);
      for m := 0 to |outEdges|
        invariant Valid() && nodes == old(nodes)
        invariant Abs() == g0.(arcs := g0.arcs + Fan(NameOf()(inEdge), Names(outEdges[..m]), mid))
      {
        var outEdge := outEdges[m];
        assert Registered([outEdge], nodes) by { assert outEdge in outEdges; }
        FanPrefix(g0.arcs, inEdge, outEdges, m, mid);
        AddFanEdge(inEdge, outEdge, mid);
      }
      assert outEdges[..|outEdges|] == outEdges;
    }

    /** The bypass edge from `inEdge` across `outEdge`, unless `outEdge` is a self-loop. */
    method AddFanEdge(inEdge: Edge, outEdge: Edge, mid: string)
      requires Valid()
      requires inEdge.src.name in nodes
      requires Registered([outEdge], nodes)
      modifies this
      ensures Valid() && nodes == old(nodes)
      ensures Abs() == old(Abs()).(arcs := old(Abs()).arcs +
        if IsLoop(NameOf()(outEdge)) then [] else [Arc(inEdge.src.name, outEdge.dst.name, inEdge.value + mid + outEdge.value)])
    {
      if outEdge.src != outEdge.dst {
        AddArcPresent(Abs(), inEdge.src.name, outEdge.dst.name, inEdge.value + mid + outEdge.value);
        AddEdge(inEdge.src.name, outEdge.dst.name, inEdge.value + mid + outEdge.value);
      }
    }

    /**
     * One pass of the elimination loop over the nodes in `order`, skipping
     * the two synthetic nodes; the observer is consulted after each removal
     * and the pass stops at its first failure.
     */
    method EliminationPass(order: seq<string>, callback: Observer, initialNode: Node, terminalNode: Node, ghost h: Nfa)
      returns (err: Option<ConvertError>)
      requires Valid() && Shaped(h) && Abs() == h
      requires IsOrdering(order, h.nodes.Keys)
      requires InitialName in nodes && nodes[InitialName] == initialNode
      requires TerminalName in nodes && nodes[TerminalName] == terminalNode
      modifies this
      ensures Valid()
      ensures InitialName in nodes && nodes[InitialName] == initialNode
      ensures TerminalName in nodes && nodes[TerminalName] == terminalNode
      ensures match EliminateAll(h, order, callback)
        case Done(k) => err == None && Abs() == k
        case Aborted(step, cause) => err == Some(CallbackFailed(step, cause))
    {
      for idx := 0 to |order|
        invariant Valid()
        invariant EliminateAll(h, order[..idx], callback) == Done(Abs())
        invariant InitialName in nodes && nodes[InitialName] == initialNode
        invariant TerminalName in nodes && nodes[TerminalName] == terminalNode
      {
        var res := PassOne(order, idx, callback, initialNode, terminalNode, h);
        if res.Fail? {
          AbortedPrefix(h, order, idx + 1, callback);
          return Some(CallbackFailed(RemoveStep(order[idx]), res.cause));
        }
      }
      assert order[..|order|] == order;
      return None;
    }

    /** The elimination pass at position `idx` of `order`, as EliminateAll takes it one node further. */
    method PassOne(order: seq<string>, idx: nat, callback: Observer, initialNode: Node, terminalNode: Node, ghost h: Nfa)
      returns (res: StepResult)
      requires Valid() && Shaped(h) && IsOrdering(order, h.nodes.Keys)
      requires idx < |order| && EliminateAll(h, order[..idx], callback) == Done(Abs())
      requires InitialName in nodes && nodes[InitialName] == initialNode
      requires TerminalName in nodes && nodes[TerminalName] == terminalNode
      modifies this
      ensures Valid()
      ensures InitialName in nodes && nodes[InitialName] == initialNode
      ensures TerminalName in nodes && nodes[TerminalName] == terminalNode
      ensures res.Continue? ==> EliminateAll(h, order[..idx + 1], callback) == Done(Abs())
      ensures res.Fail? ==> EliminateAll(h, order[..idx + 1], callback) == Aborted(RemoveStep(order[idx]), res.cause)
    {
      PassStep(h, order, idx, callback);
      ghost var k := Abs();
      res := VisitNode(order[idx], callback, initialNode, terminalNode);
      if res.Fail? {
        PassFail(h, order, idx, callback, k, res.cause);
      } else {
        PassContinue(h, order, idx, callback, k, Abs());
      }
    }

    /**
     * The body of the elimination pass for one node: the synthetic nodes are
     * skipped, any other node is eliminated and the observer consulted.
     */
    method VisitNode(name: string, callback: Observer, initialNode: Node, terminalNode: Node)
      returns (res: StepResult)
      requires Valid() && name in nodes
      requires InitialName in nodes && nodes[InitialName] == initialNode
      requires TerminalName in nodes && nodes[TerminalName] == terminalNode
      modifies this
      ensures Valid()
      ensures InitialName in nodes && nodes[InitialName] == initialNode
      ensures TerminalName in nodes && nodes[TerminalName] == terminalNode
      ensures name == InitialName || name == TerminalName ==> res == Continue && Abs() == old(Abs())
      ensures name != InitialName && name != TerminalName ==>
        Abs() == Eliminate(old(Abs()), name) && res == callback(Abs(), RemoveStep(name))
    {
      var node := nodes[name];
      if node == initialNode || node == terminalNode {
        return Continue;
      }
      EliminateNode(name);
      var stepName := RemoveStep(name);
      res := callback(Abs(), stepName);
    }

    /**
     * Creates the synthetic initial and terminal nodes, links them to the
     * initial and terminal nodes of `g` by epsilon edges, clears every
     * other flag and flags the synthetic nodes. Reports whether `g` had an
     * initial and a terminal node.
     */
    method Normalise(normOrder: seq<string>, ghost g: Nfa)
      returns (initialNode: Node, terminalNode: Node, nfaHasInitial: bool, nfaHasTerminal: bool)
      requires Valid() && Abs() == g && UserNfa(g)
      requires IsOrdering(normOrder, Prepare(g).nodes.Keys)
      modifies this
      ensures Valid() && Abs() == Normalized(g, normOrder)
      ensures InitialName in nodes && nodes[InitialName] == initialNode
      ensures TerminalName in nodes && nodes[TerminalName] == terminalNode
      ensures nfaHasInitial == HasInitial(g) && nfaHasTerminal == HasTerminal(g)
    {
      initialNode := GetOrCreateNode(InitialName);
      terminalNode := GetOrCreateNode(TerminalName);
      nfaHasInitial, nfaHasTerminal := AddSyntheticEdges(normOrder, g);
      FlagSynthetic(initialNode, terminalNode);
    }

    /**
     * The elimination loop: passes over the nodes until only the two
     * synthetic ones are left, which takes one pass, unless the observer
     * fails first.
     */
    method EliminateOrdinary(elimOrder: seq<string>, callback: Observer, initialNode: Node, terminalNode: Node, ghost h: Nfa)
      returns (err: Option<ConvertError>)
      requires Shaped(h) && IsOrdering(elimOrder, h.nodes.Keys) && |h.nodes.Keys| >= 3
      requires EliminateAll(h, elimOrder, callback).Done? ==> |EliminateAll(h, elimOrder, callback).g.nodes.Keys| == 2
      requires Valid() && Abs() == h
      requires InitialName in nodes && nodes[InitialName] == initialNode
      requires TerminalName in nodes && nodes[TerminalName] == terminalNode
      modifies this
      ensures Valid()
      ensures match EliminateAll(h, elimOrder, callback)
        case Done(k) => err == None && Abs() == k
        case Aborted(step, cause) => err == Some(CallbackFailed(step, cause))
    {
      ghost var done := false;
      while |nodes| > 2
        invariant Valid()
        invariant InitialName in nodes && nodes[InitialName] == initialNode
        invariant TerminalName in nodes && nodes[TerminalName] == terminalNode
        invariant !done ==> Abs() == h
        invariant done ==> EliminateAll(h, elimOrder, callback) == Done(Abs())
        decreases if done then 0 else 1
      {
        err := EliminationPass(elimOrder, callback, initialNode, terminalNode, h);
        if err.Some? {
          return;
        }
        done := true;
      }
      err := None;
    }

    /**
     * The conversion proper, on the working copy: the "start" checkpoint,
     * normalisation, the "create-initial-terminal" checkpoint, elimination
     * and the final alternation.
     */
    method Convert(normOrder: seq<string>, elimOrder: seq<string>, callback: Observer, ghost g: Nfa)
      returns (r: Result<string>)
      requires Valid() && Abs() == g && UserNfa(g)
      requires IsOrdering(normOrder, Prepare(g).nodes.Keys) && IsOrdering(elimOrder, Prepare(g).nodes.Keys)
      modifies this
      ensures r == ToRegexSpec(g, normOrder, elimOrder, callback)
    {
      var res := callback(Abs(), StartStep);
      if res.Fail? {
        return Err(CallbackFailed(StartStep, res.cause));
      }

      // Normalisation: one synthetic initial and one synthetic terminal node
      var initialNode, terminalNode, nfaHasInitial, nfaHasTerminal := Normalise(normOrder, g);
      if !nfaHasInitial {
        return Err(NoInitial);
      }
      if !nfaHasTerminal {
        return Err(NoTerminal);
      }
      res := callback(Abs(), CreateStep);
      if res.Fail? {
        return Err(CallbackFailed(CreateStep, res.cause));
      }

      // Elimination of the ordinary nodes, then the final alternation of the labels left
      EliminationSetup(g, normOrder, elimOrder, callback);
      r := EliminateAndFinish(elimOrder, callback, initialNode, terminalNode, Abs());
    }

    /** Eliminates every ordinary node, then alternates the labels that are left. */
    method EliminateAndFinish(elimOrder: seq<string>, callback: Observer, initialNode: Node, terminalNode: Node, ghost h: Nfa)
      returns (r: Result<string>)
      requires Shaped(h) && IsOrdering(elimOrder, h.nodes.Keys) && |h.nodes.Keys| >= 3
      requires EliminateAll(h, elimOrder, callback).Done? ==> |EliminateAll(h, elimOrder, callback).g.nodes.Keys| == 2
      requires Valid() && Abs() == h
      requires InitialName in nodes && nodes[InitialName] == initialNode
      requires TerminalName in nodes && nodes[TerminalName] == terminalNode
      modifies this
      ensures r == Eliminated(h, elimOrder, callback)
    {
      var err := EliminateOrdinary(elimOrder, callback, initialNode, terminalNode, h);
      if err.Some? {
        return Err(err.value);
      }
      r := FinalRegex();
    }

    /** Flags the two synthetic nodes, after the normalisation loop. */
    method FlagSynthetic(initialNode: Node, terminalNode: Node)
      requires Valid()
      requires InitialName in nodes && nodes[InitialName] == initialNode
      requires TerminalName in nodes && nodes[TerminalName] == terminalNode
      modifies initialNode, terminalNode
      ensures Abs() == MarkSynthetic(old(Abs()))
    {
      initialNode.isInitial := true;
      terminalNode.isTerminal := true;
    }

    /** The final step: every remaining label, alternated, if some edge runs from an initial to a terminal node. */
    method FinalRegex() returns (r: Result<string>)
      requires Valid()
      ensures r == Finish(Abs())
    {
      var hasInitialTerminalEdge := false;
      var res: seq<string> := [];
      for i := 0 to |edges|
        invariant res == Values(Names(edges[..i]))
        invariant hasInitialTerminalEdge <==>
          exists j | 0 <= j < i :: edges[j].src.isInitial && edges[j].dst.isTerminal
      {
        var edge := edges[i];
        TakeSnoc(edges, i);
        NamesSnoc(edges[..i], edge);
        if edge.src.isInitial && edge.dst.isTerminal {
          hasInitialTerminalEdge := true;
        }
        res := res + [edge.value];
      }
      assert edges[..|edges|] == edges;
      if hasInitialTerminalEdge {
        var j :| 0 <= j < |edges| && edges[j].src.isInitial && edges[j].dst.isTerminal;
        assert edges[j] in edges;
        assert Names(edges)[j] in Abs().arcs;
      } else {
        forall a | a in Abs().arcs
          ensures !(a.src in Abs().nodes && a.dst in Abs().nodes &&
                    Abs().nodes[a.src].isInitial && Abs().nodes[a.dst].isTerminal)
        {
          var j :| 0 <= j < |edges| && Names(edges)[j] == a;
          assert edges[j] in edges;
        }
        return Err(NoPath);
      }
      return Ok(OrJoin(res));
    }
  }

  /** The bypass arcs of one in-arc grow by one out-edge at a time. */
  lemma FanPrefix(base: seq<Arc<string>>, inEdge: Edge, outEdges: seq<Edge>, m: nat, mid: string)
    requires m < |outEdges|
    ensures var o := outEdges[m];
      base + Fan(NameOf()(inEdge), Names(outEdges[..m + 1]), mid) ==
        base + Fan(NameOf()(inEdge), Names(outEdges[..m]), mid) +
        (if IsLoop(NameOf()(o)) then [] else [Arc(inEdge.src.name, o.dst.name, inEdge.value + mid + o.value)])
  {
    var i, o := NameOf()(inEdge), NameOf()(outEdges[m]);
    TakeSnoc(outEdges, m);
    NamesSnoc(outEdges[..m], outEdges[m]);
    FanSnoc(i, Names(outEdges[..m]), o, mid);
    AppendAssoc(base, Fan(i, Names(outEdges[..m]), mid),
      if IsLoop(o) then [] else [Arc(i.src, o.dst, i.value + mid + o.value)]);
  }

  /** The bypass arcs grow by one in-edge at a time. */
  lemma BypassPrefix(base: seq<Arc<string>>, inEdges: seq<Edge>, j: nat, outs: seq<Arc<string>>, mid: string)
    requires j < |inEdges|
    ensures var i := NameOf()(inEdges[j]);
      base + Bypass(Names(inEdges[..j + 1]), outs, mid) ==
        base + Bypass(Names(inEdges[..j]), outs, mid) + (if IsLoop(i) then [] else Fan(i, outs, mid))
  {
    var i := NameOf()(inEdges[j]);
    TakeSnoc(inEdges, j);
    NamesSnoc(inEdges[..j], inEdges[j]);
    BypassSnoc(Names(inEdges[..j]), i, outs, mid);
    AppendAssoc(base, Bypass(Names(inEdges[..j]), outs, mid), if IsLoop(i) then [] else Fan(i, outs, mid));
  }

  /** Bypass arcs of edges into `name` never leave `name`, so the arcs out of it stay as they were. */
  lemma BypassKeepsOutOf(arcs: seq<Arc<string>>, inEdges: seq<Edge>, outs: seq<Arc<string>>, mid: string, name: string)
    requires forall e | e in inEdges :: e.dst.name == name
    requires outs == OutOf(arcs, name)
    ensures OutOf(arcs + Bypass(Names(inEdges), outs, mid), name) == outs
  {
    forall a | a in Names(inEdges) ensures a.dst == name {
      var k :| 0 <= k < |inEdges| && Names(inEdges)[k] == a;
      assert inEdges[k] in inEdges;
    }
    BypassNotOutOf(Names(inEdges), outs, mid, name);
    FilterAppend(arcs, Bypass(Names(inEdges), outs, mid), SrcIs(name));
  }

  // ---------------------------------------------------------------------
  // The conversion
  // ---------------------------------------------------------------------

  /** The conversion options: an optional step observer. */
  datatype Config = Config(stepCallback: Option<Observer>)

  /** The observer a configuration stands for; none configured means one that never fails. */
  function CallbackOf(config: Config): (obs: Observer)
    ensures config.stepCallback.Some? ==> obs == config.stepCallback.value
    ensures config.stepCallback.None? ==> forall h, step :: obs(h, step) == Continue
  {
    match config.stepCallback
    case None => Silent
    case Some(f) => f
  }

  /**
   * Converts `nfa` to a regular expression by state elimination, working
   * on a shallow copy: the caller's automaton is not modified (the method
   * may modify nothing that existed before it was called). `normOrder`
   * and `elimOrder` are the orders in which the two loops visit the nodes.
   */
  method ToRegexWithConfig(nfa: NFA?, config: Config, normOrder: seq<string>, elimOrder: seq<string>)
    returns (r: Result<string>)
    requires nfa != null ==> nfa.Valid() && UserNfa(nfa.Abs())
    requires nfa != null ==> IsOrdering(normOrder, Prepare(nfa.Abs()).nodes.Keys)
    requires nfa != null ==> IsOrdering(elimOrder, Prepare(nfa.Abs()).nodes.Keys)
    ensures nfa == null ==> r == Err(NilNfa)
    ensures nfa != null ==> r == ToRegexSpec(nfa.Abs(), normOrder, elimOrder, CallbackOf(config))
  {
    var callback := CallbackOf(config);
    if nfa == null {
      return Err(NilNfa);
    }
    ghost var g := nfa.Abs();
    var w := nfa.ShallowCopy();
    r := w.Convert(normOrder, elimOrder, callback, g);
  }

  /** The conversion with no observer: it never reports a callback failure. */
  method ToRegex(nfa: NFA?, normOrder: seq<string>, elimOrder: seq<string>) returns (r: Result<string>)
    requires nfa != null ==> nfa.Valid() && UserNfa(nfa.Abs())
    requires nfa != null ==> IsOrdering(normOrder, Prepare(nfa.Abs()).nodes.Keys)
    requires nfa != null ==> IsOrdering(elimOrder, Prepare(nfa.Abs()).nodes.Keys)
    ensures nfa == null ==> r == Err(NilNfa)
    ensures nfa != null ==> r == ToRegexSpec(nfa.Abs(), normOrder, elimOrder, Silent)
    ensures !(r.Err? && r.error.CallbackFailed?)
  {
    r := ToRegexWithConfig(nfa, Config(None), normOrder, elimOrder);
    if nfa != null {
      SilentConversion(nfa.Abs(), normOrder, elimOrder);
    }
  }

  /** Every record in `ns` is registered in `nodes` under its name. */
  ghost predicate Members(ns: seq<Node>, nodes: map<string, Node>)
  {
    forall n | n in ns :: n.name in nodes && nodes[n.name] == n
  }

  ghost function NameSet(ns: seq<Node>): set<string>
  {
    set n | n in ns :: n.name
  }
}
