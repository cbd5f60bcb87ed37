/**
 * Value view of an automaton, used as the specification of the library's
 * in-place operations: nodes are identified by their names, every node
 * carries its initial/terminal flags, and the edge list is an ordered
 * sequence of labelled arcs (the empty label is an epsilon transition).
 * Parallel arcs and self-loops are allowed.
 */
module Graph {
  import opened Combinators

  /** An arc between two node identities. `N` is a name here, a node object in the classes. */
  datatype Arc<N> = Arc(src: N, dst: N, value: string)

  datatype Flags = Flags(isInitial: bool, isTerminal: bool)

  const Unflagged := Flags(false, false)

  /** The synthetic nodes created by the elimination engine. */
  const InitialName: string := "__initial__"
  const TerminalName: string := "__terminal__"

  datatype Nfa = Nfa(nodes: map<string, Flags>, arcs: seq<Arc<string>>)

  /** Every arc joins two nodes the automaton owns. */
  ghost predicate WellFormed(g: Nfa)
  {
    forall a | a in g.arcs :: a.src in g.nodes && a.dst in g.nodes
  }

  // ---------------------------------------------------------------------
  // Order-preserving filters and maps over sequences
  // ---------------------------------------------------------------------

  /** The elements of `s` satisfying `p`, in their original order. */
  function Filter<T>(s: seq<T>, p: T -> bool): (r: seq<T>)
    ensures |r| <= |s|
  {
    if s == [] then []
    else
      var last := s[|s| - 1];
      Filter(s[..|s| - 1], p) + (if p(last) then [last] else [])
  }

  /** Filter keeps exactly the elements satisfying `p`. */
  lemma {:induction false} FilterMembers<T>(s: seq<T>, p: T -> bool)
    ensures forall x | x in Filter(s, p) :: x in s && p(x)
    ensures forall x | x in s && p(x) :: x in Filter(s, p)
    decreases |s|
  {
    if s != [] {
      FilterMembers(s[..|s| - 1], p);
      assert s == s[..|s| - 1] + [s[|s| - 1]];
    }
  }

  lemma {:induction false} FilterAppend<T>(a: seq<T>, b: seq<T>, p: T -> bool)
    ensures Filter(a + b, p) == Filter(a, p) + Filter(b, p)
    decreases |b|
  {
    if b == [] {
      assert a + b == a;
    } else {
      assert (a + b)[..|a + b| - 1] == a + b[..|b| - 1];
      FilterAppend(a, b[..|b| - 1], p);
    }
  }

  /** Filtering by a predicate that holds of every element keeps everything. */
  lemma {:induction false} FilterAll<T>(s: seq<T>, p: T -> bool)
    requires forall i | 0 <= i < |s| :: p(s[i])
    ensures Filter(s, p) == s
    decreases |s|
  {
    if s != [] {
      FilterAll(s[..|s| - 1], p);
    }
  }

  /** Filtering by a predicate that holds of no element keeps nothing. */
  lemma {:induction false} FilterNone<T>(s: seq<T>, p: T -> bool)
    requires forall i | 0 <= i < |s| :: !p(s[i])
    ensures Filter(s, p) == []
    decreases |s|
  {
    if s != [] {
      FilterNone(s[..|s| - 1], p);
    }
  }

  /** `f` applied to every element of `s`, in order. */
  function Map<A, B>(s: seq<A>, f: A -> B): (r: seq<B>)
    ensures |r| == |s|
  {
    seq(|s|, i requires 0 <= i < |s| => f(s[i]))
  }

  /**
   * Renaming the elements and then filtering on the renamed value is the
   * same as filtering first, when the two tests agree element by element.
   */
  lemma {:induction false} MapFilter<A, B>(s: seq<A>, f: A -> B, p: A -> bool, q: B -> bool)
    requires forall i | 0 <= i < |s| :: p(s[i]) == q(f(s[i]))
    ensures Map(Filter(s, p), f) == Filter(Map(s, f), q)
    decreases |s|
  {
    if s != [] {
      var init := s[..|s| - 1];
      MapFilter(init, f, p, q);
      assert Map(s, f) == Map(init, f) + [f(s[|s| - 1])];
      FilterAppend(Map(init, f), [f(s[|s| - 1])], q);
      assert Map(Filter(init, p) + (if p(s[|s| - 1]) then [s[|s| - 1]] else []), f)
          == Map(Filter(init, p), f) + Map(if p(s[|s| - 1]) then [s[|s| - 1]] else [], f);
    }
  }

  // ---------------------------------------------------------------------
  // Adjacency queries
  // ---------------------------------------------------------------------

  // The tests behind the filters are named, so that lemmas about Filter
  // can be applied to exactly the function value each filter uses.

  function DstIs<N(==)>(n: N): Arc<N> -> bool { (a: Arc<N>) => a.dst == n }
  function SrcIs<N(==)>(n: N): Arc<N> -> bool { (a: Arc<N>) => a.src == n }
  function Misses<N(==)>(n: N): Arc<N> -> bool { (a: Arc<N>) => a.src != n && a.dst != n }
  function LoopTest<N(==)>(): Arc<N> -> bool { (a: Arc<N>) => IsLoop(a) }
  function ProperTest<N(==)>(): Arc<N> -> bool { (a: Arc<N>) => !IsLoop(a) }

  /** Arcs whose destination is `n`, in edge-list order. */
  function Into<N(==)>(es: seq<Arc<N>>, n: N): seq<Arc<N>>
  {
    Filter(es, DstIs(n))
  }

  /** Arcs whose source is `n`, in edge-list order. */
  function OutOf<N(==)>(es: seq<Arc<N>>, n: N): seq<Arc<N>>
  {
    Filter(es, SrcIs(n))
  }

  /** Arcs not incident to `n`, in edge-list order. */
  function Avoiding<N(==)>(es: seq<Arc<N>>, n: N): seq<Arc<N>>
  {
    Filter(es, Misses(n))
  }

  predicate IsLoop<N(==)>(a: Arc<N>) { a.src == a.dst }

  /** Arcs that are not self-loops, in order. */
  function Proper<N(==)>(es: seq<Arc<N>>): seq<Arc<N>>
  {
    Filter(es, ProperTest())
  }

  function Values<N>(es: seq<Arc<N>>): seq<string>
  {
    Map(es, (a: Arc<N>) => a.value)
  }

  /** The self-loops among `es`, in order. */
  function Loops<N(==)>(es: seq<Arc<N>>): seq<Arc<N>>
  {
    Filter(es, LoopTest())
  }

  // One-step unfoldings of the filters on a sequence that grows at the end.

  lemma IntoSnoc<N>(es: seq<Arc<N>>, x: Arc<N>, n: N)
    ensures Into(es + [x], n) == Into(es, n) + (if x.dst == n then [x] else [])
  {
    assert (es + [x])[..|es|] == es;
  }

  lemma OutOfSnoc<N>(es: seq<Arc<N>>, x: Arc<N>, n: N)
    ensures OutOf(es + [x], n) == OutOf(es, n) + (if x.src == n then [x] else [])
  {
    assert (es + [x])[..|es|] == es;
  }

  lemma AvoidingSnoc<N>(es: seq<Arc<N>>, x: Arc<N>, n: N)
    ensures Avoiding(es + [x], n) == Avoiding(es, n) + (if x.src != n && x.dst != n then [x] else [])
  {
    assert (es + [x])[..|es|] == es;
  }

  lemma LoopsSnoc<N>(es: seq<Arc<N>>, x: Arc<N>)
    ensures Loops(es + [x]) == Loops(es) + (if IsLoop(x) then [x] else [])
  {
    assert (es + [x])[..|es|] == es;
  }

  lemma ProperSnoc<N>(es: seq<Arc<N>>, x: Arc<N>)
    ensures Proper(es + [x]) == Proper(es) + (if IsLoop(x) then [] else [x])
  {
    assert (es + [x])[..|es|] == es;
  }

  // ---------------------------------------------------------------------
  // The automaton operations, on values
  // ---------------------------------------------------------------------

  /** Registers `name` with both flags false, unless it is already present. */
  function GetOrCreate(g: Nfa, name: string): Nfa
  {
    if name in g.nodes then g else g.(nodes := g.nodes[name := Unflagged])
  }

  /** Creates the missing endpoints, then appends one arc at the end. */
  function AddArc(g: Nfa, src: string, dst: string, value: string): Nfa
  {
    var g' := GetOrCreate(GetOrCreate(g, src), dst);
    g'.(arcs := g'.arcs + [Arc(src, dst, value)])
  }

  /** Gives `name` new flags; the arcs are unaffected, since they refer to names. */
  function SetFlags(g: Nfa, name: string, f: Flags): Nfa
  {
    g.(nodes := g.nodes[name := f])
  }

  /** Deletes `name` and every arc incident to it. */
  function RemoveNode(g: Nfa, name: string): Nfa
  {
    Nfa(g.nodes - {name}, Avoiding(g.arcs, name))
  }

  lemma TakeSnoc<T>(s: seq<T>, m: nat)
    requires m < |s|
    ensures s[..m + 1] == s[..m] + [s[m]]
  {
  }

  lemma PrefixTrans<T>(a: seq<T>, b: seq<T>, c: seq<T>)
    requires |c| <= |b| <= |a| && a[..|b|] == b && b[..|c|] == c
    ensures a[..|c|] == c
  {
    assert forall i | 0 <= i < |c| :: a[i] == b[i];
  }

  lemma AppendAssoc<T>(a: seq<T>, b: seq<T>, c: seq<T>)
    ensures a + b + c == a + (b + c)
  {
  }

  /** Between registered nodes AddArc only appends the arc. */
  lemma AddArcPresent(g: Nfa, src: string, dst: string, value: string)
    requires src in g.nodes && dst in g.nodes
    ensures AddArc(g, src, dst, value) == Nfa(g.nodes, g.arcs + [Arc(src, dst, value)])
  {
  }

  /** AddArc appends exactly one arc and changes no existing node or arc. */
  lemma AddArcFrame(g: Nfa, src: string, dst: string, value: string)
    requires WellFormed(g)
    ensures var r := AddArc(g, src, dst, value);
      && WellFormed(r)
      && r.arcs[..|g.arcs|] == g.arcs && r.arcs[|g.arcs|] == Arc(src, dst, value)
      && |r.arcs| == |g.arcs| + 1
      && r.nodes.Keys == g.nodes.Keys + {src, dst}
      && (forall k | k in g.nodes :: r.nodes[k] == g.nodes[k])
      && (forall k | k in r.nodes && k !in g.nodes :: r.nodes[k] == Unflagged)
  {
    var r := AddArc(g, src, dst, value);
    assert r.arcs[..|g.arcs|] == g.arcs;
  }

  /** RemoveNode keeps exactly the arcs not incident to the node, in order. */
  lemma RemoveNodeFrame(g: Nfa, name: string)
    requires WellFormed(g)
    ensures var r := RemoveNode(g, name);
      && WellFormed(r)
      && r.nodes.Keys == g.nodes.Keys - {name}
      && (forall a | a in r.arcs :: a.src != name && a.dst != name)
      && (forall a | a in g.arcs && a.src != name && a.dst != name :: a in r.arcs)
      && (name in g.nodes ==> |r.nodes| == |g.nodes| - 1)
  {
    FilterMembers(g.arcs, Misses(name));
  }

  // ---------------------------------------------------------------------
  // Eliminating one node
  // ---------------------------------------------------------------------

  /** The labels of the self-loops among `ins`, in order. */
  function LoopValues(ins: seq<Arc<string>>): seq<string>
  {
    Values(Loops(ins))
  }

  /**
   * The label standing for "any number of turns round the loops":
   * the alternation of the loop labels, starred, without extra
   * parentheses when there are two or more loops (the alternation is
   * already a group then).
   */
  function LoopLabel(ins: seq<Arc<string>>): string
  {
    var loops := LoopValues(ins);
    AddKleenStar(OrJoin(loops), |loops| > 1)
  }

  /** The bypass arcs of one in-arc `i`, one per proper out-arc, in order. */
  function Fan(i: Arc<string>, outs: seq<Arc<string>>, mid: string): seq<Arc<string>>
  {
    if outs == [] then []
    else
      var o := outs[|outs| - 1];
      Fan(i, outs[..|outs| - 1], mid) + (if IsLoop(o) then [] else [Arc(i.src, o.dst, i.value + mid + o.value)])
  }

  /** The bypass arcs of all proper in-arcs, in in-arc-major order. */
  function Bypass(ins: seq<Arc<string>>, outs: seq<Arc<string>>, mid: string): seq<Arc<string>>
  {
    if ins == [] then []
    else
      var i := ins[|ins| - 1];
      Bypass(ins[..|ins| - 1], outs, mid) + (if IsLoop(i) then [] else Fan(i, outs, mid))
  }

  lemma FanSnoc(i: Arc<string>, outs: seq<Arc<string>>, o: Arc<string>, mid: string)
    ensures Fan(i, outs + [o], mid) ==
      Fan(i, outs, mid) + (if IsLoop(o) then [] else [Arc(i.src, o.dst, i.value + mid + o.value)])
  {
    assert (outs + [o])[..|outs|] == outs;
  }

  lemma BypassSnoc(ins: seq<Arc<string>>, i: Arc<string>, outs: seq<Arc<string>>, mid: string)
    ensures Bypass(ins + [i], outs, mid) == Bypass(ins, outs, mid) + (if IsLoop(i) then [] else Fan(i, outs, mid))
  {
    assert (ins + [i])[..|ins|] == ins;
  }

  lemma ValuesSnoc<N>(es: seq<Arc<N>>, x: Arc<N>)
    ensures Values(es + [x]) == Values(es) + [x.value]
  {
  }

  /** No arc leaves `n` when every arc has another source. */
  lemma {:induction false} OutOfNone(es: seq<Arc<string>>, n: string)
    requires forall a | a in es :: a.src != n
    ensures OutOf(es, n) == []
    decreases |es|
  {
    if es != [] {
      OutOfNone(es[..|es| - 1], n);
    }
  }

  /** Removes `n`, replacing every path through it by a direct arc. */
  function Eliminate(g: Nfa, n: string): Nfa
  {
    var ins := Into(g.arcs, n);
    var outs := OutOf(g.arcs, n);
    RemoveNode(g.(arcs := g.arcs + Bypass(ins, outs, LoopLabel(ins))), n)
  }

  lemma {:induction false} FanSize(i: Arc<string>, outs: seq<Arc<string>>, mid: string)
    ensures |Fan(i, outs, mid)| == |Proper(outs)|
    decreases |outs|
  {
    if outs != [] {
      FanSize(i, outs[..|outs| - 1], mid);
    }
  }

  /** One new arc per pair of a proper in-arc and a proper out-arc. */
  lemma {:induction false} BypassSize(ins: seq<Arc<string>>, outs: seq<Arc<string>>, mid: string)
    ensures |Bypass(ins, outs, mid)| == |Proper(ins)| * |Proper(outs)|
    decreases |ins|
  {
    if ins != [] {
      var init, i := ins[..|ins| - 1], ins[|ins| - 1];
      BypassSize(init, outs, mid);
      FanSize(i, outs, mid);
      assert ins == init + [i];
      ProperSnoc(init, i);
      var p, q := |Proper(init)|, |Proper(outs)|;
      assert |Bypass(init, outs, mid)| == p * q;
      if IsLoop(i) {
        assert |Proper(ins)| == p;
        assert |Bypass(ins, outs, mid)| == p * q;
      } else {
        assert |Proper(ins)| == p + 1;
        assert |Bypass(ins, outs, mid)| == p * q + q;
        MulSucc(p, q);
      }
    }
  }

  lemma MulSucc(p: nat, q: nat)
    ensures (p + 1) * q == p * q + q
  {
  }

  lemma {:induction false} FanMembers(i: Arc<string>, outs: seq<Arc<string>>, mid: string)
    ensures forall a :: a in Fan(i, outs, mid) <==>
      exists o :: o in outs && !IsLoop(o) && a == Arc(i.src, o.dst, i.value + mid + o.value)
    decreases |outs|
  {
    if outs != [] {
      FanMembers(i, outs[..|outs| - 1], mid);
      assert outs == outs[..|outs| - 1] + [outs[|outs| - 1]];
    }
  }

  /**
   * The bypass arcs are exactly the compositions `i.value + mid + o.value`
   * of a proper in-arc `i` with a proper out-arc `o`.
   */
  lemma {:induction false} BypassMembers(ins: seq<Arc<string>>, outs: seq<Arc<string>>, mid: string)
    ensures forall a :: a in Bypass(ins, outs, mid) <==>
      exists i, o :: i in ins && o in outs && !IsLoop(i) && !IsLoop(o) &&
        a == Arc(i.src, o.dst, i.value + mid + o.value)
    decreases |ins|
  {
    if ins != [] {
      BypassMembers(ins[..|ins| - 1], outs, mid);
      FanMembers(ins[|ins| - 1], outs, mid);
      assert ins == ins[..|ins| - 1] + [ins[|ins| - 1]];
    }
  }

  /** Bypass arcs of arcs into `n` never leave `n`. */
  lemma BypassNotOutOf(ins: seq<Arc<string>>, outs: seq<Arc<string>>, mid: string, n: string)
    requires forall i | i in ins :: i.dst == n
    ensures OutOf(Bypass(ins, outs, mid), n) == []
  {
    BypassMembers(ins, outs, mid);
    OutOfNone(Bypass(ins, outs, mid), n);
  }

  /** Bypass arcs join nodes the automaton owns and never touch the eliminated node. */
  lemma BypassEndpoints(g: Nfa, n: string)
    ensures var ins := Into(g.arcs, n);
      forall a | a in Bypass(ins, OutOf(g.arcs, n), LoopLabel(ins)) ::
        a.src != n && a.dst != n && (WellFormed(g) ==> a.src in g.nodes && a.dst in g.nodes)
  {
    var ins := Into(g.arcs, n);
    FilterMembers(g.arcs, DstIs(n));
    FilterMembers(g.arcs, SrcIs(n));
    BypassMembers(ins, OutOf(g.arcs, n), LoopLabel(ins));
  }

  lemma EliminateArcs(g: Nfa, n: string)
    ensures var ins := Into(g.arcs, n);
      Eliminate(g, n).arcs == Avoiding(g.arcs, n) + Bypass(ins, OutOf(g.arcs, n), LoopLabel(ins))
  {
    var ins := Into(g.arcs, n);
    var b := Bypass(ins, OutOf(g.arcs, n), LoopLabel(ins));
    BypassEndpoints(g, n);
    FilterAppend(g.arcs, b, Misses(n));
    forall i | 0 <= i < |b| ensures Misses(n)(b[i]) {
      assert b[i] in b;
    }
    FilterAll(b, Misses(n));
  }

  /**
   * Eliminating `n`: the node disappears, the arcs not incident to it keep
   * their order, and the bypass arcs follow them.
   */
  lemma EliminateShape(g: Nfa, n: string)
    requires WellFormed(g)
    requires n in g.nodes
    ensures var ins := Into(g.arcs, n);
      var r := Eliminate(g, n);
      && WellFormed(r)
      && r.nodes == g.nodes - {n}
      && |r.nodes| == |g.nodes| - 1
      && r.arcs == Avoiding(g.arcs, n) + Bypass(ins, OutOf(g.arcs, n), LoopLabel(ins))
  {
    var r := Eliminate(g, n);
    EliminateArcs(g, n);
    BypassEndpoints(g, n);
    FilterMembers(g.arcs, Misses(n));
    assert WellFormed(r);
    MapRemoveSize(g.nodes, n);
  }

  lemma MapRemoveSize<K, V>(m: map<K, V>, k: K)
    requires k in m
    ensures |m - {k}| == |m| - 1
  {
    assert (m - {k}).Keys == m.Keys - {k};
  }

  /** The worked example of the source: a -> (x loop) -> b becomes "ax*b". */
  lemma EliminateExample()
    ensures var g := Nfa(map["1" := Unflagged, "2" := Unflagged, "3" := Unflagged],
                         [Arc("1", "2", "a"), Arc("2", "2", "x"), Arc("2", "3", "b")]);
      Eliminate(g, "2").arcs == [Arc("1", "3", "ax*b")]
  {
    var a, x, b := Arc("1", "2", "a"), Arc("2", "2", "x"), Arc("2", "3", "b");
    var c := Arc("1", "3", "ax*b");
    var arcs := [a, x, b];
    ExampleFilters(a, x, b);
    var ins := Into(arcs, "2");
    var outs := OutOf(arcs, "2");
    ExampleLoopLabel(a, x);
    assert LoopLabel(ins) == "x*";
    ExampleBypass(a, x, b);
    assert Bypass(ins, outs, LoopLabel(ins)) == [c];
    AvoidingSnoc([a, x, b], c, "2");
    assert arcs + [c] == [a, x, b] + [c];
  }

  lemma ExampleFilters(a: Arc<string>, x: Arc<string>, b: Arc<string>)
    requires a == Arc("1", "2", "a") && x == Arc("2", "2", "x") && b == Arc("2", "3", "b")
    ensures Into([a, x, b], "2") == [a, x]
    ensures OutOf([a, x, b], "2") == [x, b]
    ensures Avoiding([a, x, b], "2") == []
  {
    assert [a, x, b] == [a, x] + [b] && [a, x] == [a] + [x] && [a] == [] + [a];
    IntoSnoc([], a, "2"); IntoSnoc([a], x, "2"); IntoSnoc([a, x], b, "2");
    OutOfSnoc([], a, "2"); OutOfSnoc([a], x, "2"); OutOfSnoc([a, x], b, "2");
    AvoidingSnoc([], a, "2"); AvoidingSnoc([a], x, "2"); AvoidingSnoc([a, x], b, "2");
  }

  lemma ExampleLoopLabel(a: Arc<string>, x: Arc<string>)
    requires a == Arc("1", "2", "a") && x == Arc("2", "2", "x")
    ensures LoopLabel([a, x]) == "x*"
  {
    assert [a, x] == [a] + [x] && [a] == [] + [a];
    LoopsSnoc([], a); LoopsSnoc([a], x);
    assert Loops([a, x]) == [x];
    assert LoopValues([a, x]) == ["x"];
    OrJoinExamples();
  }

  /**
   * The loop label with the grouping flag counted over the loop labels
   * that the alternation keeps, so the star covers the whole alternation
   * even when an empty self-loop label is dropped from it.
   */
  function GroupedLoopLabel(ins: seq<Arc<string>>): string
  {
    var loops := LoopValues(ins);
    AddKleenStar(OrJoin(loops), |NonEmpty(loops)| > 1)
  }

  /** The star of the grouped loop label applies to the whole of the alternation. */
  lemma GroupedLoopLabelStarsAll(ins: seq<Arc<string>>)
    ensures var kept := NonEmpty(LoopValues(ins)); var r := GroupedLoopLabel(ins);
      && (r == "" <==> kept == [])
      && (|kept| == 1 && |kept[0]| == 1 ==> r == kept[0] + "*")
      && (|kept| == 1 && |kept[0]| > 1 ==> r == "(" + kept[0] + ")*")
      && (|kept| >= 2 ==> r == "(" + Join(kept) + ")*")
  {
    NonEmptyIsEmpty(LoopValues(ins));
  }

  /** Where no self-loop label is empty, the grouped label is the one the source builds. */
  lemma GroupedLoopLabelAgrees(ins: seq<Arc<string>>)
    requires forall i | 0 <= i < |LoopValues(ins)| :: LoopValues(ins)[i] != ""
    ensures GroupedLoopLabel(ins) == LoopLabel(ins)
  {
    NonEmptyKeepsAll(LoopValues(ins));
  }

  /**
   * Self-loops labelled "ab" and "": the alternation drops the empty label,
   * but the grouping flag still counts two loops, so the star covers only
   * the last character of "ab".
   */
  lemma LoopLabelUngrouped()
    ensures LoopLabel([Arc("n", "n", "ab"), Arc("n", "n", "")]) == "ab*"
    ensures GroupedLoopLabel([Arc("n", "n", "ab"), Arc("n", "n", "")]) == "(ab)*"
  {
    var p, q := Arc("n", "n", "ab"), Arc("n", "n", "");
    assert [p, q] == [p] + [q] && [p] == [] + [p];
    LoopsSnoc([], p); LoopsSnoc([p], q);
    assert LoopValues([p, q]) == ["ab", ""];
    assert ["ab", ""][..1] == ["ab"];
    assert NonEmpty(["ab", ""]) == ["ab"];
  }

  lemma ExampleBypass(a: Arc<string>, x: Arc<string>, b: Arc<string>)
    requires a == Arc("1", "2", "a") && x == Arc("2", "2", "x") && b == Arc("2", "3", "b")
    ensures Bypass([a, x], [x, b], "x*") == [Arc("1", "3", "ax*b")]
  {
    assert [x, b][..1] == [x] && [x][..0] == [];
    assert Fan(a, [x], "x*") == [];
    assert a.value + "x*" + b.value == "ax*b";
    assert Fan(a, [x, b], "x*") == [Arc("1", "3", "ax*b")];
    assert [a, x][..1] == [a] && [a][..0] == [];
    assert Bypass([a], [x, b], "x*") == Fan(a, [x, b], "x*");
  }
}
