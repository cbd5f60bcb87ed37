/**
 * What it means for an automaton to accept a string, as the source's
 * simulation decides it: start from every initial node, follow on each
 * character the arcs whose label is exactly that one character (there is
 * no epsilon closure: an arc labelled "" or "ab" is never followed), and
 * accept when a terminal node is active at the end.
 */
module Simulation {
  import opened Graph

  function Initials(g: Nfa): (r: set<string>)
    ensures forall k | k in r :: k in g.nodes && g.nodes[k].isInitial
  {
    set k | k in g.nodes && g.nodes[k].isInitial
  }

  /** What one arc contributes to a step. */
  function Contribution(a: Arc<string>, active: set<string>, c: char): set<string>
  {
    if a.src in active && a.value == [c] then {a.dst} else {}
  }

  /** The targets of the arcs in `arcs` that leave `active` and are labelled exactly `c`. */
  function StepAlong(arcs: seq<Arc<string>>, active: set<string>, c: char): set<string>
  {
    if arcs == [] then {}
    else
      StepAlong(arcs[..|arcs| - 1], active, c) + Contribution(arcs[|arcs| - 1], active, c)
  }

  /** The nodes reached from `active` over one arc labelled exactly `c`. */
  function Step(g: Nfa, active: set<string>, c: char): set<string>
  {
    StepAlong(g.arcs, active, c)
  }

  lemma {:induction false} StepAlongMembers(arcs: seq<Arc<string>>, active: set<string>, c: char, k: string)
    ensures k in StepAlong(arcs, active, c) <==>
      exists a | a in arcs :: a.src in active && a.value == [c] && a.dst == k
    decreases |arcs|
  {
    if arcs != [] {
      var init := arcs[..|arcs| - 1];
      StepAlongMembers(init, active, c, k);
      assert arcs == init + [arcs[|arcs| - 1]];
    }
  }

  /** The set of active nodes after reading `w`. */
  function Run(g: Nfa, w: string): set<string>
  {
    if w == [] then Initials(g)
    else Step(g, Run(g, w[..|w| - 1]), w[|w| - 1])
  }

  predicate Accepts(g: Nfa, w: string)
  {
    exists k | k in Run(g, w) :: k in g.nodes && g.nodes[k].isTerminal
  }

  // ---------------------------------------------------------------------
  // An independent characterisation by paths
  // ---------------------------------------------------------------------

  /** `p` is a walk that reads `w`, one single-character arc per character, from an initial node. */
  predicate PathFor(g: Nfa, w: string, p: seq<string>)
  {
    && |p| == |w| + 1
    && p[0] in g.nodes && g.nodes[p[0]].isInitial
    && forall i | 0 <= i < |w| :: Arc(p[i], p[i + 1], [w[i]]) in g.arcs
  }

  lemma {:induction false} RunIsReachable(g: Nfa, w: string, x: string)
    ensures x in Run(g, w) <==> exists p :: PathFor(g, w, p) && p[|w|] == x
    decreases |w|
  {
    if w == [] {
      if x in Run(g, w) {
        assert PathFor(g, w, [x]);
      }
    } else {
      var w', c := w[..|w| - 1], w[|w| - 1];
      StepAlongMembers(g.arcs, Run(g, w'), c, x);
      if x in Run(g, w) {
        var a :| a in g.arcs && a.src in Run(g, w') && a.value == [c] && a.dst == x;
        RunIsReachable(g, w', a.src);
        var p' :| PathFor(g, w', p') && p'[|w'|] == a.src;
        var p := p' + [x];
        assert Arc(p[|w'|], p[|w'| + 1], [w[|w'|]]) == a;
        assert PathFor(g, w, p);
      }
      if p :| PathFor(g, w, p) && p[|w|] == x {
        var p' := p[..|w|];
        assert PathFor(g, w', p');
        RunIsReachable(g, w', p[|w'|]);
        var a := Arc(p[|w'|], x, [c]);
        assert a in g.arcs;
      }
    }
  }

  /** A step from a union of node sets is the union of the steps. */
  lemma {:induction false} StepAlongUnion(arcs: seq<Arc<string>>, a: set<string>, b: set<string>, c: char)
    ensures StepAlong(arcs, a + b, c) == StepAlong(arcs, a, c) + StepAlong(arcs, b, c)
    decreases |arcs|
  {
    if arcs != [] {
      StepAlongUnion(arcs[..|arcs| - 1], a, b, c);
    }
  }

  /** A step from one node only needs the arcs leaving it. */
  lemma {:induction false} StepAlongOutOf(arcs: seq<Arc<string>>, x: string, c: char)
    ensures StepAlong(OutOf(arcs, x), {x}, c) == StepAlong(arcs, {x}, c)
    decreases |arcs|
  {
    if arcs != [] {
      var init, last := arcs[..|arcs| - 1], arcs[|arcs| - 1];
      StepAlongOutOf(init, x, c);
      assert arcs == init + [last];
      OutOfSnoc(init, last, x);
      if last.src == x {
        assert OutOf(arcs, x) == OutOf(init, x) + [last];
        StepAlongSnoc(OutOf(init, x), last, {x}, c);
      } else {
        assert OutOf(arcs, x) == OutOf(init, x);
        assert Contribution(last, {x}, c) == {};
      }
    }
  }

  /** A string is accepted exactly when some walk reads it from an initial to a terminal node. */
  lemma AcceptsIffPath(g: Nfa, w: string)
    ensures Accepts(g, w) <==>
      exists p :: PathFor(g, w, p) && p[|w|] in g.nodes && g.nodes[p[|w|]].isTerminal
  {
    if Accepts(g, w) {
      var k :| k in Run(g, w) && k in g.nodes && g.nodes[k].isTerminal;
      RunIsReachable(g, w, k);
    }
    if p :| PathFor(g, w, p) && p[|w|] in g.nodes && g.nodes[p[|w|]].isTerminal {
      RunIsReachable(g, w, p[|w|]);
    }
  }

  /** Arcs whose label is not a single character are never followed. */
  lemma OnlySingleCharArcs(g: Nfa, w: string)
    requires |w| >= 1
    requires forall a | a in g.arcs :: |a.value| != 1
    ensures Run(g, w) == {}
  {
    var w', c := w[..|w| - 1], w[|w| - 1];
    forall k | k in Run(g, w) ensures false {
      StepAlongMembers(g.arcs, Run(g, w'), c, k);
    }
  }

  // ---------------------------------------------------------------------
  // The automaton of the test file
  // ---------------------------------------------------------------------

  /** Two initial nodes ("1", "4"), two terminal ones ("3", "5") and a self-loop on "2". */
  function ManyMany(): Nfa
  {
    Nfa(map["1" := Flags(true, false), "2" := Unflagged, "3" := Flags(false, true),
            "4" := Flags(true, false), "5" := Flags(false, true)],
        [Arc("1", "2", "a"), Arc("2", "3", "b"), Arc("2", "2", "l"), Arc("4", "2", "x"), Arc("2", "5", "y")])
  }

  lemma StepAlongSnoc(arcs: seq<Arc<string>>, a: Arc<string>, active: set<string>, c: char)
    ensures StepAlong(arcs + [a], active, c) == StepAlong(arcs, active, c) + Contribution(a, active, c)
  {
    assert (arcs + [a])[..|arcs|] == arcs;
  }

  lemma ManyManyStep(active: set<string>, c: char)
    ensures var arcs := ManyMany().arcs;
      Step(ManyMany(), active, c) ==
        Contribution(arcs[0], active, c) + Contribution(arcs[1], active, c) + Contribution(arcs[2], active, c) +
        Contribution(arcs[3], active, c) + Contribution(arcs[4], active, c)
  {
    var arcs := ManyMany().arcs;
    StepAlongSnoc([], arcs[0], active, c);
    StepAlongSnoc([arcs[0]], arcs[1], active, c);
    StepAlongSnoc([arcs[0], arcs[1]], arcs[2], active, c);
    StepAlongSnoc([arcs[0], arcs[1], arcs[2]], arcs[3], active, c);
    StepAlongSnoc([arcs[0], arcs[1], arcs[2], arcs[3]], arcs[4], active, c);
    assert [] + [arcs[0]] == [arcs[0]];
    assert [arcs[0]] + [arcs[1]] == [arcs[0], arcs[1]];
    assert [arcs[0], arcs[1]] + [arcs[2]] == [arcs[0], arcs[1], arcs[2]];
    assert [arcs[0], arcs[1], arcs[2]] + [arcs[3]] == [arcs[0], arcs[1], arcs[2], arcs[3]];
    assert [arcs[0], arcs[1], arcs[2], arcs[3]] + [arcs[4]] == arcs;
  }

  lemma ManyManyRuns()
    ensures Run(ManyMany(), "") == {"1", "4"}
    ensures Run(ManyMany(), "a") == {"2"}
    ensures Run(ManyMany(), "x") == {"2"}
    ensures Run(ManyMany(), "f") == {}
  {
    var g := ManyMany();
    assert Initials(g) == {"1", "4"} by {
      assert g.nodes["2"] == Unflagged && g.nodes["3"].isInitial == false;
    }
    assert "a"[..0] == "" && "x"[..0] == "" && "f"[..0] == "";
    ManyManyStep({"1", "4"}, 'a');
    ManyManyStep({"1", "4"}, 'x');
    ManyManyStep({"1", "4"}, 'f');
  }

  lemma RunSnoc(g: Nfa, w: string, c: char)
    ensures Run(g, w + [c]) == Step(g, Run(g, w), c)
  {
    assert (w + [c])[..|w|] == w;
  }

  /** Out of the middle node "2" only 'b', 'l' and 'y' lead anywhere. */
  lemma MiddleStep(c: char)
    ensures Step(ManyMany(), {"2"}, c) ==
      (if c == 'b' then {"3"} else {}) + (if c == 'l' then {"2"} else {}) + (if c == 'y' then {"5"} else {})
  {
    ManyManyStep({"2"}, c);
  }

  /** The steps out of the middle node "2". */
  lemma ManyManySteps()
    ensures Step(ManyMany(), {"2"}, 'l') == {"2"}
    ensures Step(ManyMany(), {"2"}, 'b') == {"3"}
    ensures Step(ManyMany(), {"2"}, 'y') == {"5"}
    ensures Step(ManyMany(), {"2"}, 'a') == {}
    ensures Step(ManyMany(), {"2"}, 'x') == {}
    ensures forall c :: Step(ManyMany(), {}, c) == {}
  {
    var g := ManyMany();
    forall c ensures Step(g, {}, c) == {} {
      EmptyStep(g.arcs, c);
    }
    MiddleStep('l');
    MiddleStep('b');
    MiddleStep('y');
    MiddleStep('a');
    MiddleStep('x');
  }

  lemma {:induction false} EmptyStep(arcs: seq<Arc<string>>, c: char)
    ensures StepAlong(arcs, {}, c) == {}
    decreases |arcs|
  {
    if arcs != [] {
      EmptyStep(arcs[..|arcs| - 1], c);
    }
  }

  lemma ManyManyAccepts()
    ensures Accepts(ManyMany(), "ab")
    ensures Accepts(ManyMany(), "alllb")
    ensures Accepts(ManyMany(), "xy")
  {
    var g := ManyMany();
    ManyManyRuns();
    ManyManySteps();
    RunSnoc(g, "a", 'b');
    assert "a" + ['b'] == "ab";
    RunSnoc(g, "x", 'y');
    assert "x" + ['y'] == "xy";
    RunSnoc(g, "a", 'l');
    assert "a" + ['l'] == "al";
    RunSnoc(g, "al", 'l');
    assert "al" + ['l'] == "all";
    RunSnoc(g, "all", 'l');
    assert "all" + ['l'] == "alll";
    RunSnoc(g, "alll", 'b');
    assert "alll" + ['b'] == "alllb";
    assert Run(g, "alllb") == {"3"};
  }

  lemma ManyManyRejects()
    ensures !Accepts(ManyMany(), "aa")
    ensures !Accepts(ManyMany(), "fff")
    ensures !Accepts(ManyMany(), "ax")
  {
    var g := ManyMany();
    ManyManyRuns();
    ManyManySteps();
    RunSnoc(g, "a", 'a');
    assert "a" + ['a'] == "aa";
    RunSnoc(g, "a", 'x');
    assert "a" + ['x'] == "ax";
    RunSnoc(g, "f", 'f');
    assert "f" + ['f'] == "ff";
    RunSnoc(g, "ff", 'f');
    assert "ff" + ['f'] == "fff";
  }
}
