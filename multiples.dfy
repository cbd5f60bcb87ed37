/**
 * The demonstration automaton of the older interface: a recogniser of the
 * binary numerals whose value is a multiple of `n`, one node per
 * remainder, named by its decimal numeral, plus a node "start".
 */
module Multiples {
  import opened Graph
  import opened Simulation

  // ---------------------------------------------------------------------
  // Decimal node names
  // ---------------------------------------------------------------------

  function Digit(d: nat): (c: char)
    requires d < 10
    ensures '0' <= c <= '9'
  {
    (48 + d) as char
  }

  /** The decimal numeral of `i`, without leading zeros. */
  function Itoa(i: nat): (s: string)
    ensures |s| >= 1
    decreases i
  {
    if i < 10 then [Digit(i)] else Itoa(i / 10) + [Digit(i % 10)]
  }

  /** A numeral is made of decimal digits. */
  lemma {:induction false} ItoaDigits(i: nat)
    ensures forall j | 0 <= j < |Itoa(i)| :: '0' <= Itoa(i)[j] <= '9'
    decreases i
  {
    if i >= 10 {
      ItoaDigits(i / 10);
    }
  }

  /** The value of a decimal numeral. */
  function DecValue(s: string): int
  {
    if s == [] then 0 else 10 * DecValue(s[..|s| - 1]) + (s[|s| - 1] as int - 48)
  }

  /** Reading a numeral back gives the number it was written from. */
  lemma {:induction false} ItoaValue(i: nat)
    ensures DecValue(Itoa(i)) == i
    decreases i
  {
    if i >= 10 {
      ItoaValue(i / 10);
      var s := Itoa(i);
      assert s[..|s| - 1] == Itoa(i / 10);
    }
  }

  /** Distinct numbers get distinct node names. */
  lemma ItoaInjective(i: nat, j: nat)
    ensures Itoa(i) == Itoa(j) <==> i == j
  {
    ItoaValue(i);
    ItoaValue(j);
  }

  /** No numeral is the name "start". */
  lemma ItoaNotStart(i: nat)
    ensures Itoa(i) != "start"
  {
    ItoaDigits(i);
    assert Itoa(i)[0] != 's';
  }

  lemma SmallNumerals()
    ensures Itoa(0) == "0" && Itoa(1) == "1"
  {
  }

  // ---------------------------------------------------------------------
  // Binary numerals
  // ---------------------------------------------------------------------

  predicate IsBinary(w: string)
  {
    forall j | 0 <= j < |w| :: w[j] == '0' || w[j] == '1'
  }

  /** The value of a binary numeral, most significant digit first. */
  function BinValue(w: string): nat
  {
    if w == [] then 0 else 2 * BinValue(w[..|w| - 1]) + (if w[|w| - 1] == '1' then 1 else 0)
  }

  /** The remainder after one more binary digit depends only on the remainder before it. */
  lemma ModStep(v: nat, b: nat, n: nat)
    requires n >= 1
    ensures (2 * (v % n) + b) % n == (2 * v + b) % n
  {
    var q := v / n;
    assert v == q * n + v % n;
    assert 2 * v + b == (2 * (v % n) + b) + (2 * q) * n;
    ModShift(2 * (v % n) + b, 2 * q, n);
  }

  /** Adding a multiple of `n` does not change the remainder. */
  lemma ModShift(x: nat, k: nat, n: nat)
    requires n >= 1
    ensures (x + k * n) % n == x % n
  {
    var y := x + k * n;
    var q, r := x / n, x % n;
    assert x == q * n + r && 0 <= r < n;
    assert y == (q + k) * n + r;
    ModUnique(y, n, q + k, r);
  }

  /** The remainder is the only value in [0, n) that differs from `y` by a multiple of `n`. */
  lemma ModUnique(y: nat, n: nat, q: nat, r: nat)
    requires n >= 1 && r < n && y == q * n + r
    ensures y % n == r
  {
    var q', r' := y / n, y % n;
    assert y == q' * n + r' && 0 <= r' < n;
    if q' < q {
      MulMono(q' + 1, q, n);
      assert false;
    } else if q < q' {
      MulMono(q + 1, q', n);
      assert false;
    }
  }

  lemma {:induction false} MulMono(a: nat, b: nat, n: nat)
    requires a <= b
    ensures a * n <= b * n
    decreases b - a
  {
    if a < b {
      MulMono(a, b - 1, n);
      assert b * n == (b - 1) * n + n;
    }
  }

  // ---------------------------------------------------------------------
  // The automaton
  // ---------------------------------------------------------------------

  /** The edge for digit 0 out of the node for remainder `i`. */
  function ZeroArc(n: int, i: nat): Arc<string>
    requires n >= 1
  {
    Arc(Itoa(i), Itoa((2 * i) % n), "0")
  }

  /** The edge for digit 1 out of the node for remainder `i`. */
  function OneArc(n: int, i: nat): Arc<string>
    requires n >= 1
  {
    Arc(Itoa(i), Itoa((2 * i + 1) % n), "1")
  }

  /** The automaton after the first `k` rounds of the construction loop. */
  function MultiplesLoop(n: int, k: nat): Nfa
    requires k == 0 || k <= n
  {
    if k == 0 then Nfa(map[], []) else Round(MultiplesLoop(n, k - 1), n, k - 1)
  }

  /** One round of the construction loop: the two edges out of the node for remainder `i`. */
  function Round(g: Nfa, n: int, i: nat): Nfa
    requires n >= 1
  {
    AddArc(AddArc(g, Itoa(i), Itoa((2 * i) % n), "0"), Itoa(i), Itoa((2 * i + 1) % n), "1")
  }

  /** The edges the first `k` rounds add, two per round. */
  function LoopArcs(n: int, k: nat): seq<Arc<string>>
    requires k == 0 || k <= n
  {
    if k == 0 then [] else LoopArcs(n, k - 1) + [ZeroArc(n, k - 1), OneArc(n, k - 1)]
  }

  function WithInitial(g: Nfa, name: string): Nfa
    requires name in g.nodes
  {
    SetFlags(g, name, g.nodes[name].(isInitial := true))
  }

  function WithTerminal(g: Nfa, name: string): Nfa
    requires name in g.nodes
  {
    SetFlags(g, name, g.nodes[name].(isTerminal := true))
  }

  function Rounds(n: int): nat
  {
    if n > 0 then n else 0
  }

  /**
   * The automaton the construction builds: the loop, then the edges
   * "start" -0-> "0" and "start" -1-> "1", then "start" is flagged
   * initial and "0" terminal.
   */
  function MultiplesOfN(n: int): Nfa
  {
    var g := AddArc(AddArc(MultiplesLoop(n, Rounds(n)), "start", "0", "0"), "start", "1", "1");
    WithTerminal(WithInitial(g, "start"), "0")
  }

  /** The construction with the edge for a leading 1 leading to the node for remainder 1 % n. */
  function MultiplesOfNCorrected(n: int): Nfa
    requires n >= 1
  {
    var g := AddArc(AddArc(MultiplesLoop(n, n), "start", "0", "0"), "start", Itoa(1 % n), "1");
    WithTerminal(WithInitial(g, "start"), "0")
  }

  ghost predicate AllUnflagged(g: Nfa)
  {
    forall x | x in g.nodes :: g.nodes[x] == Unflagged
  }

  /** Adding an arc to an automaton with no flags keeps it without flags and registers both endpoints. */
  lemma AddArcUnflagged(g: Nfa, src: string, dst: string, value: string)
    requires AllUnflagged(g)
    ensures var g' := AddArc(g, src, dst, value);
      && AllUnflagged(g')
      && g.nodes.Keys + {src, dst} == g'.nodes.Keys
      && g'.arcs == g.arcs + [Arc(src, dst, value)]
  {
  }

  /** A round adds its two edges, and only unflagged nodes. */
  lemma RoundShape(g: Nfa, n: int, i: nat)
    requires n >= 1 && AllUnflagged(g)
    ensures var g' := Round(g, n, i);
      && AllUnflagged(g')
      && g'.arcs == g.arcs + [ZeroArc(n, i), OneArc(n, i)]
  {
    var g1 := AddArc(g, Itoa(i), Itoa((2 * i) % n), "0");
    AddArcUnflagged(g, Itoa(i), Itoa((2 * i) % n), "0");
    AddArcUnflagged(g1, Itoa(i), Itoa((2 * i + 1) % n), "1");
  }

  /** The loop adds exactly the edges of LoopArcs, and only unflagged nodes. */
  lemma {:induction false} LoopShape(n: int, k: nat)
    requires k == 0 || k <= n
    ensures MultiplesLoop(n, k).arcs == LoopArcs(n, k)
    ensures AllUnflagged(MultiplesLoop(n, k))
    decreases k
  {
    if k > 0 {
      LoopShape(n, k - 1);
      RoundShape(MultiplesLoop(n, k - 1), n, k - 1);
    }
  }

  /**
   * The shape of the constructed automaton: 2n + 2 edges (two when n is
   * not positive), "start" its only initial node and "0" its only terminal node.
   */
  lemma MultiplesShape(n: int)
    ensures var g := MultiplesOfN(n);
      && |g.arcs| == 2 * Rounds(n) + 2
      && (forall x | x in g.nodes :: g.nodes[x].isInitial <==> x == "start")
      && (forall x | x in g.nodes :: g.nodes[x].isTerminal <==> x == "0")
      && "start" in g.nodes && "0" in g.nodes
  {
    var l := MultiplesLoop(n, Rounds(n));
    LoopShape(n, Rounds(n));
    LoopArcsLength(n, Rounds(n));
    var g1 := AddArc(l, "start", "0", "0");
    AddArcUnflagged(l, "start", "0", "0");
    AddArcUnflagged(g1, "start", "1", "1");
    FlagStartAndZero(AddArc(g1, "start", "1", "1"));
  }

  /** Flagging "start" initial and then "0" terminal in an automaton without flags. */
  lemma FlagStartAndZero(g: Nfa)
    requires AllUnflagged(g) && "start" in g.nodes && "0" in g.nodes
    ensures var f := WithTerminal(WithInitial(g, "start"), "0");
      && f.arcs == g.arcs && f.nodes.Keys == g.nodes.Keys
      && (forall x | x in f.nodes :: f.nodes[x].isInitial <==> x == "start")
      && (forall x | x in f.nodes :: f.nodes[x].isTerminal <==> x == "0")
  {
  }

  lemma {:induction false} LoopArcsLength(n: int, k: nat)
    requires k == 0 || k <= n
    ensures |LoopArcs(n, k)| == 2 * k
    decreases k
  {
    if k > 0 {
      LoopArcsLength(n, k - 1);
    }
  }

  /** For n of at least 2 the construction is the corrected one. */
  lemma AsWrittenFromTwo(n: int)
    requires n >= 2
    ensures MultiplesOfN(n) == MultiplesOfNCorrected(n)
  {
    SmallNumerals();
    assert 1 % n == 1;
  }

  // ---------------------------------------------------------------------
  // What the corrected automaton accepts
  // ---------------------------------------------------------------------

  /** The successors of the node for remainder `r` on character `c`. */
  function Target(n: int, r: nat, c: char): set<string>
    requires n >= 1
  {
    if c == '0' then {Itoa((2 * r) % n)} else if c == '1' then {Itoa((2 * r + 1) % n)} else {}
  }

  /** Along the loop's edges the node for remainder `r` has the two successors of its round. */
  lemma {:induction false} LoopStep(n: int, k: nat, r: nat, c: char)
    requires 1 <= n && k <= n
    ensures StepAlong(LoopArcs(n, k), {Itoa(r)}, c) == if r < k then Target(n, r, c) else {}
    decreases k
  {
    if k > 0 {
      var prev := LoopArcs(n, k - 1);
      LoopStep(n, k - 1, r, c);
      assert LoopArcs(n, k) == prev + [ZeroArc(n, k - 1)] + [OneArc(n, k - 1)];
      StepAlongSnoc(prev, ZeroArc(n, k - 1), {Itoa(r)}, c);
      StepAlongSnoc(prev + [ZeroArc(n, k - 1)], OneArc(n, k - 1), {Itoa(r)}, c);
      RoundContribution(n, k - 1, r, c);
    }
  }

  /** The two edges of round `i` lead on from the node for remainder `r` only when r = i. */
  lemma RoundContribution(n: int, i: nat, r: nat, c: char)
    requires n >= 1
    ensures Contribution(ZeroArc(n, i), {Itoa(r)}, c) + Contribution(OneArc(n, i), {Itoa(r)}, c) ==
      if r == i then Target(n, r, c) else {}
  {
    ItoaInjective(r, i);
    assert "0" == [c] <==> c == '0';
    assert "1" == [c] <==> c == '1';
  }

  /** No loop edge leaves "start". */
  lemma {:induction false} LoopStepStart(n: int, k: nat, c: char)
    requires 1 <= n && k <= n
    ensures StepAlong(LoopArcs(n, k), {"start"}, c) == {}
    decreases k
  {
    if k > 0 {
      var prev := LoopArcs(n, k - 1);
      LoopStepStart(n, k - 1, c);
      ItoaNotStart(k - 1);
      assert LoopArcs(n, k) == prev + [ZeroArc(n, k - 1)] + [OneArc(n, k - 1)];
      StepAlongSnoc(prev, ZeroArc(n, k - 1), {"start"}, c);
      StepAlongSnoc(prev + [ZeroArc(n, k - 1)], OneArc(n, k - 1), {"start"}, c);
    }
  }

  /** The edges and flags of the corrected automaton. */
  lemma CorrectedShape(n: int)
    requires n >= 1
    ensures var g := MultiplesOfNCorrected(n);
      && g.arcs == LoopArcs(n, n) + [Arc("start", "0", "0"), Arc("start", Itoa(1 % n), "1")]
      && Initials(g) == {"start"}
      && "0" in g.nodes && g.nodes["0"].isTerminal
      && (forall x | x in g.nodes && g.nodes[x].isTerminal :: x == "0")
  {
    var l := MultiplesLoop(n, n);
    LoopShape(n, n);
    var g1 := AddArc(l, "start", "0", "0");
    AddArcUnflagged(l, "start", "0", "0");
    AddArcUnflagged(g1, "start", Itoa(1 % n), "1");
    FlagStartAndZero(AddArc(g1, "start", Itoa(1 % n), "1"));
  }

  /** A step of the corrected automaton: along the loop's edges, then along the two edges out of "start". */
  lemma CorrectedStepSplit(n: int, active: set<string>, c: char)
    requires 1 <= n
    ensures Step(MultiplesOfNCorrected(n), active, c) ==
      StepAlong(LoopArcs(n, n), active, c) +
      Contribution(Arc("start", "0", "0"), active, c) + Contribution(Arc("start", Itoa(1 % n), "1"), active, c)
  {
    CorrectedShape(n);
    var arcs := LoopArcs(n, n);
    assert arcs + [Arc("start", "0", "0"), Arc("start", Itoa(1 % n), "1")] ==
      arcs + [Arc("start", "0", "0")] + [Arc("start", Itoa(1 % n), "1")];
    StepAlongSnoc(arcs, Arc("start", "0", "0"), active, c);
    StepAlongSnoc(arcs + [Arc("start", "0", "0")], Arc("start", Itoa(1 % n), "1"), active, c);
  }

  lemma CorrectedStep(n: int, r: nat, c: char)
    requires 1 <= n && r < n
    ensures Step(MultiplesOfNCorrected(n), {Itoa(r)}, c) == Target(n, r, c)
  {
    CorrectedStepSplit(n, {Itoa(r)}, c);
    LoopStep(n, n, r, c);
    ItoaNotStart(r);
    assert "start" !in {Itoa(r)};
  }

  lemma CorrectedStartStep(n: int, c: char)
    requires 1 <= n
    ensures Step(MultiplesOfNCorrected(n), {"start"}, c) ==
      if c == '0' then {Itoa(0)} else if c == '1' then {Itoa(1 % n)} else {}
  {
    CorrectedStepSplit(n, {"start"}, c);
    LoopStepStart(n, n, c);
    SmallNumerals();
    assert "0" == [c] <==> c == '0';
    assert "1" == [c] <==> c == '1';
  }

  /**
   * After reading a non-empty binary numeral the corrected automaton is in
   * exactly the node of the numeral's remainder; after anything else that
   * is not empty it is in no node.
   */
  lemma {:induction false} CorrectedRun(n: int, w: string)
    requires n >= 1
    ensures Run(MultiplesOfNCorrected(n), w) ==
      if w == [] then {"start"} else if IsBinary(w) then {Itoa(BinValue(w) % n)} else {}
    decreases |w|
  {
    var g := MultiplesOfNCorrected(n);
    if w == [] {
      CorrectedShape(n);
    } else {
      var w', c := w[..|w| - 1], w[|w| - 1];
      CorrectedRun(n, w');
      BinarySnoc(w);
      assert Run(g, w) == Step(g, Run(g, w'), c);
      if w' == [] {
        CorrectedStartStep(n, c);
        assert BinValue(w) == (if c == '1' then 1 else 0) by {
          assert BinValue(w') == 0;
        }
      } else if IsBinary(w') {
        var v := BinValue(w');
        CorrectedStep(n, v % n, c);
        ModStep(v, if c == '1' then 1 else 0, n);
      } else {
        EmptyStep(g.arcs, c);
      }
    }
  }

  /** A numeral is binary when all but its last digit are and its last digit is binary too. */
  lemma BinarySnoc(w: string)
    requires w != []
    ensures IsBinary(w) <==> IsBinary(w[..|w| - 1]) && (w[|w| - 1] == '0' || w[|w| - 1] == '1')
  {
    if IsBinary(w[..|w| - 1]) && (w[|w| - 1] == '0' || w[|w| - 1] == '1') {
      forall j | 0 <= j < |w| ensures w[j] == '0' || w[j] == '1' {
        if j < |w| - 1 {
          assert w[j] == w[..|w| - 1][j];
        }
      }
    }
  }

  /**
   * The corrected automaton accepts exactly the non-empty binary numerals
   * whose value is a multiple of `n`.
   */
  lemma CorrectedAccepts(n: int, w: string)
    requires n >= 1
    ensures Accepts(MultiplesOfNCorrected(n), w) <==> w != [] && IsBinary(w) && BinValue(w) % n == 0
  {
    var g := MultiplesOfNCorrected(n);
    CorrectedRun(n, w);
    CorrectedShape(n);
    SmallNumerals();
    if w != [] && IsBinary(w) {
      ItoaInjective(BinValue(w) % n, 0);
      if BinValue(w) % n == 0 {
        assert "0" in Run(g, w);
      }
    }
  }

  /** For n of at least 2 the construction as written is a correct recogniser. */
  lemma MultiplesAccepts(n: int, w: string)
    requires n >= 2
    ensures Accepts(MultiplesOfN(n), w) <==> w != [] && IsBinary(w) && BinValue(w) % n == 0
  {
    AsWrittenFromTwo(n);
    CorrectedAccepts(n, w);
  }

  /**
   * For n = 1 the construction as written rejects "1", a multiple of 1:
   * the edge for a leading 1 goes to a node "1" that the loop never
   * creates, so it has no way on and is not terminal.
   */
  lemma OneRejectsOne()
    ensures BinValue("1") % 1 == 0
    ensures !Accepts(MultiplesOfN(1), "1")
  {
    var g := MultiplesOfN(1);
    SmallNumerals();
    assert MultiplesLoop(1, 1) ==
      Nfa(map["0" := Unflagged], [Arc("0", "0", "0"), Arc("0", "0", "1")]);
    assert g == Nfa(map["0" := Flags(false, true), "start" := Flags(true, false), "1" := Unflagged],
      [Arc("0", "0", "0"), Arc("0", "0", "1"), Arc("start", "0", "0"), Arc("start", "1", "1")]);
    assert Initials(g) == {"start"};
    assert Run(g, "1") == Step(g, {"start"}, '1') by {
      assert "1"[..0] == [];
    }
    var arcs := g.arcs;
    assert StepAlong(arcs, {"start"}, '1') == {"1"} by {
      assert arcs == arcs[..3] + [arcs[3]];
      assert arcs[..3] == arcs[..2] + [arcs[2]];
      assert arcs[..2] == arcs[..1] + [arcs[1]];
      assert arcs[..1] == [] + [arcs[0]];
      StepAlongSnoc([], arcs[0], {"start"}, '1');
      StepAlongSnoc(arcs[..1], arcs[1], {"start"}, '1');
      StepAlongSnoc(arcs[..2], arcs[2], {"start"}, '1');
      StepAlongSnoc(arcs[..3], arcs[3], {"start"}, '1');
    }
  }
}
