/**
 * Specification of the state-elimination engine on automaton values:
 * normalisation to one synthetic initial and one synthetic terminal node,
 * elimination of every other node, and the final alternation, together
 * with the step observer and the error contract.
 *
 * The source iterates a hash map, whose order is unspecified; here the
 * two iteration orders are parameters (`normOrder`, `elimOrder`) that
 * list every node exactly once.
 */
module Conversion {
  import opened Combinators
  import opened Graph

  // ---------------------------------------------------------------------
  // Observer and errors
  // ---------------------------------------------------------------------

  /** What the step observer answers at a checkpoint. */
  datatype StepResult = Continue | Fail(cause: string)

  /** The step observer: it sees a snapshot and the checkpoint name. */
  type Observer = (Nfa, string) -> StepResult

  /** The observer used when none is configured: it never fails. */
  const Silent: Observer := (h: Nfa, step: string) => Continue

  datatype ConvertError =
    | NilNfa
    | CallbackFailed(step: string, cause: string)
    | NoInitial
    | NoTerminal
    | NoPath

  datatype Result<T> = Ok(value: T) | Err(error: ConvertError)

  datatype Option<T> = None | Some(value: T)

  /** The error texts of the source (step names are assumed to need no escaping). */
  function Message(e: ConvertError): string
  {
    match e
    case NilNfa => "NFA must be non-nil"
    case CallbackFailed(step, cause) => "StepCallback for \"" + step + "\" returned error: " + cause
    case NoInitial => "NFA has no initial node(s)"
    case NoTerminal => "NFA has no terminal node(s)"
    case NoPath => "NFA has no path between initial and terminal node(s)"
  }

  const StartStep := "start"
  const CreateStep := "create-initial-terminal"

  function RemoveStep(name: string): string { "remove-node-" + name }

  // ---------------------------------------------------------------------
  // Iteration orders
  // ---------------------------------------------------------------------

  /** No name occurs twice: the last one is not among the others, which are distinct too. */
  predicate Distinct(order: seq<string>)
    decreases |order|
  {
    order == [] || (Distinct(order[..|order| - 1]) && order[|order| - 1] !in order[..|order| - 1])
  }

  /** Every prefix of a distinct sequence is distinct. */
  lemma {:induction false} DistinctPrefix(order: seq<string>, n: nat)
    requires Distinct(order) && n <= |order|
    ensures Distinct(order[..n])
    decreases |order|
  {
    if n < |order| {
      var init := order[..|order| - 1];
      DistinctPrefix(init, n);
      assert init[..n] == order[..n];
    } else {
      assert order[..n] == order;
    }
  }

  /** In a distinct sequence, no element occurs before its own position. */
  lemma DistinctAt(order: seq<string>, i: nat)
    requires Distinct(order) && i < |order|
    ensures order[i] !in order[..i]
  {
    DistinctPrefix(order, i + 1);
    assert order[..i + 1][..i] == order[..i];
  }

  /** `order` lists every key exactly once. */
  predicate IsOrdering(order: seq<string>, keys: set<string>)
  {
    && Distinct(order)
    && (forall i | 0 <= i < |order| :: order[i] in keys)
    && (forall k | k in keys :: k in order)
  }

  // ---------------------------------------------------------------------
  // Normalisation
  // ---------------------------------------------------------------------

  /** The synthetic nodes are registered before the normalisation loop. */
  function Prepare(g: Nfa): Nfa
  {
    GetOrCreate(GetOrCreate(g, InitialName), TerminalName)
  }

  /**
   * One iteration of the normalisation loop: an initial node gets an
   * epsilon arc from the synthetic initial node, a terminal node an epsilon
   * arc to the synthetic terminal node, and the node's flags are cleared.
   * The flags tested are those the node had when the iteration began.
   */
  function NormStep(g: Nfa, name: string): Nfa
  {
    if name !in g.nodes then g
    else
      var f := g.nodes[name];
      var g1 := if f.isInitial then SetFlags(AddArc(g, InitialName, name, ""), name, Unflagged) else g;
      if f.isTerminal then SetFlags(AddArc(g1, name, TerminalName, ""), name, Unflagged) else g1
  }

  function Normalize(g: Nfa, order: seq<string>): Nfa
  {
    if order == [] then g
    else NormStep(Normalize(g, order[..|order| - 1]), order[|order| - 1])
  }

  /** After the loop the synthetic nodes are flagged. */
  function MarkSynthetic(g: Nfa): Nfa
  {
    if InitialName in g.nodes && TerminalName in g.nodes then
      var g1 := SetFlags(g, InitialName, g.nodes[InitialName].(isInitial := true));
      SetFlags(g1, TerminalName, g1.nodes[TerminalName].(isTerminal := true))
    else g
  }

  /** The automaton the elimination loop starts from. */
  function Normalized(g: Nfa, normOrder: seq<string>): Nfa
  {
    MarkSynthetic(Normalize(Prepare(g), normOrder))
  }

  predicate HasInitial(g: Nfa) { exists k | k in g.nodes :: g.nodes[k].isInitial }

  predicate HasTerminal(g: Nfa) { exists k | k in g.nodes :: g.nodes[k].isTerminal }

  // ---------------------------------------------------------------------
  // Elimination
  // ---------------------------------------------------------------------

  datatype Progress = Done(g: Nfa) | Aborted(step: string, cause: string)

  /**
   * The elimination loop: every node in `order` other than the synthetic
   * ones is eliminated, and the observer is consulted after each removal.
   */
  function EliminateAll(g: Nfa, order: seq<string>, obs: Observer): Progress
  {
    if order == [] then Done(g)
    else
      match EliminateAll(g, order[..|order| - 1], obs)
      case Aborted(step, cause) => Aborted(step, cause)
      case Done(h) => EliminateStep(h, order[|order| - 1], obs)
  }

  /** One node of the elimination loop: the synthetic nodes are skipped. */
  function EliminateStep(h: Nfa, name: string, obs: Observer): Progress
  {
    if name == InitialName || name == TerminalName then Done(h)
    else
      var h' := Eliminate(h, name);
      match obs(h', RemoveStep(name))
      case Continue => Done(h')
      case Fail(cause) => Aborted(RemoveStep(name), cause)
  }

  /** Some arc leaves an initial node and enters a terminal one. */
  predicate HasInitialTerminalArc(g: Nfa)
  {
    exists a | a in g.arcs :: a.src in g.nodes && a.dst in g.nodes &&
      g.nodes[a.src].isInitial && g.nodes[a.dst].isTerminal
  }

  /** The final step: the alternation of every remaining label. */
  function Finish(g: Nfa): Result<string>
  {
    if HasInitialTerminalArc(g) then Ok(OrJoin(Values(g.arcs))) else Err(NoPath)
  }

  /** The whole conversion, on a non-nil automaton. */
  function ToRegexSpec(g: Nfa, normOrder: seq<string>, elimOrder: seq<string>, obs: Observer): Result<string>
  {
    match obs(g, StartStep)
    case Fail(cause) => Err(CallbackFailed(StartStep, cause))
    case Continue =>
      var h := Normalized(g, normOrder);
      if !HasInitial(g) then Err(NoInitial)
      else if !HasTerminal(g) then Err(NoTerminal)
      else
        match obs(h, CreateStep)
        case Fail(cause) => Err(CallbackFailed(CreateStep, cause))
        case Continue => Eliminated(h, elimOrder, obs)
  }

  /** Elimination followed by the final step, on the normalised automaton `h`. */
  function Eliminated(h: Nfa, elimOrder: seq<string>, obs: Observer): Result<string>
  {
    match EliminateAll(h, elimOrder, obs)
    case Aborted(step, cause) => Err(CallbackFailed(step, cause))
    case Done(k) => Finish(k)
  }

  /** The older variant: no observer, no error results. */
  function LegacyRegexSpec(g: Nfa, normOrder: seq<string>, elimOrder: seq<string>): string
  {
    var h := Normalized(g, normOrder);
    match EliminateAll(h, elimOrder, Silent)
    case Done(k) => OrJoin(Values(k.arcs))
    case Aborted(_, _) => ""
  }

  // ---------------------------------------------------------------------
  // Properties of normalisation
  // ---------------------------------------------------------------------

  predicate NoArcInto(g: Nfa, n: string) { forall a | a in g.arcs :: a.dst != n }

  predicate NoArcOutOf(g: Nfa, n: string) { forall a | a in g.arcs :: a.src != n }

  /** A user automaton: well formed, and the synthetic names are free. */
  ghost predicate UserNfa(g: Nfa)
  {
    WellFormed(g) && InitialName !in g.nodes && TerminalName !in g.nodes
  }

  /** An arc the normalisation adds for node flags of `g`. */
  predicate EpsilonFor(g: Nfa, a: Arc<string>)
  {
    && a.value == ""
    && ((a.src == InitialName && a.dst in g.nodes && g.nodes[a.dst].isInitial) ||
        (a.dst == TerminalName && a.src in g.nodes && g.nodes[a.src].isTerminal))
  }

  /** One normalisation step adds at most the two epsilon arcs of its node and clears its flags. */
  lemma NormStepFacts(m: Nfa, name: string)
    requires name in m.nodes && InitialName in m.nodes && TerminalName in m.nodes
    ensures var n := NormStep(m, name);
      && n.nodes == m.nodes[name := Unflagged]
      && |n.arcs| >= |m.arcs|
      && n.arcs[..|m.arcs|] == m.arcs
      && (forall i | |m.arcs| <= i < |n.arcs| ::
            (n.arcs[i] == Arc(InitialName, name, "") && m.nodes[name].isInitial) ||
            (n.arcs[i] == Arc(name, TerminalName, "") && m.nodes[name].isTerminal))
      && (m.nodes[name].isInitial ==> Arc(InitialName, name, "") in n.arcs)
      && (m.nodes[name].isTerminal ==> Arc(name, TerminalName, "") in n.arcs)
  {
    var f := m.nodes[name];
    var m1 := if f.isInitial then SetFlags(AddArc(m, InitialName, name, ""), name, Unflagged) else m;
    var n := NormStep(m, name);
    assert m1.arcs[..|m.arcs|] == m.arcs;
    assert n.arcs[..|m1.arcs|] == m1.arcs;
    if f.isInitial {
      assert n.arcs[|m.arcs|] == Arc(InitialName, name, "");
    }
  }

  lemma NormalizePrefix(g: Nfa, order: seq<string>)
    requires UserNfa(g)
    requires Distinct(order)
    ensures var n := Normalize(Prepare(g), order);
      && n.nodes.Keys == g.nodes.Keys + {InitialName, TerminalName}
      && (forall k | k in n.nodes ::
            n.nodes[k] == if k in g.nodes && k !in order then g.nodes[k] else Unflagged)
      && |n.arcs| >= |g.arcs|
      && n.arcs[..|g.arcs|] == g.arcs
      && (forall i | |g.arcs| <= i < |n.arcs| :: EpsilonFor(g, n.arcs[i]))
      && (forall k | k in order && k in g.nodes && g.nodes[k].isInitial :: Arc(InitialName, k, "") in n.arcs)
      && (forall k | k in order && k in g.nodes && g.nodes[k].isTerminal :: Arc(k, TerminalName, "") in n.arcs)
  {
    NormalizeNodes(g, order);
    NormalizeArcs(g, order);
  }

  /** The nodes during normalisation: those visited so far are unflagged, the rest keep their flags. */
  lemma {:induction false} NormalizeNodes(g: Nfa, order: seq<string>)
    requires UserNfa(g)
    requires Distinct(order)
    ensures var n := Normalize(Prepare(g), order);
      && n.nodes.Keys == g.nodes.Keys + {InitialName, TerminalName}
      && (forall k | k in n.nodes ::
            n.nodes[k] == if k in g.nodes && k !in order then g.nodes[k] else Unflagged)
    decreases |order|
  {
    if order != [] {
      var p := Prepare(g);
      var init, name := order[..|order| - 1], order[|order| - 1];
      NormalizeNodes(g, init);
      var m := Normalize(p, init);
      assert name !in init;
      var n := Normalize(p, order);
      assert n == NormStep(m, name);
      if name in m.nodes {
        assert n.nodes == m.nodes[name := Unflagged] by {
          NormStepFacts(m, name);
        }
        forall k | k in n.nodes
          ensures n.nodes[k] == if k in g.nodes && k !in order then g.nodes[k] else Unflagged
        {
          if k != name {
            assert k in order <==> k in init;
          }
        }
      }
    }
  }

  /** The arcs during normalisation: the original ones, then epsilon arcs for the nodes visited so far. */
  lemma {:induction false} NormalizeArcs(g: Nfa, order: seq<string>)
    requires UserNfa(g)
    requires Distinct(order)
    ensures var n := Normalize(Prepare(g), order);
      && |n.arcs| >= |g.arcs|
      && n.arcs[..|g.arcs|] == g.arcs
      && (forall i | |g.arcs| <= i < |n.arcs| :: EpsilonFor(g, n.arcs[i]))
      && (forall k | k in order && k in g.nodes && g.nodes[k].isInitial :: Arc(InitialName, k, "") in n.arcs)
      && (forall k | k in order && k in g.nodes && g.nodes[k].isTerminal :: Arc(k, TerminalName, "") in n.arcs)
    decreases |order|
  {
    var p := Prepare(g);
    if order == [] {
      assert p.arcs == g.arcs;
    } else {
      var init, name := order[..|order| - 1], order[|order| - 1];
      NormalizeArcs(g, init);
      var m := Normalize(p, init);
      assert && InitialName in m.nodes && TerminalName in m.nodes
             && (name in g.nodes ==> name in m.nodes)
             && (name in m.nodes ==> m.nodes[name] == if name in g.nodes then g.nodes[name] else Unflagged) by {
        NormalizeNodes(g, init);
        assert name !in init;
      }
      var n := Normalize(p, order);
      assert n == NormStep(m, name);
      if name in m.nodes {
        NormArcsStep(g, m, name);
      }
    }
  }

  /** One normalisation step keeps the arc invariant of NormalizeArcs and adds the arcs of its node. */
  lemma NormArcsStep(g: Nfa, m: Nfa, name: string)
    requires InitialName in m.nodes && TerminalName in m.nodes && name in m.nodes
    requires m.nodes[name] == if name in g.nodes then g.nodes[name] else Unflagged
    requires |m.arcs| >= |g.arcs| && m.arcs[..|g.arcs|] == g.arcs
    requires forall i | |g.arcs| <= i < |m.arcs| :: EpsilonFor(g, m.arcs[i])
    ensures var n := NormStep(m, name);
      && |n.arcs| >= |g.arcs|
      && n.arcs[..|g.arcs|] == g.arcs
      && (forall i | |g.arcs| <= i < |n.arcs| :: EpsilonFor(g, n.arcs[i]))
      && (forall a | a in m.arcs :: a in n.arcs)
      && (name in g.nodes && g.nodes[name].isInitial ==> Arc(InitialName, name, "") in n.arcs)
      && (name in g.nodes && g.nodes[name].isTerminal ==> Arc(name, TerminalName, "") in n.arcs)
  {
    var n := NormStep(m, name);
    NormStepFacts(m, name);
    PrefixTrans(n.arcs, m.arcs, g.arcs);
    forall a | a in m.arcs ensures a in n.arcs {
      var i :| 0 <= i < |m.arcs| && m.arcs[i] == a;
      assert n.arcs[i] == a;
    }
    forall i | |g.arcs| <= i < |n.arcs| ensures EpsilonFor(g, n.arcs[i]) {
      if i < |m.arcs| {
        assert n.arcs[i] == m.arcs[i];
      }
    }
  }

  /**
   * Normalisation with an order listing every node: the original arcs come
   * first, unchanged; then come only epsilon arcs, one from the synthetic
   * initial node to each initial node and one from each terminal node to
   * the synthetic terminal node; every flag is cleared except those of the
   * two synthetic nodes, which become the only initial and the only
   * terminal node.
   */
  lemma NormalizedShape(g: Nfa, order: seq<string>)
    requires UserNfa(g)
    requires IsOrdering(order, Prepare(g).nodes.Keys)
    ensures var h := Normalized(g, order);
      && Shaped(h)
      && h.nodes.Keys == g.nodes.Keys + {InitialName, TerminalName}
      && (forall k | k in g.nodes :: h.nodes[k] == Unflagged)
      && |h.arcs| >= |g.arcs|
      && h.arcs[..|g.arcs|] == g.arcs
      && (forall i | |g.arcs| <= i < |h.arcs| :: EpsilonFor(g, h.arcs[i]))
      && (forall k | k in g.nodes && g.nodes[k].isInitial :: Arc(InitialName, k, "") in h.arcs)
      && (forall k | k in g.nodes && g.nodes[k].isTerminal :: Arc(k, TerminalName, "") in h.arcs)
      && (!HasInitial(g) ==> NoArcOutOf(h, InitialName))
      && (!HasTerminal(g) ==> NoArcInto(h, TerminalName))
  {
    NormalizePrefix(g, order);
    var n := Normalize(Prepare(g), order);
    var h := MarkSynthetic(n);
    assert h.arcs == n.arcs;
    forall a | a in h.arcs
      ensures a.src in h.nodes && a.dst in h.nodes
      ensures a.dst != InitialName && a.src != TerminalName
      ensures !HasInitial(g) ==> a.src != InitialName
      ensures !HasTerminal(g) ==> a.dst != TerminalName
    {
      var i :| 0 <= i < |h.arcs| && h.arcs[i] == a;
      if i < |g.arcs| {
        assert a == g.arcs[i];
        assert a in g.arcs;
      } else {
        assert EpsilonFor(g, a);
      }
    }
  }

  // ---------------------------------------------------------------------
  // Properties of elimination
  // ---------------------------------------------------------------------

  /**
   * The shape the elimination loop keeps: well formed, the synthetic
   * initial node is the only way in and the synthetic terminal node the
   * only way out, with their flags set.
   */
  ghost predicate Shaped(h: Nfa)
  {
    && WellFormed(h)
    && InitialName in h.nodes && TerminalName in h.nodes
    && h.nodes[InitialName] == Flags(true, false)
    && h.nodes[TerminalName] == Flags(false, true)
    && NoArcInto(h, InitialName)
    && NoArcOutOf(h, TerminalName)
  }

  /** Eliminating an ordinary node keeps the shape, and keeps any arc-free side arc-free. */
  lemma EliminateKeepsShape(h: Nfa, n: string)
    requires Shaped(h)
    requires n in h.nodes && n != InitialName && n != TerminalName
    ensures var r := Eliminate(h, n);
      && Shaped(r)
      && r.nodes == h.nodes - {n}
      && (NoArcOutOf(h, InitialName) ==> NoArcOutOf(r, InitialName))
      && (NoArcInto(h, TerminalName) ==> NoArcInto(r, TerminalName))
  {
    var r := Eliminate(h, n);
    EliminateShape(h, n);
    var ins := Into(h.arcs, n);
    var outs := OutOf(h.arcs, n);
    BypassMembers(ins, outs, LoopLabel(ins));
    FilterMembers(h.arcs, DstIs(n));
    FilterMembers(h.arcs, SrcIs(n));
    FilterMembers(h.arcs, Misses(n));
    forall a | a in r.arcs
      ensures a.dst != InitialName && a.src != TerminalName
      ensures NoArcOutOf(h, InitialName) ==> a.src != InitialName
      ensures NoArcInto(h, TerminalName) ==> a.dst != TerminalName
    {
      if a !in Avoiding(h.arcs, n) {
        assert a in Bypass(ins, outs, LoopLabel(ins));
      }
    }
  }

  /** The set of elements of a sequence. */
  function Elements(s: seq<string>): set<string> { set x | x in s }

  lemma {:induction false} EliminateAllPrefix(h: Nfa, order: seq<string>, obs: Observer)
    requires Shaped(h)
    requires Distinct(order)
    requires forall i | 0 <= i < |order| :: order[i] in h.nodes
    ensures match EliminateAll(h, order, obs)
      case Done(k) =>
        && Shaped(k)
        && k.nodes.Keys == h.nodes.Keys - (Elements(order) - {InitialName, TerminalName})
        && (NoArcOutOf(h, InitialName) ==> NoArcOutOf(k, InitialName))
        && (NoArcInto(h, TerminalName) ==> NoArcInto(k, TerminalName))
      case Aborted(step, _) =>
        exists i | 0 <= i < |order| ::
          order[i] != InitialName && order[i] != TerminalName && step == RemoveStep(order[i])
    decreases |order|
  {
    if order == [] {
      assert h.nodes.Keys - (Elements(order) - {InitialName, TerminalName}) == h.nodes.Keys;
    } else {
      var init, name := order[..|order| - 1], order[|order| - 1];
      EliminateAllPrefix(h, init, obs);
      assert Elements(order) == Elements(init) + {name};
      match EliminateAll(h, init, obs)
      case Aborted(step, _) => {
        var i :| 0 <= i < |init| && init[i] != InitialName && init[i] != TerminalName && step == RemoveStep(init[i]);
        assert order[i] == init[i];
      }
      case Done(k) => {
        assert name !in Elements(init);
        EliminateStepFacts(k, name, obs);
      }
    }
  }

  /** One node of the elimination loop keeps the shape and removes that node, unless it is synthetic. */
  lemma EliminateStepFacts(k: Nfa, name: string, obs: Observer)
    requires Shaped(k) && name in k.nodes
    ensures match EliminateStep(k, name, obs)
      case Done(k') =>
        && Shaped(k')
        && k'.nodes.Keys == (if name == InitialName || name == TerminalName then k.nodes.Keys else k.nodes.Keys - {name})
        && (NoArcOutOf(k, InitialName) ==> NoArcOutOf(k', InitialName))
        && (NoArcInto(k, TerminalName) ==> NoArcInto(k', TerminalName))
      case Aborted(step, _) => name != InitialName && name != TerminalName && step == RemoveStep(name)
  {
    if name != InitialName && name != TerminalName {
      EliminateKeepsShape(k, name);
    }
  }

  /**
   * When the elimination loop has visited every node, exactly the two
   * synthetic nodes are left and every remaining arc runs from the
   * synthetic initial node to the synthetic terminal node.
   */
  lemma EliminateAllDone(h: Nfa, order: seq<string>, obs: Observer)
    requires Shaped(h)
    requires IsOrdering(order, h.nodes.Keys)
    requires EliminateAll(h, order, obs).Done?
    ensures var k := EliminateAll(h, order, obs).g;
      && Shaped(k)
      && k.nodes.Keys == {InitialName, TerminalName}
      && (forall a | a in k.arcs :: a.src == InitialName && a.dst == TerminalName)
      && (NoArcOutOf(h, InitialName) ==> k.arcs == [])
      && (NoArcInto(h, TerminalName) ==> k.arcs == [])
  {
    EliminateAllPrefix(h, order, obs);
    var k := EliminateAll(h, order, obs).g;
    RemainingKeys(h.nodes, order);
    forall a | a in k.arcs ensures a.src == InitialName && a.dst == TerminalName {
      assert a.src in k.nodes && a.dst in k.nodes;
    }
    if k.arcs != [] {
      assert k.arcs[0] in k.arcs;
    }
  }

  lemma RemainingKeys(m: map<string, Flags>, order: seq<string>)
    requires InitialName in m && TerminalName in m
    requires forall x | x in m :: x in order
    ensures (m - (Elements(order) - {InitialName, TerminalName})).Keys == {InitialName, TerminalName}
  {
  }

  /**
   * The normalisation loop at position `i` of `order`: the node there still
   * has its original flags, and normalising it takes Normalize one node further.
   */
  lemma NormalizeVisit(g: Nfa, order: seq<string>, i: nat)
    requires UserNfa(g) && IsOrdering(order, Prepare(g).nodes.Keys) && i < |order|
    ensures var m := Normalize(Prepare(g), order[..i]);
      && order[i] in m.nodes && InitialName in m.nodes && TerminalName in m.nodes
      && m.nodes[order[i]] == (if order[i] in g.nodes then g.nodes[order[i]] else Unflagged)
      && Normalize(Prepare(g), order[..i + 1]) == NormStep(m, order[i])
  {
    DistinctPrefix(order, i);
    NormalizePrefix(g, order[..i]);
    DistinctAt(order, i);
    assert order[..i + 1][..i] == order[..i];
  }

  /** `k` is an initial (or, with `initial` false, a terminal) node of `g`. */
  predicate FlagAt(g: Nfa, k: string, initial: bool)
  {
    k in g.nodes && (if initial then g.nodes[k].isInitial else g.nodes[k].isTerminal)
  }

  /** Some node named in `order` carries the flag, as the normalisation loop accumulates it. */
  function Seen(g: Nfa, order: seq<string>, initial: bool): bool
  {
    if order == [] then false
    else Seen(g, order[..|order| - 1], initial) || FlagAt(g, order[|order| - 1], initial)
  }

  lemma {:induction false} SeenIff(g: Nfa, order: seq<string>, initial: bool)
    ensures Seen(g, order, initial) <==> exists j | 0 <= j < |order| :: FlagAt(g, order[j], initial)
    decreases |order|
  {
    if order != [] {
      var init := order[..|order| - 1];
      SeenIff(g, init, initial);
      if Seen(g, init, initial) {
        var j :| 0 <= j < |init| && FlagAt(g, init[j], initial);
        assert order[j] == init[j];
      }
      if j :| 0 <= j < |order| && FlagAt(g, order[j], initial) {
        if j < |init| {
          assert init[j] == order[j];
        }
      }
    }
  }

  /** What the flags read at the i-th visited node add to the two "seen so far" answers. */
  lemma VisitStep(g: Nfa, order: seq<string>, i: nat, m: Nfa, wasInitial: bool, wasTerminal: bool)
    requires i < |order| && order[i] in m.nodes
    requires m.nodes[order[i]] == (if order[i] in g.nodes then g.nodes[order[i]] else Unflagged)
    requires wasInitial == m.nodes[order[i]].isInitial && wasTerminal == m.nodes[order[i]].isTerminal
    ensures Seen(g, order[..i + 1], true) == (Seen(g, order[..i], true) || wasInitial)
    ensures Seen(g, order[..i + 1], false) == (Seen(g, order[..i], false) || wasTerminal)
  {
    assert order[..i + 1][..i] == order[..i];
  }

  /** An ordering of every node visits an initial node exactly when the automaton has one, and likewise for terminal nodes. */
  lemma OrderingCovers(g: Nfa, order: seq<string>)
    requires IsOrdering(order, Prepare(g).nodes.Keys)
    ensures HasInitial(g) == Seen(g, order, true)
    ensures HasTerminal(g) == Seen(g, order, false)
  {
    SeenIff(g, order, true);
    SeenIff(g, order, false);
    if HasInitial(g) {
      var k :| k in g.nodes && g.nodes[k].isInitial;
      assert k in Prepare(g).nodes;
      var j :| 0 <= j < |order| && order[j] == k;
      assert FlagAt(g, order[j], true);
    }
    if HasTerminal(g) {
      var k :| k in g.nodes && g.nodes[k].isTerminal;
      assert k in Prepare(g).nodes;
      var j :| 0 <= j < |order| && order[j] == k;
      assert FlagAt(g, order[j], false);
    }
  }

  /** One more node of the ordering: it has not been eliminated yet. */
  lemma PassStep(h: Nfa, order: seq<string>, idx: nat, obs: Observer)
    requires Shaped(h) && IsOrdering(order, h.nodes.Keys)
    requires idx < |order| && EliminateAll(h, order[..idx], obs).Done?
    ensures var k := EliminateAll(h, order[..idx], obs).g;
      Shaped(k) && order[idx] in k.nodes
  {
    var prefix := order[..idx];
    DistinctPrefix(order, idx);
    EliminateAllPrefix(h, prefix, obs);
    DistinctAt(order, idx);
    assert order[idx] !in Elements(prefix);
  }

  /** EliminateAll over one more node, when the observer lets the pass go on. */
  lemma PassContinue(h: Nfa, order: seq<string>, idx: nat, obs: Observer, k: Nfa, k': Nfa)
    requires idx < |order| && EliminateAll(h, order[..idx], obs) == Done(k)
    requires order[idx] == InitialName || order[idx] == TerminalName ==> k' == k
    requires order[idx] != InitialName && order[idx] != TerminalName ==>
      k' == Eliminate(k, order[idx]) && obs(k', RemoveStep(order[idx])) == Continue
    ensures EliminateAll(h, order[..idx + 1], obs) == Done(k')
  {
    assert EliminateStep(k, order[idx], obs) == Done(k');
    assert order[..idx + 1][..idx] == order[..idx];
  }

  /** EliminateAll over one more node, when the observer fails after eliminating it. */
  lemma PassFail(h: Nfa, order: seq<string>, idx: nat, obs: Observer, k: Nfa, cause: string)
    requires idx < |order| && EliminateAll(h, order[..idx], obs) == Done(k)
    requires order[idx] != InitialName && order[idx] != TerminalName
    requires obs(Eliminate(k, order[idx]), RemoveStep(order[idx])) == Fail(cause)
    ensures EliminateAll(h, order[..idx + 1], obs) == Aborted(RemoveStep(order[idx]), cause)
  {
    assert EliminateStep(k, order[idx], obs) == Aborted(RemoveStep(order[idx]), cause);
    assert order[..idx + 1][..idx] == order[..idx];
  }

  /** Once the elimination loop has aborted, later nodes do not matter. */
  lemma {:induction false} AbortedSticks(h: Nfa, s: seq<string>, t: seq<string>, obs: Observer)
    requires EliminateAll(h, s, obs).Aborted?
    ensures EliminateAll(h, s + t, obs) == EliminateAll(h, s, obs)
    decreases |t|
  {
    if t == [] {
      assert s + t == s;
    } else {
      AbortedSticks(h, s, t[..|t| - 1], obs);
      assert (s + t)[..|s + t| - 1] == s + t[..|t| - 1];
    }
  }

  /** Once a prefix of the ordering has aborted, so has the whole ordering. */
  lemma AbortedPrefix(h: Nfa, order: seq<string>, n: nat, obs: Observer)
    requires n <= |order| && EliminateAll(h, order[..n], obs).Aborted?
    ensures EliminateAll(h, order, obs) == EliminateAll(h, order[..n], obs)
  {
    AbortedSticks(h, order[..n], order[n..], obs);
    assert order[..n] + order[n..] == order;
  }


  /** Without an observer the elimination loop always runs to the end. */
  lemma {:induction false} SilentNeverAborts(h: Nfa, order: seq<string>)
    ensures EliminateAll(h, order, Silent).Done?
    decreases |order|
  {
    if order != [] {
      SilentNeverAborts(h, order[..|order| - 1]);
    }
  }

  /** Once only the synthetic nodes are left, "no path" means "no arc left". */
  lemma FinishNoPath(k: Nfa)
    requires Shaped(k)
    requires k.nodes.Keys == {InitialName, TerminalName}
    ensures Finish(k) == Err(NoPath) <==> k.arcs == []
    ensures k.arcs != [] ==> Finish(k) == Ok(OrJoin(Values(k.arcs)))
  {
    if k.arcs != [] {
      var a := k.arcs[0];
      assert a in k.arcs;
      assert a.src == InitialName && a.dst == TerminalName;
    }
  }

  // ---------------------------------------------------------------------
  // The conversion as a whole
  // ---------------------------------------------------------------------

  /**
   * The outcome of a conversion, case by case: a regular expression is
   * the alternation of the labels of the arcs left between the two
   * synthetic nodes once every other node is eliminated, and needs an
   * initial and a terminal node; "no path" means no arc was left; a missing
   * initial node is reported before a missing terminal node; and a failing
   * observer is reported with the checkpoint it failed at, which is "start",
   * "create-initial-terminal" or the removal of a node of the automaton.
   */
  lemma ConversionOutcome(g: Nfa, normOrder: seq<string>, elimOrder: seq<string>, obs: Observer)
    requires UserNfa(g)
    requires IsOrdering(normOrder, Prepare(g).nodes.Keys)
    requires IsOrdering(elimOrder, Prepare(g).nodes.Keys)
    ensures var h := Normalized(g, normOrder);
      match ToRegexSpec(g, normOrder, elimOrder, obs)
      case Ok(s) =>
        && HasInitial(g) && HasTerminal(g)
        && EliminateAll(h, elimOrder, obs).Done?
        && var k := EliminateAll(h, elimOrder, obs).g;
        && k.nodes.Keys == {InitialName, TerminalName}
        && k.arcs != []
        && (forall a | a in k.arcs :: a.src == InitialName && a.dst == TerminalName)
        && s == OrJoin(Values(k.arcs))
      case Err(NoPath) =>
        && HasInitial(g) && HasTerminal(g)
        && EliminateAll(h, elimOrder, obs) == Done(Nfa(map[InitialName := Flags(true, false), TerminalName := Flags(false, true)], []))
      case Err(NoInitial) => !HasInitial(g)
      case Err(NoTerminal) => HasInitial(g) && !HasTerminal(g)
      case Err(CallbackFailed(step, cause)) =>
        || (step == StartStep && obs(g, StartStep) == Fail(cause))
        || (step == CreateStep && obs(h, CreateStep) == Fail(cause))
        || (exists x | x in g.nodes :: step == RemoveStep(x))
      case Err(NilNfa) => false
  {
    var h := Normalized(g, normOrder);
    var r := ToRegexSpec(g, normOrder, elimOrder, obs);
    if obs(g, StartStep).Continue? && HasInitial(g) && HasTerminal(g) && obs(h, CreateStep).Continue? {
      EliminationOutcome(g, normOrder, elimOrder, obs);
    }
  }

  /** The elimination loop on a normalised automaton, whatever the observer answers. */
  lemma EliminationOutcome(g: Nfa, normOrder: seq<string>, elimOrder: seq<string>, obs: Observer)
    requires UserNfa(g)
    requires IsOrdering(normOrder, Prepare(g).nodes.Keys)
    requires IsOrdering(elimOrder, Prepare(g).nodes.Keys)
    ensures match EliminateAll(Normalized(g, normOrder), elimOrder, obs)
      case Done(k) =>
        && k.nodes == map[InitialName := Flags(true, false), TerminalName := Flags(false, true)]
        && (forall a | a in k.arcs :: a.src == InitialName && a.dst == TerminalName)
        && (k.arcs == [] ==> Finish(k) == Err(NoPath))
        && (k.arcs != [] ==> Finish(k) == Ok(OrJoin(Values(k.arcs))))
      case Aborted(step, _) => exists x | x in g.nodes :: step == RemoveStep(x)
  {
    var h := Normalized(g, normOrder);
    assert Shaped(h) && h.nodes.Keys == Prepare(g).nodes.Keys by {
      NormalizedShape(g, normOrder);
    }
    match EliminateAll(h, elimOrder, obs)
    case Aborted(step, cause) => {
      assert exists i | 0 <= i < |elimOrder| ::
        elimOrder[i] != InitialName && elimOrder[i] != TerminalName && step == RemoveStep(elimOrder[i]) by {
        EliminateAllPrefix(h, elimOrder, obs);
      }
      var i :| 0 <= i < |elimOrder| && elimOrder[i] != InitialName &&
        elimOrder[i] != TerminalName && step == RemoveStep(elimOrder[i]);
      assert elimOrder[i] in g.nodes;
    }
    case Done(k) => {
      FinishedShape(h, elimOrder, obs);
    }
  }

  /** A completed pass leaves the two synthetic nodes and only arcs between them. */
  lemma FinishedShape(h: Nfa, order: seq<string>, obs: Observer)
    requires Shaped(h) && IsOrdering(order, h.nodes.Keys)
    requires EliminateAll(h, order, obs).Done?
    ensures var k := EliminateAll(h, order, obs).g;
      && k.nodes == map[InitialName := Flags(true, false), TerminalName := Flags(false, true)]
      && (forall a | a in k.arcs :: a.src == InitialName && a.dst == TerminalName)
      && (k.arcs == [] ==> Finish(k) == Err(NoPath))
      && (k.arcs != [] ==> Finish(k) == Ok(OrJoin(Values(k.arcs))))
  {
    var k := EliminateAll(h, order, obs).g;
    EliminateAllDone(h, order, obs);
    FinishNoPath(k);
    SyntheticOnly(k);
  }

  /**
   * What the outer elimination loop needs: the normalised automaton has a
   * node besides the synthetic ones, and one completed pass leaves only those two.
   */
  lemma EliminationSetup(g: Nfa, normOrder: seq<string>, elimOrder: seq<string>, obs: Observer)
    requires UserNfa(g) && HasInitial(g)
    requires IsOrdering(normOrder, Prepare(g).nodes.Keys)
    requires IsOrdering(elimOrder, Prepare(g).nodes.Keys)
    ensures var h := Normalized(g, normOrder);
      && Shaped(h) && IsOrdering(elimOrder, h.nodes.Keys)
      && |h.nodes.Keys| >= 3
      && (EliminateAll(h, elimOrder, obs).Done? ==> |EliminateAll(h, elimOrder, obs).g.nodes.Keys| == 2)
  {
    var h := Normalized(g, normOrder);
    assert Shaped(h) && h.nodes.Keys == Prepare(g).nodes.Keys by {
      NormalizedShape(g, normOrder);
    }
    MoreThanSynthetic(g);
    var p := EliminateAll(h, elimOrder, obs);
    if p.Done? {
      assert p.g.nodes.Keys == {InitialName, TerminalName} by {
        EliminateAllDone(h, elimOrder, obs);
      }
      SyntheticPair();
    }
  }

  /** When every ordinary node is eliminated, leaving `k`, the legacy result alternates the labels of `k`. */
  lemma LegacySpecDone(g: Nfa, normOrder: seq<string>, elimOrder: seq<string>, k: Nfa)
    requires EliminateAll(Normalized(g, normOrder), elimOrder, Silent) == Done(k)
    ensures LegacyRegexSpec(g, normOrder, elimOrder) == OrJoin(Values(k.arcs))
  {
  }

  /**
   * What the elimination loop of the older variant needs, which does not
   * first check for an initial node: when only the synthetic nodes exist
   * the loop does not run, and then eliminating nothing is the whole pass.
   */
  lemma LegacySetup(g: Nfa, normOrder: seq<string>, elimOrder: seq<string>)
    requires UserNfa(g)
    requires IsOrdering(normOrder, Prepare(g).nodes.Keys)
    requires IsOrdering(elimOrder, Prepare(g).nodes.Keys)
    ensures var h := Normalized(g, normOrder);
      && Shaped(h) && IsOrdering(elimOrder, h.nodes.Keys)
      && (|h.nodes.Keys| <= 2 ==> EliminateAll(h, elimOrder, Silent) == Done(h))
      && (EliminateAll(h, elimOrder, Silent).Done? ==> |EliminateAll(h, elimOrder, Silent).g.nodes.Keys| == 2)
  {
    var h := Normalized(g, normOrder);
    assert Shaped(h) && h.nodes.Keys == Prepare(g).nodes.Keys by {
      NormalizedShape(g, normOrder);
    }
    if |h.nodes.Keys| <= 2 {
      assert h.nodes.Keys == {InitialName, TerminalName} by {
        OnlySynthetic(h.nodes.Keys);
      }
      EliminateAllIdle(h, elimOrder, Silent);
    }
    var p := EliminateAll(h, elimOrder, Silent);
    if p.Done? {
      assert p.g.nodes.Keys == {InitialName, TerminalName} by {
        EliminateAllDone(h, elimOrder, Silent);
      }
      SyntheticPair();
    }
  }

  /** A set of at most two names holding both synthetic names holds nothing else. */
  lemma OnlySynthetic(keys: set<string>)
    requires InitialName in keys && TerminalName in keys && |keys| <= 2
    ensures keys == {InitialName, TerminalName}
  {
    var pair := {InitialName, TerminalName};
    var rest := keys - pair;
    assert keys == rest + pair && rest * pair == {};
    SyntheticPair();
    assert |rest| == 0;
  }

  /** A pass over synthetic nodes only eliminates nothing. */
  lemma {:induction false} EliminateAllIdle(h: Nfa, order: seq<string>, obs: Observer)
    requires forall i | 0 <= i < |order| :: order[i] == InitialName || order[i] == TerminalName
    ensures EliminateAll(h, order, obs) == Done(h)
    decreases |order|
  {
    if order != [] {
      EliminateAllIdle(h, order[..|order| - 1], obs);
    }
  }

  lemma SyntheticPair()
    ensures |{InitialName, TerminalName}| == 2
  {
  }

  /** A user automaton with an initial node has a node besides the two synthetic ones. */
  lemma MoreThanSynthetic(g: Nfa)
    requires UserNfa(g) && HasInitial(g)
    ensures |Prepare(g).nodes.Keys| >= 3
  {
    var k :| k in g.nodes && g.nodes[k].isInitial;
    var keys := Prepare(g).nodes.Keys;
    assert {k, InitialName, TerminalName} <= keys;
    assert keys == (keys - {k, InitialName, TerminalName}) + {k, InitialName, TerminalName};
  }

  lemma SyntheticOnly(k: Nfa)
    requires Shaped(k)
    requires k.nodes.Keys == {InitialName, TerminalName}
    ensures k.nodes == map[InitialName := Flags(true, false), TerminalName := Flags(false, true)]
  {
  }

  /** Without an observer the conversion never reports a callback failure. */
  lemma SilentConversion(g: Nfa, normOrder: seq<string>, elimOrder: seq<string>)
    ensures var r := ToRegexSpec(g, normOrder, elimOrder, Silent); !(r.Err? && r.error.CallbackFailed?)
  {
    SilentNeverAborts(Normalized(g, normOrder), elimOrder);
  }

  /**
   * The older variant computes the newer one's expression when that one
   * succeeds, and gives "" on every error the newer one reports (no initial
   * node, no terminal node, no path); "" can also be a successful result.
   */
  lemma LegacyAgreement(g: Nfa, normOrder: seq<string>, elimOrder: seq<string>)
    requires UserNfa(g)
    requires IsOrdering(normOrder, Prepare(g).nodes.Keys)
    requires IsOrdering(elimOrder, Prepare(g).nodes.Keys)
    ensures LegacyRegexSpec(g, normOrder, elimOrder) ==
      match ToRegexSpec(g, normOrder, elimOrder, Silent)
      case Ok(s) => s
      case Err(_) => ""
  {
    var h := Normalized(g, normOrder);
    NormalizedShape(g, normOrder);
    SilentNeverAborts(h, elimOrder);
    EliminateAllDone(h, elimOrder, Silent);
    var k := EliminateAll(h, elimOrder, Silent).g;
    FinishNoPath(k);
    if k.arcs == [] {
      assert Values(k.arcs) == [];
    }
  }
}
