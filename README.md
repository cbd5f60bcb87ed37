# nfa2regex in Dafny

A model of the `nfa2regex` Go package, which turns a nondeterministic finite
automaton into a regular expression by state elimination, together with the
older copy of the same algorithm in `main.go`.

The automaton is a map from node names to node records, each record holding
an `IsInitial` and an `IsTerminal` flag, plus an ordered list of labelled
edges whose endpoints are node records (the empty label is an epsilon edge).
The conversion works on a shallow copy. It adds a synthetic `__initial__` and
a synthetic `__terminal__` node and links them to the flagged nodes by epsilon
edges. It then eliminates every other node, replacing each path through it by
an edge labelled `in + (self-loops)* + out`. The result is the alternation of
the labels that are left. A step observer is called at the checkpoints
`start`, `create-initial-terminal` and `remove-node-<name>`.

Modules, one per file:

- `Combinators` (`combinators.dfy`): `addKleenStar` and `orJoin`, which are
  pure functions. The two copies of these in the source are identical.
- `Graph` (`graph.dfy`): the automaton as a value, with nodes identified by
  name. It defines the order-preserving filters behind `EdgesIn`, `EdgesOut`
  and `RemoveNode`, the value versions of the automaton operations, and the
  elimination of one node (`Eliminate`, built from `Bypass` and `LoopLabel`).
- `Simulation` (`simulation.dfy`): what `Match` decides, as a function
  (`Run`, `Accepts`), and an independent characterisation of it by walks.
- `Conversion` (`conversion.dfy`): the whole conversion on values
  (`ToRegexSpec`), covering the observer, the error contract and the older
  error-free variant (`LegacyRegexSpec`), plus the structural lemmas.
- `Automaton` (`automaton.dfy`): the library's `NFA` as a class. Node records
  are objects, and each edge is a value holding two node references, because
  the library never writes to an edge record. Every method is proved against
  the value operation through `Abs()`, which is the automaton seen by names.
  `ToRegexWithConfig` has no `modifies` clause, so Dafny proves that the
  caller's automaton is left untouched.
- `Legacy` (`legacy.dfy`): the `main.go` variant. Here an edge is a class,
  because `replaceNode` overwrites the endpoint fields of shared edge
  records, and `NFA2Regex` states, endpoint by endpoint, what this does to
  the caller's automaton.
- `Multiples` (`multiples.dfy`): `MakeNFAMultiplesOfN` as a value, and what
  that automaton accepts.

Go map iteration order is unspecified. Each loop over the node map is
therefore given its visiting order as a parameter: `normOrder` for the
normalisation loop and `elimOrder` for the elimination loop. Each order must
list every node exactly once (`IsOrdering`). Every property below holds
whichever orders are chosen.

## Model

| member | source | states |
|---|---|---|
| `Combinators.AddKleenStar` | nfa2regex.go:392-409 | The result is empty exactly when `s` is empty. A one-character operand, or any operand with `noWrap` set, is starred bare (`s + "*"`). Every other non-empty operand is parenthesised first (`"(" + s + ")*"`). |
| `Combinators.KleenStarRoundTrip` | nfa2regex.go:397-408 | Given the flag, the operand can always be recovered from the starred result, so the star loses nothing. |
| `Combinators.KleenStarExamples` | main.go:275-292 | The four doc-comment examples hold: `""`, `"a*"`, `"(abc)*"` and `"(abc|123)*"` with `noWrap`. |
| `Combinators.NonEmpty` | nfa2regex.go:417-422 | The filter step of `orJoin` keeps no empty string and keeps every non-empty string as often as it occurs. |
| `Combinators.NonEmptyAppend` | nfa2regex.go:418-421 | The filter distributes over concatenation, so it keeps the original relative order. |
| `Combinators.NonEmptyKeepsAll` | nfa2regex.go:418-421 | When no entry is empty, the filter keeps every entry. |
| `Combinators.JoinSplitRoundTrip` | nfa2regex.go:430 | Joining `|`-free strings with `|` can be undone by splitting at `|`. |
| `Combinators.OrJoin` | nfa2regex.go:411-432 | The result is `""` exactly when every entry is empty. A single non-empty entry is returned unwrapped. Two or more give a parenthesised result. |
| `Combinators.OrJoinRoundTrip` | nfa2regex.go:424-431 | With two or more survivors, stripping the parentheses and splitting at `|` gives back exactly the non-empty entries, in order. |
| `Combinators.OrJoinIgnoresEmpty` | nfa2regex.go:416-422 | Inserting `""` anywhere in the input never changes the result. |
| `Combinators.OrJoinExamples` | main.go:294-315 | The doc-comment examples hold: `[]`, `["a"]`, `["a","b"]` and `["","a","b"]`. |
| `Graph.FilterMembers` | nfa2regex.go:95-99 | The order-preserving filter behind `EdgesIn`/`EdgesOut`/`RemoveNode` keeps exactly the elements that pass the test. |
| `Graph.AddArcFrame` | nfa2regex.go:40-48 | Adding an edge appends exactly one arc at the end, with the given endpoints and label. Missing endpoints are created unflagged. Existing nodes and arcs are unchanged. |
| `Graph.RemoveNodeFrame` | nfa2regex.go:77-88 | Removal deletes the key. The arcs left are exactly those not incident to the node. The node count drops by one when the node was present. |
| `Graph.BypassSize` | nfa2regex.go:271-286 | Elimination adds one arc per pair of a non-loop in-arc and a non-loop out-arc. |
| `Graph.BypassMembers` | nfa2regex.go:271-286 | The added arcs are exactly `Arc(i.src, o.dst, i.value + mid + o.value)` for each non-loop in-arc `i` and non-loop out-arc `o`. |
| `Graph.BypassNotOutOf` | nfa2regex.go:275 | No added arc leaves the eliminated node, so re-reading its out-edges inside the loop gives the same list. |
| `Graph.EliminateShape` | nfa2regex.go:260-288 | Eliminating a node removes it (the count drops by one) and keeps the automaton well formed. The arcs become the non-incident arcs in their old order, followed by the bypass arcs. |
| `Graph.EliminateExample` | nfa2regex_test.go:140-144 | Eliminating the middle node of `a`, then an `x` self-loop, then `b` leaves the single arc `"ax*b"`. |
| `Graph.LoopLabelUngrouped` | nfa2regex.go:262-270 | Self-loops labelled `ab` and `""` give the loop label `ab*` as written; the grouped label gives `(ab)*`. |
| `Graph.GroupedLoopLabelStarsAll` | nfa2regex.go:262-270 | With the grouping flag counted over the labels the alternation keeps, the star covers the whole alternation. No loop label gives `""`; one label of one character is starred bare; a longer one is parenthesised; two or more give their `\|`-joined group starred. |
| `Graph.GroupedLoopLabelAgrees` | nfa2regex.go:262-270 | When no self-loop label is empty, the grouped label equals the loop label the source builds. |
| `Simulation.Initials` | nfa2regex.go:144-149 | The starting set contains only nodes flagged initial. |
| `Simulation.StepAlongMembers` | nfa2regex.go:153-160 | One step reaches exactly the destinations of arcs that leave an active node and whose label is exactly the one character. |
| `Simulation.StepAlongUnion` | nfa2regex.go:154-160 | A step from a union of active sets is the union of the steps. |
| `Simulation.RunIsReachable` | nfa2regex.go:151-163 | A node is active after reading `w` exactly when some walk from an initial node reads `w` one single-character arc per character and ends there. |
| `Simulation.AcceptsIffPath` | nfa2regex.go:143-172 | A string is accepted exactly when such a walk ends on a terminal node. |
| `Simulation.OnlySingleCharArcs` | nfa2regex.go:152-158 | Arcs whose label is not exactly one character are never followed, so there is no epsilon closure. |
| `Simulation.ManyManyRuns` | nfa2regex_test.go:14-26 | The active sets of the many-initial/many-terminal automaton after `""`, `"a"`, `"x"` and `"f"`. |
| `Simulation.ManyManyAccepts` | nfa2regex_test.go:43-47 | That automaton accepts `"ab"`, `"alllb"` and `"xy"`. |
| `Simulation.ManyManyRejects` | nfa2regex_test.go:45-48 | That automaton rejects `"aa"`, `"fff"` and `"ax"`. |
| `Conversion.NormStepFacts` | nfa2regex.go:217-235 | One normalisation step clears the node's flags. It appends only the epsilon arcs its original flags call for. |
| `Conversion.NormalizedShape` | nfa2regex.go:212-238 | After normalisation the original arcs come first and are unchanged. After them come only epsilon arcs, one from `__initial__` to each initial node and one from each terminal node to `__terminal__`. Every user flag is cleared. The two synthetic nodes become the only initial node and the only terminal node, with nothing entering `__initial__` and nothing leaving `__terminal__`. |
| `Conversion.OrderingCovers` | nfa2regex.go:215-246 | The "has initial"/"has terminal" flags gathered by the loop equal "some node of the input is initial/terminal". |
| `Conversion.EliminateKeepsShape` | nfa2regex.go:254-296 | Eliminating an ordinary node keeps the synthetic nodes, their flags and the absence of arcs into `__initial__` or out of `__terminal__`. |
| `Conversion.EliminateAllPrefix` | nfa2regex.go:254-296 | Each prefix of the elimination pass removes exactly the ordinary nodes visited so far. An abort names `remove-node-<n>` for a visited ordinary node. |
| `Conversion.EliminateAllDone` | nfa2regex.go:254-296 | A completed pass leaves exactly the two synthetic nodes. Every remaining arc runs from `__initial__` to `__terminal__`. |
| `Conversion.AbortedSticks` | nfa2regex.go:290-294 | Once the observer has failed, the nodes that follow do not change the outcome. |
| `Conversion.SilentNeverAborts` | nfa2regex.go:197-199 | With the default observer, the elimination pass always runs to the end. |
| `Conversion.FinishNoPath` | nfa2regex.go:298-310 | Once only the synthetic nodes are left, the no-path error is reported exactly when no arc is left. Otherwise the result is `orJoin` of all remaining labels. |
| `Conversion.EliminationSetup` | nfa2regex.go:253-255 | With an initial node present, the normalised automaton has more than two nodes, and one completed pass leaves exactly two, so the outer loop runs once. |
| `Conversion.EliminationOutcome` | nfa2regex.go:253-310 | Whatever the observer answers, the pass either ends with only the two flagged synthetic nodes and arcs between them, or aborts at the removal of a user node. |
| `Conversion.ConversionOutcome` | nfa2regex.go:196-311 | The error contract, case by case. `Ok(s)` needs an initial and a terminal node and a non-empty set of initial-to-terminal arcs, and `s` is their alternation. No path means nothing was left. A missing initial node is reported before a missing terminal node. A callback failure names `start`, `create-initial-terminal` or the removal of a user node. |
| `Conversion.SilentConversion` | nfa2regex.go:190-199 | Without an observer, no callback error is ever reported. |
| `Conversion.LegacySetup` | main.go:194-196 | In the error-free variant, the loop does not run when only the synthetic nodes exist, and otherwise one pass leaves two nodes. |
| `Conversion.LegacyAgreement` | main.go:163-240 | The older variant returns the library's expression when the library succeeds, and `""` on every error the library reports (no initial node, no terminal node, no path). `""` can also be a successful result, so it does not by itself signal an error. |
| `Automaton.Node.constructor` | nfa2regex.go:33-37 | A node record with the given name and flags. |
| `Automaton.Rewire` | nfa2regex.go:57-70 | An edge with each endpoint equal to the old record replaced by the new one. The label and the other endpoint are kept. |
| `Automaton.FilterByName` | nfa2regex.go:92-113 | For a consistent automaton, comparing edge endpoints with the registered record gives the same in/out/avoiding filters as comparing names. An absent name gives no in/out edges. |
| `Automaton.NFA.constructor` | nfa2regex.go:175-180 | A new automaton with no nodes and no edges. |
| `Automaton.NFA.GetOrCreateNode` | nfa2regex.go:116-127 | Returns the registered record, or registers and returns a fresh unflagged one. Edges are unchanged. |
| `Automaton.NFA.AddEdge` | nfa2regex.go:40-48 | The edge list becomes the old list plus one edge between the records now registered under the two names. Every other name keeps its record; an endpoint name that was registered keeps its record, and a new one gets a fresh record. The value view is `AddArc`. |
| `Automaton.NFA.ReplaceNode` | nfa2regex.go:52-74 | Registers `newNode` under `name`. The edge list keeps its length, order and labels. Each edge becomes `Rewire(old edge, old record, newNode)`, a new value, and no edge record is written. The value view is `SetFlags`. |
| `Automaton.NFA.RewiredEdges` | nfa2regex.go:53-72 | The rewiring loop, proved position by position. |
| `Automaton.NFA.RemoveNode` | nfa2regex.go:77-88 | Deletes the key. The edges become exactly those not incident to the old record, in order. The value view is `Graph.RemoveNode`. |
| `Automaton.NFA.EdgesAvoiding` | nfa2regex.go:80-87 | The filter loop of `RemoveNode` returns `Avoiding(edges, node)`. |
| `Automaton.NFA.EdgesIn` | nfa2regex.go:92-101 | The edges into `name`, in edge-list order, which by name are `Into(arcs, name)`. |
| `Automaton.NFA.EdgesOut` | nfa2regex.go:104-113 | The edges out of `name`, in edge-list order, which by name are `OutOf(arcs, name)`. |
| `Automaton.NFA.ShallowCopy` | nfa2regex.go:130-140 | A fresh automaton holding the same records in a new map and a new edge list, with the same value view. |
| `Automaton.NFA.InitialNodes` | nfa2regex.go:144-149 | The active records are exactly the initial ones. |
| `Automaton.NFA.FollowEdges` | nfa2regex.go:154-159 | Adds the targets of the edges out of one active node that are labelled exactly `ch`. |
| `Automaton.NFA.StepNodes` | nfa2regex.go:151-163 | One character moves the active set to `Step(Abs(), active, ch)`. |
| `Automaton.NFA.AnyTerminal` | nfa2regex.go:165-171 | True exactly when some active node is terminal. |
| `Automaton.NFA.Match` | nfa2regex.go:143-172 | The answer is `Accepts(Abs(), input)`. |
| `Automaton.NFA.AddEpsilonEdge` | nfa2regex.go:219-225 | An epsilon edge, then the named node replaced by a fresh unflagged record. |
| `Automaton.NFA.NormalizeNode` | nfa2regex.go:217-235 | One normalisation iteration is `NormStep`. It reports the flags the node had on entry. |
| `Automaton.NFA.AddSyntheticEdges` | nfa2regex.go:215-236 | The normalisation loop is `Normalize` over `normOrder`. The two flags it reports are `HasInitial`/`HasTerminal` of the input. |
| `Automaton.NFA.FlagSynthetic` | nfa2regex.go:237-238 | Writes the flags of the two synthetic records in place (`MarkSynthetic`). |
| `Automaton.NFA.Normalise` | nfa2regex.go:212-238 | The working copy becomes `Normalized(g, normOrder)`, with the synthetic records registered. |
| `Automaton.NFA.LoopLabelOf` | nfa2regex.go:262-270 | The loop label is `LoopLabel` of the in-edges: the self-loop labels alternated, then starred, unwrapped when there is more than one loop. |
| `Automaton.NFA.AddFanEdge` | nfa2regex.go:276-284 | Adds the bypass edge of one in-edge and one out-edge, unless the out-edge is a self-loop. |
| `Automaton.NFA.AddFanEdges` | nfa2regex.go:275-285 | Adds the bypass edges of one in-edge (`Fan`). |
| `Automaton.NFA.AddBypassEdge` | nfa2regex.go:272-285 | Adds nothing for a self-loop in-edge, and `Fan` otherwise. |
| `Automaton.NFA.AddBypassEdges` | nfa2regex.go:271-286 | Adds the bypass edges of all in-edges (`Bypass`). |
| `Automaton.BypassKeepsOutOf` | nfa2regex.go:275 | Bypass edges never leave the node, so the out-edges read inside the loop are the ones read before it. |
| `Automaton.NFA.EliminateNode` | nfa2regex.go:260-288 | Eliminating one node is `Eliminate` on the value view, and the key is removed. |
| `Automaton.NFA.VisitNode` | nfa2regex.go:256-294 | Skips the synthetic records. Any other node is eliminated and the observer is asked with `remove-node-<name>`. |
| `Automaton.NFA.PassOne` | nfa2regex.go:255-295 | One iteration of the pass takes `EliminateAll` one node further, or aborts with that node's step. |
| `Automaton.NFA.EliminationPass` | nfa2regex.go:255-295 | One pass over `elimOrder` is `EliminateAll`. It returns the observer's error at the first failure. |
| `Automaton.NFA.EliminateOrdinary` | nfa2regex.go:253-296 | The outer `len > 2` loop ends after one pass, with the result of `EliminateAll`. |
| `Automaton.NFA.FinalRegex` | nfa2regex.go:298-310 | The result is `Finish(Abs())`: the no-path error unless some edge runs from an initial node to a terminal node, and `orJoin` of every label otherwise. |
| `Automaton.NFA.EliminateAndFinish` | nfa2regex.go:253-310 | Elimination and the final step give `Eliminated(h, elimOrder, callback)`. |
| `Automaton.NFA.Convert` | nfa2regex.go:207-310 | On the working copy, the conversion equals `ToRegexSpec`, including every error and its order. |
| `Automaton.CallbackOf` | nfa2regex.go:197-199 | With no callback configured, the observer never fails. |
| `Automaton.ToRegexWithConfig` | nfa2regex.go:196-311 | A nil automaton gives `NFA must be non-nil` before any callback. Otherwise the result is `ToRegexSpec` of the caller's automaton. With no `modifies` clause, the caller's automaton is not changed. |
| `Automaton.ToRegex` | nfa2regex.go:190-192 | The default-configuration conversion, which never reports a callback error. |
| `Legacy.Edge.constructor` | main.go:21-25 | An edge record with the given endpoints and label. |
| `Legacy.RewireRecords` | main.go:47-54 | Overwrites, in place, every endpoint field equal to the old record with the new one. |
| `Legacy.NFA.constructor` | main.go:122-128 | A new, empty automaton. |
| `Legacy.NFA.GetOrCreateNode` | main.go:95-107 | Returns the registered record, or registers and returns a fresh unflagged one. |
| `Legacy.NFA.AppendEdge` | main.go:37-41 | Appends one fresh edge record and leaves the old records in place. |
| `Legacy.NFA.AddEdge` | main.go:33-42 | `AddArc` on the value view, with one fresh record appended at the end. |
| `Legacy.NFA.GetOrCreateEnds` | main.go:35-36 | Both endpoint names end up registered to the returned records; the value view gains whichever of the two was missing, source first; the edge list is untouched. |
| `Legacy.NFA.ReplaceNode` | main.go:44-55 | Registers `newNode`. The edge list, the same records, keeps its order. Each record's endpoint fields that held the old record now hold `newNode`. The value view is `SetFlags`. |
| `Legacy.NFA.Register` | main.go:45-46 | The map entry for `name` becomes `newNode`; the flag view changes at `name` only. |
| `Legacy.NFA.RewiredValid` | main.go:47-54 | Edge records rewired from the old record to `newNode` keep their names and still join registered records. |
| `Legacy.NFA.RemoveNode` | main.go:57-69 | Deletes the key and keeps exactly the non-incident edge records, in order. |
| `Legacy.NFA.Unregister` | main.go:58-69 | The key is gone from the map and the flag view, and the filtered list replaces the old one unchanged. |
| `Legacy.NFA.EdgesAvoiding` | main.go:61-68 | The filter loop of `removeNode`. |
| `Legacy.NFA.EdgesIn` | main.go:71-81 | The edge records into `name`, in order. |
| `Legacy.NFA.EdgesOut` | main.go:83-93 | The edge records out of `name`, in order. |
| `Legacy.NFA.ShallowCopy` | main.go:109-120 | A fresh automaton with a new map and list holding the same node and edge records. |
| `Legacy.NFA.CreateSynthetic` | main.go:169-170 | Registers the two synthetic records (`Prepare`) and keeps every existing map entry. |
| `Legacy.NFA.Unflag` | main.go:174-178 | Registers a fresh unflagged record under `name`, which rewrites the shared edge records. |
| `Legacy.NFA.AddEpsilonEdge` | main.go:173-178 | An epsilon edge record, then the named node replaced by a fresh unflagged record. |
| `Legacy.NFA.EpsilonIf` | main.go:172-186 | Does that when the flag tested is set, and nothing otherwise. |
| `Legacy.NFA.NormalizeNode` | main.go:171-187 | One normalisation iteration is `NormStep`. |
| `Legacy.NFA.NormalizeAt` | main.go:171-188 | The loop body at position `i` takes `Normalize` one node further. A name unflagged in `g` keeps its record (`Keeps`). |
| `Legacy.NFA.AddSyntheticEdges` | main.go:171-188 | The normalisation loop is `Normalize` over `normOrder`. The caller's records keep their place at the front of the list, and every name unflagged in `g` keeps its record. |
| `Legacy.NFA.FlagSynthetic` | main.go:189-190 | Flags the synthetic records in place. |
| `Legacy.NFA.Normalise` | main.go:168-190 | The working copy becomes `Normalized(g, normOrder)`. Only flagged names get new records. |
| `Legacy.NFA.PrefixUnflagged` | main.go:171-188 | After normalisation, the caller's edge records carry the caller's arcs by name, and every endpoint of them is an unflagged record. |
| `Legacy.NFA.LoopLabelOf` | main.go:203-211 | The loop label is `LoopLabel` of the in-edges. |
| `Legacy.NFA.AddFanEdge` | main.go:217-225 | One bypass edge, unless the out-edge is a self-loop. |
| `Legacy.NFA.AddFanEdges` | main.go:216-226 | The bypass edges of one in-edge (`Fan`). |
| `Legacy.NFA.AddFanAt` | main.go:216-225 | Handling one more out-edge extends the `Fan` prefix by exactly that edge's bypass arc. |
| `Legacy.NFA.AddBypassEdge` | main.go:212-226 | Nothing for a self-loop in-edge, and `Fan` otherwise. |
| `Legacy.NFA.AddBypassEdges` | main.go:212-227 | The bypass edges of all in-edges (`Bypass`). |
| `Legacy.NFA.AddBypassAt` | main.go:212-226 | Handling one more in-edge extends the `Bypass` prefix by exactly that edge's arcs. |
| `Legacy.NFA.AddBypassFor` | main.go:201-227 | For one node, the bypass arcs of all its in-edges across all its out-edges, through the starred loop label, are appended; the map is untouched. |
| `Legacy.NFA.RegisteredMembers` | main.go:204 | Edge records taken from the list join registered nodes. |
| `Legacy.NFA.EliminateNode` | main.go:201-229 | Eliminating one node is `Eliminate` on the value view. |
| `Legacy.NFA.VisitNode` | main.go:196-230 | Skips the synthetic records and eliminates any other node. |
| `Legacy.NFA.PassOne` | main.go:196-231 | One iteration takes `EliminateAll` one node further. |
| `Legacy.NFA.EliminationPass` | main.go:196-231 | One pass is `EliminateAll` with the silent observer. |
| `Legacy.NFA.EliminateOrdinary` | main.go:195-232 | The outer loop ends with the result of `EliminateAll`. |
| `Legacy.NFA.FinalRegex` | main.go:234-239 | `orJoin` of every remaining label, with no error path. |
| `Legacy.NFA.EliminateAndFinish` | main.go:194-239 | Elimination and the final step give `LegacyRegexSpec`. |
| `Legacy.NFA.FlagTouchedBroken` | main.go:163-188 | If every edge record points at unflagged records while some arc touches a flagged node, the automaton no longer holds together. |
| `Legacy.NormalisedCopy` | main.go:164-190 | A fresh copy whose value view is `Normalized` of the caller's, with the synthetic records registered. The caller keeps its map, list and value view, and its edge records now point at unflagged records. Position by position (`Repointed`), an endpoint that was unflagged is the same record, and one that was flagged is now a record the caller's map does not hold. |
| `Legacy.NormaliseShared` | main.go:168-190 | Normalising a copy that shares the caller's records makes the copy `Normalized`. The caller keeps its map, list and value view, and its endpoints are re-pointed as `Repointed` says. |
| `Legacy.CallerAfterNormalise` | main.go:171-188 | Once the copy is normalised, the caller's records carry the same names, every endpoint is unflagged, and `Repointed` holds against the snapshot taken before. |
| `Legacy.EndpointKept` | main.go:45-53 | The copy re-registers only flagged names. So an endpoint registered in the copy under the name of an unflagged caller record is that record, and under a flagged one it is no record of the caller's map. |
| `Legacy.NFA2Regex` | main.go:163-240 | The result is `LegacyRegexSpec` of the caller's automaton. The caller keeps its map, its list and its value view. Its edge records, however, now all point at unflagged records. An endpoint that was unflagged keeps its record, and one that was flagged now points at a record outside the caller's map (`Repointed`). So a caller with an edge touching a flagged node no longer holds together. |
| `Legacy.NFA.AddEdgePair` | main.go:322-323 | Two edges out of one source, in order. |
| `Legacy.NFA.MarkInitial` | main.go:327 | Flags the record initial in place (`WithInitial`). |
| `Legacy.NFA.MarkTerminal` | main.go:328 | Flags the record terminal in place (`WithTerminal`). |
| `Legacy.NFA.AddRound` | main.go:321-324 | One round of the construction loop is `MultiplesLoop(n, i + 1)`. |
| `Legacy.RemainderEdges` | main.go:320-324 | The construction loop builds `MultiplesLoop(n, n)`, or nothing for `n <= 0`. |
| `Legacy.MakeNFAMultiplesOfN` | main.go:318-330 | The automaton built is `MultiplesOfN(n)`. |
| `Multiples.Itoa` | main.go:319 | The decimal numeral of a natural number is non-empty. |
| `Multiples.ItoaValue` | main.go:319 | Reading the numeral back gives the number. |
| `Multiples.ItoaInjective` | main.go:319 | Distinct remainders get distinct node names. |
| `Multiples.ItoaNotStart` | main.go:319-325 | No numeral is `"start"`. |
| `Multiples.LoopShape` | main.go:321-324 | The loop adds exactly two edges per remainder, `i→(2i)%n:"0"` and `i→(2i+1)%n:"1"`, and flags nothing. |
| `Multiples.MultiplesShape` | main.go:318-330 | The automaton has 2n+2 edges (2 when `n <= 0`). `"start"` is its only initial node and `"0"` its only terminal node. |
| `Multiples.AsWrittenFromTwo` | main.go:325-326 | For `n >= 2` the construction equals the corrected one. |
| `Multiples.CorrectedAccepts` | main.go:317-330 | The corrected automaton accepts exactly the non-empty binary numerals whose value is a multiple of `n`. |
| `Multiples.MultiplesAccepts` | main.go:317-330 | For `n >= 2` the automaton as written accepts exactly those numerals. |
| `Multiples.OneRejectsOne` | main.go:326 | For `n = 1` the automaton as written rejects `"1"`, although 1 is a multiple of 1. |

## Findings

| source | as written | input that shows it | evidently intended | confidence | as-written member | corrected member |
|---|---|---|---|---|---|---|
| main.go:44-55 | `shallowCopy` (main.go:110-120) shares the edge records, and `replaceNode` overwrites their endpoint fields. So `NFA2Regex` re-points the caller's edges at the copy's new unflagged records, while the caller's map still holds the flagged ones. | edges `1→2:"a"`, node 1 initial and node 2 terminal: after `NFA2Regex`, the caller's edge no longer points at the records its map holds | the caller's automaton is left untouched, as the library's `ReplaceNode` (nfa2regex.go:50-74) does by building new edge values | high (not executed) | `Legacy.NFA2Regex` | `Automaton.ToRegexWithConfig` |
| main.go:326 | the edge for a leading `1` goes to the node named `"1"` | `MakeNFAMultiplesOfN(1)` on `"1"`: node `"1"` is never created by the loop, has no out-edges and is not terminal, so `"1"` is rejected | the edge goes to the node for remainder `1 % n` | medium (not executed) | `Multiples.OneRejectsOne` | `Multiples.CorrectedAccepts` |
| nfa2regex.go:270 | the grouping flag of `addKleenStar` is `len(kleenStarValues) > 1` (the same in main.go:211), which counts the empty self-loop labels that `orJoin` drops | a node with self-loops labelled `ab` and `""`: the alternation is `ab`, the flag is set, so the loop label is `ab*`, which repeats only `b` | the flag counts the non-empty labels, giving `(ab)*` | medium (not executed) | `Graph.LoopLabelUngrouped` | `Graph.GroupedLoopLabelStarsAll` |

## Left out

- Rendering is not modelled: `ToDot`, `ToSVG`, `ToASCII`, `StepCallbackWriteSVGs` and `NFA2Dot`. They depend on Go `%q` quoting and map order, spawn `dot`/`graph-easy`, or create files.
- `debugShowStep` and its process-wide state (`DEBUG_SHOW_STEPS`, `_svgTempDir`, `_svgCounter`) are not modelled. The legacy conversion behaves as if the debug switch is off.
- The `main` functions, `MakeNFASimple` and `MakeNFAManyMany` of main.go, and `cmd/nfa2regex/cmd.go` are command-line demos, so they are not modelled. The many-initial/many-terminal automaton of the test file appears as the value `Simulation.ManyMany`.
- Map iteration order is not fixed by the model. The normalisation and elimination loops visit the nodes in orders given as parameters, so nothing is proved about which order Go would pick.
- The step callback is modelled as a total function from a snapshot (the automaton seen by names) and a checkpoint name to `Continue` or `Fail(cause)`. A callback that mutates the working copy it is handed, or that panics, is not modelled.
- Error values are modelled as a datatype. `Conversion.Message` gives their texts, with the step name quoted by plain `"` marks: Go's `%q` escaping and `%w` wrapping are not modelled.
- Strings are sequences of characters. `addKleenStar` measures its operand in bytes and `Match` reads runes; the two agree only for ASCII labels and input, which the model assumes.
- User node names must not be `__initial__` or `__terminal__` (`Conversion.UserNfa`). Otherwise `GetOrCreateNode` would reuse a user node as a synthetic one, and that case is not modelled.
- The callers of the conversions must pass a consistent automaton (`Valid()`: every node registered under its own name, every edge joining registered records), and both `ReplaceNode` methods require `newNode` to carry the name it is registered under. These are modelling assumptions. Every call site inside the source meets them (nfa2regex.go:221,230; main.go:174,182). The exported `Nodes` and `Edges` fields of the Go `NFA` let a caller build an automaton that breaks them, such as a record under another name, an edge to an unregistered record, or a nil or misnamed `newNode`. Such automata are not modelled.
- `Legacy.NFA2Regex` requires a non-nil automaton. The Go function would dereference nil and panic, and that case is not modelled.
- The variadic `noWrap ...bool` of `addKleenStar` is a single `bool`. Arguments after the first, which the source ignores, are not modelled.
- Language equivalence between the produced expression and the automaton is not proved, because it would need a semantics of regular expressions (the source checks it with Go's RE2 engine). The model proves the structural properties instead: the bypass rule, the shape after normalisation and elimination, the final alternation and the error contract.
- The concrete outputs of the two demo automata (`a*bc*d(e|xa*bc*d)*`, and the four alternatives for the many-to-many automaton) are not computed. They depend on the map order; the single-elimination example `"ax*b"` is covered by `Graph.EliminateExample`.
- The conversions keep the loop label as written (`Graph.LoopLabel`), because they model the source. The grouped label of the finding on nfa2regex.go:270 is a separate definition, `Graph.GroupedLoopLabel`, and it agrees with `LoopLabel` whenever no self-loop label is empty (`Graph.GroupedLoopLabelAgrees`).
