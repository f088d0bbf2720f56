# Verified models of four Petri net analyses

This project models four algorithms of the service-technology tools and proves what they
are meant to establish.

* **BSD and CSD automata** (`bsd`). A subset construction over a graph of inner markings.
  The tau-closures are computed by a recursive search for strongly connected components
  that gives up on markings that break a bound. Every node carries a value lambda, derived
  from its bottom components. The CSD step then propagates the node U backwards, with one
  counter per node. Files: `Markings`, `Reachability`, `Sets`, `Lists`, `Components` (the search on
  values), `TauClosure`, `Merging`, `Lambda`, `Language` (words and runs), `Counting`,
  `Automaton` (the node structure on values), `Bsd`, `Attractor`, `Csd`.
* **Siphon and trap formulas** (`anastasia`). Net properties are compiled to clauses for a
  SAT solver, and a solution is minimized or maximized incrementally. Files: `PetriNet`,
  `Cnf`, `Encoders`, `MaxTrap`, `Optima`, `PlaceComponents`, `Formula`, `Definitions`,
  `SiphonTrap`.
* **Emptying a siphon** (`anastasia`). A cycle-free allocation tells which transition to
  fire instead of an enabled one, until the siphon's transitions are dead. Files:
  `Allocation`, `InitialSiphon`, `Witness`.
* **Non-interference** (`anica`). A gadget added to a net reduces a statement about runs to
  the reachability of one marked place; a characterization of all secure labellings must
  agree with the direct check. Files: `Gadget`, `TaskNet`, `NonInterference`,
  `ActivePlaces`, `Anica`.

The classes `TauClosure`, `BSD`, `CSD`, `Tarjan`, `Formula`, `WNode`, `Witness`, `TaskNet`
and `AnicaLib` carry the fields that the sources update in place. Their methods are proved
against functions and predicates on values, and the properties of those are proved as
lemmas.

## How the sources are read

* Markings, places and transitions are numbers. Where a source iterates over a set or a map
  of pointers, the model iterates in the order of these numbers. No proved statement depends on
  this order, although the choices made do, such as which transition is allocated.
* Label 0 is tau and label 1 the broken bound; receiving and sending labels are two ranges
  above, as in the label macros.
* The SAT solver, the model checker LoLA and the BDD package are parameters: an exact
  solver, an exit code that is correct whenever it is 0 or 1, and predicates on choices.
* Clauses have no terminating 0. Machine integers are unbounded.
* The two methods for causal and conflict places (`isActiveCausalPlace`,
  `isActiveConflictPlace`) are one method with a parameter for the kind, and so are the
  encoders for siphons and traps underneath their entry points.
* Loops whose body is large are split into one method per step.

## Where the code differs from its documentation

* `anastasia/src/tarjan.cc:86-93` says that single places without a self-loop are
  disregarded. The code lists them (`SingletonsAreListed`, `BothSingletonsListed`); the comment
  is right exactly for the graphs named by `OnlyCyclesListed`.
* `oneTripleOnly` is documented as "stop after the first active triple"
  (`anica/src/AnicaLib.h`). The code stops early when the flag is off and counts all the
  triples when it is on. `IsActivePlace` follows the code, and `IsSecure` shows that it does
  not matter for the verdict.
* The conflict loop of the characterization does not look at the label of the low
  transition. This is harmless (`CharacterizationExact`).
* The search for a label stops at the first matching edge. `FirstMatchExact` says exactly
  for which marking graphs nothing is overlooked, and `NondeterminismMissed` shows a graph
  where something is.
* The gadgets' arcs always have weight 1. `CopiesExact` says exactly when the copies behave like
  the originals, `PatternExact` needs no more than that, and `WeightsOverlooked` shows what can
  happen otherwise.
* The check before the witness search (`anastasia/src/main.cc:613`) compares presets as sets of
  places. `ReplaceableExact` says exactly when enabled transitions can be replaced in all
  markings: when the weights agree as well. `WeightsMatter` shows a net that passes the check and
  whose allocated transition is not enabled.
* `initSWOMT` speaks of a non-empty siphon. The formula does not demand it, and
  `InitSWOMT` accepts the empty set as the code does.

## Model

| member | source | states |
|---|---|---|
| `Automata.AutomatonLanguage` | bsd/src/BSD.cc:91-201 | for every word of visible labels, following the successors from the first node ends at U exactly if some prefix weakly reaches a bad marking, otherwise at the empty node exactly if no marking is weakly reached, otherwise at the node that lists exactly the markings weakly reached |
| `Automata.GraphLanguage` | bsd/src/BSD.cc:91-201 | the same for the language of the marking graph itself, all its edges counted, when no marking has two different successors for one visible label |
| `Bsd.BSD.ComputeBSD` | bsd/src/BSD.cc:91-146 | terminates; U alone if the initial closure is bad, otherwise the inner nodes followed by U and the empty node; the result is a BSD automaton of the marking graph in the sense of `IsBSD`, with at most 2^n inner nodes; with the OG flag every inner node holds the components of its markings, without it none |
| `Bsd.StoredValues` | bsd/src/BSD.cc:89-117 | in every BSD automaton only U is marked as U, U carries 0, the empty node 4 and every other node the value of its set of markings |
| `Bsd.BSD.CreateEnds` | bsd/src/BSD.cc:97-115 | fresh U and empty node whose successors are loops for every visible label, with lambda 0 and 4, and no predecessors |
| `Bsd.BSD.ComputeSuccessor` | bsd/src/BSD.cc:158-201 | records exactly one new successor, the one of the subset construction, together with exactly one predecessor entry; every other node keeps its successors and every node its marking list; new nodes have no edges yet |
| `Bsd.BSD.FindTarget` | bsd/src/BSD.cc:160-198 | the target of the label: U if the bound is broken, the empty node if there is no step, otherwise the node of the markings reached |
| `Bsd.BSD.StepComponents` | bsd/src/BSD.cc:160-187 | NULL exactly if some target of the label can silently reach a bad marking; otherwise the components of the union of all the targets' tau-closures, listed once each |
| `Bsd.BSD.FindLabel` | bsd/src/BSD.cc:165-186 | the successor along the first edge that carries the label |
| `Bsd.BSD.Connect` | bsd/src/BSD.cc:173-200 | the edge is recorded in the successor map and once in the predecessor list, and the whole structure is kept |
| `Markings.LabelRanges` | bsd/src/Label.cc:59-107 | the visible labels are the numbers from 2 on, one for each event: the receiving ones first, then the sending ones, and no label is both |
| `Bsd.BSD.Setup` | bsd/src/BSD.cc:213-260 | returns a node whose set of markings is the given one; an existing node if there is one, otherwise a new node appended at the back |
| `Bsd.BSD.FindNode` | bsd/src/BSD.cc:226-236 | finds a node with the same marking list exactly if the graph holds one |
| `Bsd.BSD.MakeNode` | bsd/src/BSD.cc:241-257 | a new node with an ascending duplicate-free list, the lambda value of its set of markings, and its components if the OG flag is set |
| `Bsd.BSD.Worklist` | bsd/src/BSD.cc:133-141 | terminates with every node of the graph having a successor for every visible label, the nodes in the order of their creation |
| `Bsd.BSD.ExpandNode` | bsd/src/BSD.cc:136-139 | gives one node all its successors and leaves those of the older nodes alone |
| `Bsd.NodeBound` | bsd/src/BSD.cc:213-260 | a duplicate-free structure over n markings has at most 2^n inner nodes |
| `Automata.NodesDiffer` | bsd/src/BSD.cc:213-260 | two different inner nodes never hold the same set of markings |
| `Automata.AddNodeOK` | bsd/src/BSD.cc:241-257 | appending a node with a new marking list keeps all structural invariants |
| `Automata.AddEdgeOK` | bsd/src/BSD.cc:189-200 | recording an edge on both sides keeps all structural invariants, in particular each edge occurs exactly once in a predecessor list |
| `Bsd.FlattenCorrect` | bsd/src/BSD.cc:213-218 | concatenating the component lists gives every marking of the closure exactly once |
| `Lists.SortCorrect` | bsd/src/BSD.cc:218 | sorting a duplicate-free list gives the strictly ascending list of the same elements |
| `Lists.AscendingUnique` | bsd/src/BSD.cc:218-232 | strictly ascending lists with the same elements are equal, so the sorted list is a canonical name of the set |
| `Language.LocateCorrect` | bsd/src/BSD.cc:158-201 | the subset construction, one step at a time, computes the weakly reachable markings of every word, or detects the broken bound or the empty set |
| `Language.WeakSetExact` | bsd/src/BSD.cc:158-201 | stepping to the targets and closing under tau yields exactly the markings that some run with this visible word reaches |
| `Language.FirstMatchExact` | bsd/src/BSD.cc:165-186 | stopping at the first edge with a visible label sees every step with such a label exactly if no marking has two edges with the same visible label to different successors |
| `Language.DeterministicReaches` | bsd/src/BSD.cc:165-186 | for such graphs weak reachability does not change if all edges count instead of the first ones |
| `Language.NondeterminismMissed` | bsd/src/BSD.cc:165-186 | a concrete graph with two equally labelled edges in which a reachable marking is overlooked |
| `TauClosures.TauClosure.ComputeClosureTarjan` | bsd/src/BSD.cc:270-287 | from a fresh state: NULL exactly if a bad marking is tau-reachable; otherwise sorted lists that are exactly the strongly connected components of the tau-reachable markings, disjoint, covering, each listed after the components reachable from it |
| `TauClosures.TauClosure.TarjanClosure` | bsd/src/BSD.cc:297-374 | the recursive search: NULL only if a bad marking is reachable, otherwise the new lists, the depth-first numbers, the low links and the stack satisfy the search invariant after the visit |
| `TauClosures.TauClosure.PopComponent` | bsd/src/BSD.cc:358-371 | pops exactly the markings above the root and returns them as a strictly ascending list |
| `TauClosures.TauClosure.Visited` | bsd/src/BSD.cc:326-333 | the linear search finds a marking exactly if it was visited |
| `TauClosures.ReachedComponentsFirst` | bsd/src/BSD.cc:270-374 | in a listed decomposition, everything reachable from a component lies in it or in components listed before it |
| `Components.Enter` | bsd/src/BSD.cc:300-306 | pushing a fresh vertex with the next number keeps the search invariant |
| `Components.AfterChild` | bsd/src/BSD.cc:335-347 | taking the minimum with the low link of a finished child keeps the scan invariant |
| `Components.SeenOnStack` | bsd/src/BSD.cc:348-353 | taking the minimum with the number of a neighbour on the stack keeps the scan invariant |
| `Components.SeenDone` | bsd/src/BSD.cc:348-353 | a visited neighbour that has left the stack can be ignored |
| `Components.FinishPop` | bsd/src/BSD.cc:357-371 | if low link and number agree, what is popped is a whole strongly connected component and the invariant is kept |
| `Components.FinishKeep` | bsd/src/BSD.cc:357-373 | if they differ, the vertex can still reach an older vertex on the stack and stays there |
| `Components.SearchOver` | bsd/src/BSD.cc:270-287 | when the stack is empty again the listed components decompose what the root reaches |
| `Merging.CheckEquality` | bsd/src/BSD.cc:421-437 | element-wise comparison of lists of the same length decides equality |
| `Merging.MergeSCCsWithoutDuplicates` | bsd/src/BSD.cc:383-410 | appends, in their order, exactly those lists that the first argument does not hold |
| `Merging.ComponentsEqualOrDisjoint` | bsd/src/BSD.cc:383-410 | components from different closures are equal or disjoint |
| `Merging.MergeDecompositions` | bsd/src/BSD.cc:383-410 | merging the decompositions of two closures by list equality gives a duplicate-free decomposition of their union |
| `Counting.FamilyBound` | bsd/src/BSD.cc:131-141 | a family of subsets of {0, .., n-1} has at most 2^n members |
| `Counting.ListsBound` | bsd/src/BSD.cc:131-141 | pairwise different ascending lists over n markings number at most 2^n |
| `Lambdas.AssignLambda` | bsd/src/BSD.cc:446-508 | the scan returns 1 exactly if some marking silently reaches only non-final markings without receiving labels, otherwise 2 exactly if some marking silently reaches only markings without receiving labels, otherwise 3 |
| `Lambdas.LambdaRules` | bsd/src/BSD.cc:446-508 | the value in terms of label numbers and final markings: 1 exactly if some marking silently reaches only non-final markings without an outgoing label in 2 .. 1 + receives, 3 exactly if every marking silently reaches one with such a label |
| `Lambdas.FindOutLabel` | bsd/src/BSD.cc:462-490 | whether a receiving label or a tau step leads out of the component, over all its markings and edges |
| `Lambdas.FindFinal` | bsd/src/BSD.cc:495-501 | whether the component holds a final marking |
| `Lambdas.BottomExists` | bsd/src/BSD.cc:446-508 | from every marking of a finite closed set a bottom component can be reached |
| `Lambdas.ScanResult` | bsd/src/BSD.cc:461-507 | the verdict over components equals the verdict over single markings |
| `Bsd.BSD.BuildInner` | bsd/src/BSD.cc:128-141 | starting from the initial closure, builds all inner nodes, complete and without twins |
| `Csd.CSD.ComputeCSD` | bsd/src/CSD.cc:52-56 | afterwards isU holds exactly for the nodes of the attractor of U |
| `Csd.CSD.RecursiveCSD` | bsd/src/CSD.cc:58-83 | the recursion keeps the search invariant for every half processed predecessor list, and the node it starts from is visited |
| `Csd.CSD.HandleEntry` | bsd/src/CSD.cc:64-81 | one entry of a predecessor list, including a nested recursion, keeps the invariant |
| `Csd.CSD.Account` | bsd/src/CSD.cc:66-77 | counts a sending edge of a node with lambda 1, or marks the predecessor along a receiving edge; says whether to recurse |
| `Attractors.AttractorClosed` | bsd/src/CSD.cc:58-83 | the attractor contains U and is closed: a node with a receiving edge into it belongs to it, and so does a node with lambda 1 all of whose sending edges lead into it |
| `Attractors.AttractorLeast` | bsd/src/CSD.cc:58-83 | every set with these closure properties contains the attractor |
| `Attractors.AttrClosedRules` | bsd/src/CSD.cc:64-78 | closed means, in terms of the labels alone: U, every node with a receiving edge into the set, and every node with lambda 1 and at least one sending event all of whose sending edges lead into the set |
| `Attractors.HandleOK` | bsd/src/CSD.cc:64-81 | one entry keeps the counters equal to the number of handled sending edges into visited nodes |
| `Attractors.SearchClosed` | bsd/src/CSD.cc:58-83 | when every visited list is processed, the marked nodes together with U form a closed set |
| `Attractors.SearchExact` | bsd/src/CSD.cc:58-83 | then the marked nodes are exactly the attractor |
| `Attractors.SendingCount` | bsd/src/CSD.cc:66-72 | a set of counted sending labels is as large as the number of sending events only if it holds all of them |
| `PlaceComponents.ComponentsOf` | anastasia/src/tarjan.cc:94-169 | building the graph and searching it returns a partition, into the strongly connected components of the place-to-place graph, of exactly the places that occur on some arc |
| `PlaceComponents.SingletonsAreListed` | anastasia/src/tarjan.cc:86-122 | a place is listed as a component of its own exactly if it occurs on an arc and on no cycle through other places |
| `PlaceComponents.OnlyCyclesListed` | anastasia/src/tarjan.cc:86-122 | the result is as the comment describes it, every component having several places or a self-loop, exactly if every place on an arc lies on a cycle |
| `PlaceComponents.BothSingletonsListed` | anastasia/src/tarjan.cc:86-122 | a net with one transition between two places, of which both are listed although neither lies on a cycle |
| `PlaceComponents.Tarjan.AddArc` | anastasia/src/tarjan.cc:147-153 | adds one successor and marks both places as part of the graph; false for a missing place |
| `PlaceComponents.Tarjan.BuildGraph` | anastasia/src/tarjan.cc:157-169 | the graph has an arc from p to q exactly if some transition takes from p and puts on q |
| `PlaceComponents.Tarjan.DoTarjan` | anastasia/src/tarjan.cc:94-122 | one recursive search keeps the search invariant and lists the components it has completed |
| `PlaceComponents.Tarjan.PopComponent` | anastasia/src/tarjan.cc:111-121 | pops exactly the places down to the root |
| `PlaceComponents.Tarjan.GetComponents` | anastasia/src/tarjan.cc:129-140 | lists all the components of the graph's places, each exactly once |
| `Formulas.Formula.constructor` | anastasia/src/formula.cc:24-33 | an empty formula with the first variable 1 |
| `Formulas.Formula.CreateVar` | anastasia/src/formula.cc:57-59 | the new variable lies in no block and differs from every single variable |
| `Formulas.Formula.CreateSetVar` | anastasia/src/formula.cc:105-109 | the new block of one variable for each place overlaps nothing handed out before |
| `Formulas.NewSetVarOK` | anastasia/src/formula.cc:105-109 | a new block keeps the allocation free of overlaps |
| `Formulas.NewVarOK` | anastasia/src/formula.cc:57-59 | a new single variable keeps the allocation free of overlaps |
| `Formulas.Formula.GetVar` | anastasia/src/formula.cc:144-147 | the variable of a place lies in the block of its set variable |
| `Formulas.Formula.GetAssignment` | anastasia/src/formula.cc:154-162 | the places that the last solution puts into the set; none without a solution |
| `Formulas.Formula.Solve` | anastasia/src/formula.cc:175-179 | with an exact solver: a model of the formula, or the knowledge that there is none |
| `Formulas.Formula.SetTo` | anastasia/src/formula.cc:234-239 | appends the unit clause |
| `Formulas.Formula.And` | anastasia/src/formula.cc:263-287 | a fresh variable and the clauses of the conjunction of the non-zero literals |
| `Formulas.Formula.Or` | anastasia/src/formula.cc:305-329 | a fresh variable and the clauses of the disjunction of the non-zero literals |
| `Formulas.Formula.Implies` | anastasia/src/formula.cc:336-359 | a fresh variable and the clauses of the implication |
| `Formulas.Formula.Equals` | anastasia/src/formula.cc:366-391 | a fresh variable and the clauses of the equivalence |
| `Formulas.Formula.Empty` | anastasia/src/formula.cc:398-420 | a fresh variable and the clauses of emptiness; nothing for set variable 0 |
| `Formulas.Formula.Marked` | anastasia/src/formula.cc:454-463 | a fresh variable and the clauses of being marked |
| `Formulas.Formula.Siphon` | anastasia/src/formula.cc:551-605 | a fresh variable, one helper for each transition, and the clauses of the siphon property |
| `Formulas.Formula.Trap` | anastasia/src/formula.cc:637-691 | a fresh variable, one helper for each transition, and the clauses of the trap property |
| `Formulas.Formula.CoverSCC` | anastasia/src/formula.cc:1099-1162 | a fresh variable, one helper for each component, and the clauses of covering; the components are computed once and form the partition |
| `Formulas.Formula.XEmpty` | anastasia/src/formula.cc:425-435 | appends the clauses that force the set to be empty |
| `Formulas.Formula.XNEmpty` | anastasia/src/formula.cc:440-448 | appends the clause that forces the set to be non-empty |
| `Formulas.Formula.XMarked` | anastasia/src/formula.cc:468-478 | appends the clause that forces the set to be marked |
| `Formulas.Formula.XNMarked` | anastasia/src/formula.cc:483-496 | appends the clauses that force the set to be unmarked |
| `Formulas.Formula.XSiphon` | anastasia/src/formula.cc:610-631 | appends the siphon clauses of every transition |
| `Formulas.Formula.XTrap` | anastasia/src/formula.cc:696-717 | appends the trap clauses of every transition |
| `Formulas.Formula.XMaxTrap` | anastasia/src/formula.cc:834-905 | appends the clauses of the n unrolled removal steps, with fresh blocks and helpers; older blocks stay where they are |
| `Formulas.Formula.MinMax` | anastasia/src/formula.cc:914-952 | ends on a model whose set lies inside (outside) the old one, and no model of the original formula that contains pgen has a strictly smaller (larger) set; the accumulated clauses restrict the models to this side of the result |
| `Formulas.Formula.TryPlace` | anastasia/src/formula.cc:926-946 | one round of the loop: afterwards the place is kept for a reason or settled for good, and the bound only moved in the sought direction |
| `Formulas.Formula.Trial` | anastasia/src/formula.cc:932-936 | the trial clauses are removed again, and the answer says whether a model with the place moved (and pgen in the set) exists |
| `Formulas.Formula.PinDifference` | anastasia/src/formula.cc:921-923 | afterwards exactly those models remain that have the given value at every place of the difference |
| `Formulas.Formula.Resolve` | anastasia/src/formula.cc:947-951 | the last solution is recomputed and is the optimal one |
| `Optima.AllSettledOptimal` | anastasia/src/formula.cc:926-946 | if every place is settled, the set is inclusion-minimal (maximal) |
| `Optima.OptimalRules` | anastasia/src/formula.cc:914-952 | a set is optimal exactly if every model whose set contains the demanded place and lies beyond it in the chosen direction has the same set |
| `Optima.SettledMono` | anastasia/src/formula.cc:926-946 | a place once settled stays settled while clauses accumulate |
| `Encoders.Conservative` | anastasia/src/formula.cc:57-109 | clauses that define fresh variables are a conservative extension: every model extends to them, and in only one way |
| `Definitions.ConnectivesDefine` | anastasia/src/formula.cc:263-329 | And and Or define their variable by the conjunction and the disjunction |
| `Definitions.BinaryDefine` | anastasia/src/formula.cc:336-391 | Implies and Equals define their variable by the implication and the equivalence |
| `Definitions.SetConditionsDefine` | anastasia/src/formula.cc:398-463 | Empty and Marked define their variable by the property of the set |
| `Definitions.FlowDefines` | anastasia/src/formula.cc:551-691 | Siphon and Trap define their variable by the property, and each helper by its transition's violation of it |
| `Definitions.CoverDefines` | anastasia/src/formula.cc:1099-1162 | CoverSCC defines its variable by the existence of a covered component, and each helper by its component being covered |
| `Definitions.DefinitionExtends` | anastasia/src/formula.cc:57-109 | every assignment of the old variables has exactly one extension that satisfies defining clauses, and the old formula keeps its value |
| `Definitions.ConnectivesExtend` | anastasia/src/formula.cc:263-329 | this holds for And and Or on every valid formula |
| `Definitions.BinaryExtend` | anastasia/src/formula.cc:336-391 | and for Implies and Equals |
| `Definitions.SetConditionsExtend` | anastasia/src/formula.cc:398-463 | and for Empty and Marked |
| `Definitions.FlowExtend` | anastasia/src/formula.cc:551-691 | and for Siphon and Trap |
| `Definitions.CoverExtend` | anastasia/src/formula.cc:1099-1162 | and for CoverSCC |
| `Encoders.AndCorrect` | anastasia/src/formula.cc:263-287 | the clauses hold exactly if the variable is the conjunction |
| `Encoders.OrCorrect` | anastasia/src/formula.cc:305-329 | the clauses hold exactly if the variable is the disjunction |
| `Encoders.ImpliesCorrect` | anastasia/src/formula.cc:336-359 | the clauses hold exactly if the variable is the implication |
| `Encoders.EqualsCorrect` | anastasia/src/formula.cc:366-391 | the clauses hold exactly if the variable is the equivalence |
| `Encoders.EmptyVarCorrect` | anastasia/src/formula.cc:398-420 | the clauses hold exactly if the variable says that the set is empty |
| `Encoders.MarkedVarCorrect` | anastasia/src/formula.cc:454-463 | the clauses hold exactly if the variable says that the set is marked |
| `Encoders.FlowVarCorrect` | anastasia/src/formula.cc:551-691 | the clauses hold exactly if the variable says that the set is a siphon (trap) and the helpers name the violating transitions |
| `Encoders.CoverCorrect` | anastasia/src/formula.cc:1125-1160 | the clauses hold exactly if the helpers name the covered components and the variable says that there is one |
| `Encoders.SimpleConditions` | anastasia/src/formula.cc:425-496 | XEmpty, XNEmpty, XMarked and XNMarked hold exactly for the empty, non-empty, marked and unmarked sets |
| `Encoders.SiphonTrapCorrect` | anastasia/src/formula.cc:610-717 | XSiphon and XTrap hold exactly for the siphons and the traps |
| `MaxTraps.MaxTrapExact` | anastasia/src/formula.cc:834-905 | values of the two blocks extend to a model of the emitted clauses exactly if the second set is the largest trap inside the first |
| `MaxTraps.ShrunkIsMaximalTrap` | anastasia/src/formula.cc:845-904 | as many removal steps as there are places always reach the fixpoint, and it is the maximal trap |
| `MaxTraps.StepCorrect` | anastasia/src/formula.cc:859-903 | the clauses of one step hold exactly if the new set is the old one without the places that lose a token for good |
| `MaxTraps.MaxTrapSound` | anastasia/src/formula.cc:834-905 | in every model the trap block is the iterated shrinking of the set block |
| `MaxTraps.MaxTrapComplete` | anastasia/src/formula.cc:834-905 | the iterated shrinking extends to a model |
| `SiphonTraps.GenerateFormula` | anastasia/src/main.cc:675-711 | the clauses for the selected options, over the blocks of the set and its maximal trap |
| `SiphonTraps.ModelsAreWanted` | anastasia/src/main.cc:684-702 | in every model the main set is one the options ask for |
| `SiphonTraps.WantedHasModel` | anastasia/src/main.cc:684-702 | every set the options ask for is the main set of some model |
| `SiphonTraps.ModelsByFlags` | anastasia/src/main.cc:675-711 | which sets of places the formula accepts, in terms of the seven flags and the net alone: a model with this set exists exactly under these conditions |
| `SiphonTraps.SingleOptions` | anastasia/src/main.cc:675-711 | the sets that each option alone asks for: traps, unmarked and marked traps, unmarked and marked siphons, siphons without trap and without marked trap |
| `SiphonTraps.UnsatisfiableIffCommoner` | anastasia/src/main.cc:686-702 | the formula "siphon without marked trap" is unsatisfiable exactly if every non-empty siphon contains an initially marked trap |
| `SiphonTraps.NoSuchSiphonNoDeadlock` | anastasia/src/main.cc:686-702 | if it is unsatisfiable, no reachable marking of an ordinary net is dead |
| `SiphonTraps.CheckCommoner` | anastasia/src/main.cc:684-702 | building and solving the formula decides Commoner's property |
| `PetriNets.CommonerImpliesDeadlockFree` | anastasia/src/main.cc:686-702 | with Commoner's property no reachable marking of an ordinary net with transitions is dead |
| `PetriNets.TrapStaysMarkedOnRuns` | anastasia/src/main.cc:686-702 | a marked trap stays marked along every run |
| `PetriNets.DeadSiphon` | anastasia/src/main.cc:686-702 | the unmarked places of a dead marking of an ordinary net form a non-empty siphon |
| `Allocations.WNode.ComputeAllocation` | anastasia/src/witness.cc:36-70 | terminates, never runs past the last place, and yields an allocation that is defined exactly on the siphon without its maximal trap, each allocated transition putting tokens only on siphon places removed before |
| `Allocations.AllBlockedIsTrap` | anastasia/src/witness.cc:45-69 | if no remaining place can be removed, the remaining places would enlarge the maximal trap: so there are none |
| `Allocations.AllocationMeansMaximal` | anastasia/src/witness.cc:36-70 | conversely, such an allocation exists only if the trap is the maximal one |
| `Allocations.WNode.FindTransition` | anastasia/src/witness.cc:50-68 | a transition after the place that puts nothing on the remaining siphon, if there is one |
| `Allocations.WNode.ComputeSiphonPostset` | anastasia/src/witness.cc:100-110 | maps exactly the transitions that take from the siphon to a siphon place they take from |
| `Allocations.WNode.IsActivated` | anastasia/src/witness.cc:77-83 | whether the siphon's places hold enough tokens for the given preset |
| `Allocations.WNode.GetActivated` | anastasia/src/witness.cc:91-97 | exactly the transitions of the postset that lack no token on the siphon |
| `Allocations.WNode.ProducesDefiningToken` | anastasia/src/witness.cc:161-175 | whether a transition puts a token on the defining place, or on any siphon place at the initial node |
| `Allocations.PotentialDrops` | anastasia/src/witness.cc:409-421 | losing a token on a place of some rank outweighs gaining w tokens on every place of lower rank, if a token of rank i counts (w + 1)^i |
| `Allocations.AllocatedFiring` | anastasia/src/witness.cc:415-418 | firing an allocated transition lowers the potential, in which a token of rank i counts (w + 1)^i for the largest output weight w, and leaves the maximal trap unmarked; for all arc weights |
| `Allocations.OrdinaryOutput` | anastasia/src/witness.cc:415-418 | in an ordinary net that weight is at most 1, so a token counts at most 2^rank |
| `Allocations.BlockedStep` | anastasia/src/witness.cc:425-431 | no firing changes the tokens of a siphon that blocks its whole postset |
| `Allocations.DeadSiphonForever` | anastasia/src/witness.cc:425-431 | no transition of that postset is enabled in any marking reachable from then on |
| `Witnesses.Witness.constructor` | anastasia/src/witness.cc:218-237 | starts at the initial marking with exactly the enabled transitions recorded |
| `Witnesses.Witness.InitSWOMT` | anastasia/src/witness.cc:249-265 | succeeds exactly for siphons without initially marked trap, and then stores the siphon, its maximal trap (unmarked), a total allocation and the postset |
| `InitialSiphons.CheckExact` | anastasia/src/witness.cc:254-260 | the formula that pins the set is satisfiable exactly for siphons that contain no initially marked trap |
| `InitialSiphons.ModelShowsTrap` | anastasia/src/witness.cc:261-262 | its model pins the set and shows its maximal trap |
| `Witnesses.Witness.IsActivated` | anastasia/src/witness.cc:294-307 | whether the transition is enabled; its preset is recorded |
| `Witnesses.Witness.FireTransition` | anastasia/src/witness.cc:323-363 | fires the transition: the new marking, one more transition in the sequence, and again exactly the enabled transitions recorded |
| `Witnesses.Witness.ComputeChange` | anastasia/src/witness.cc:324-336 | records exactly the non-zero token changes of the transition |
| `Witnesses.Witness.SumArcs` | anastasia/src/witness.cc:325-332 | the token change of every place next to the transition |
| `Witnesses.Witness.ApplyChange` | anastasia/src/witness.cc:338-343 | the marking becomes the one after firing |
| `Witnesses.Witness.Eliminate` | anastasia/src/witness.cc:349-353 | drops exactly the recorded transitions for which the place now holds too few tokens |
| `Witnesses.Witness.LookForNew` | anastasia/src/witness.cc:354-359 | adds exactly the transitions after the place that are enabled now |
| `Witnesses.AdaptEnd` | anastasia/src/witness.cc:344-360 | looking at the changed places one by one leaves exactly the enabled transitions |
| `Witnesses.StateEquation` | anastasia/src/witness.cc:323-363 | the current marking is the initial one plus the summed effects of the sequence |
| `Witnesses.ReplaceableExact` | anastasia/src/witness.cc:412-418 | in every marking an enabled transition can be replaced by any other that shares an input place with it, exactly if transitions that share an input place have equal presets, weights included |
| `Witnesses.EqualPresetsByWeight` | anastasia/src/main.cc:613 | for free-choice nets this is a condition on the weights alone, which ordinary nets meet |
| `Witnesses.AllocatedIsEnabled` | anastasia/src/witness.cc:412-418 | if transitions that share an input place have equal presets, the allocated transition that replaces an enabled one is enabled |
| `Witnesses.WeightsMatter` | anastasia/src/witness.cc:412-418 | a free-choice net with unequal weights in which a total allocation replaces an enabled transition by one that is not |
| `Witnesses.PlaceIsAllocated` | anastasia/src/witness.cc:415-417 | the siphon place of an enabled transition is not in the unmarked maximal trap, so the allocation is defined on it |
| `Witnesses.Witness.FireAllocated` | anastasia/src/witness.cc:415-418 | fires the allocated, enabled transition; the potential drops and the trap stays unmarked |
| `Witnesses.Witness.FireAll` | anastasia/src/witness.cc:409-421 | the firing loop terminates with no transition of the postset enabled, or right after the first firing that puts a token on a defining place; each firing lowers the potential, which bounds their number |
| `Witnesses.Witness.AdaptGraph` | anastasia/src/witness.cc:384-431 | reports a restart right after the first firing that puts a token on a defining place; otherwise the siphon as result exactly if it blocks its whole postset |
| `Witnesses.Witness.ComputeGraph` | anastasia/src/witness.cc:313-318 | repeating it at the initial node terminates; the sequence is a run to the current marking, and the siphon is reported as emptied exactly if it blocks its whole postset, which then stays dead for ever |
| `Witnesses.IsFreeChoice` | anastasia/src/main.cc:613 | whether any two presets are disjoint or equal as sets of places |
| `Witnesses.FindWitness` | anastasia/src/main.cc:613-622 | refuses nets that are not free choice and sets that are not siphons without initially marked trap; otherwise a run that ends with no transition of the siphon's postset enabled; the siphon is reported as emptied exactly if it blocks its whole postset, and then none is ever enabled again |
| `Anica.AnicaLib.AddCausalPattern` | anica/src/AnicaLib.cc:600-667 | the extended net is the gadget that copies the high transition, with one guard place for each other producer of the place and each downgrade transition under PBNID |
| `Anica.AnicaLib.AddConflictPattern` | anica/src/AnicaLib.cc:669-739 | the extended net is the gadget that only tests the high transition, which is guarded as well |
| `Gadgets.GadgetExact` | anica/src/AnicaLib.cc:600-739 | goal can be marked in the extended net exactly if the original net can fire the high move and later enable the low transition without any guarded transition in between |
| `Gadgets.GoalMeansLeak` | anica/src/AnicaLib.cc:600-739 | from every run of the extended net that marks goal such a run of the original net can be read off, however often hC fires |
| `Gadgets.LeakMeansGoal` | anica/src/AnicaLib.cc:600-739 | every such run of the original net lifts to the extended net |
| `NonInterference.PatternExact` | anica/src/AnicaLib.cc:600-739 | both patterns are exact if the arcs that they copy have weight 1: goal can be marked exactly if the triple is active, which is stated over runs |
| `NonInterference.CopiesExact` | anica/src/AnicaLib.cc:618-627 | the copies are enabled and move tokens like the originals in all markings exactly if the inputs of high and low, and for causal triples the outputs of high, have weight 1 |
| `NonInterference.ConflictBlind` | anica/src/AnicaLib.cc:669-739 | whatever the weights, the conflict pattern decides exactly whether the net leaks when each copied arc counts 1 |
| `NonInterference.ActiveIsLeak` | anica/src/AnicaLib.cc:600-739 | active triples, stated over runs, are what the gadgets detect |
| `NonInterference.ActiveRules` | anica/src/AnicaLib.cc:600-739 | a triple is active exactly if there is a run on which high is enabled (and fired, for causal triples) and low is enabled later, such that in between nobody but high and low puts tokens on the place, no downgrade transition fires under PBNID, and for conflict triples high does not fire |
| `NonInterference.SecureRules` | anica/src/AnicaLib.cc:764-777 | a labelling is secure exactly if no place has an active causal triple of a high producer and a low consumer, nor an active conflict triple of a high and a low consumer |
| `NonInterference.WeightsOverlooked` | anica/src/AnicaLib.cc:659-662 | with a weighted arc at the high transition the causal pattern reports a triple that is not active |
| `TaskNets.AssembledIsGadget` | anica/src/AnicaLib.cc:618-662 | the collected arcs and the new places and transitions form the gadget |
| `TaskNets.TaskNet.CreateArcs` | anica/src/AnicaLib.cc:659-662 | inserts exactly the collected arcs, each with weight 1 |
| `Anica.AnicaLib.AddRivals` | anica/src/AnicaLib.cc:629-639 | one guard for each producer of the place other than high and low |
| `Anica.AnicaLib.AddDowngrades` | anica/src/AnicaLib.cc:641-653 | one guard for each downgrade transition |
| `Anica.AnicaLib.IsActiveCausalTriple` | anica/src/AnicaLib.cc:498-530 | true exactly if the causal triple is active; an error only if the model checker is missing or fails |
| `Anica.AnicaLib.IsActiveConflictTriple` | anica/src/AnicaLib.cc:532-564 | true exactly if the conflict triple is active; an error only if the model checker is missing or fails |
| `Anica.AnicaLib.Answer` | anica/src/AnicaLib.cc:519-529 | true exactly if the place can be marked, read off the exit code; an error only if the model checker is missing or fails |
| `Anica.AnicaLib.IsActivePlace` | anica/src/AnicaLib.cc:312-370 | with oneTripleOnly the exact number of active triples at the place, otherwise 1 or 0 |
| `Anica.AnicaLib.IsSecure` | anica/src/AnicaLib.cc:741-779 | refuses unassigned transitions and downgrading outside PBNID; otherwise 0 exactly if no triple is active, whatever oneTripleOnly and oneActiveOnly say; the number of active places unless it stops at the first one; 0 without any search if all labels are high or all are low; a failing model checker is reported as such |
| `Anica.AnicaLib.GetCharacterization` | anica/src/AnicaLib.cc:957-1034 | a choice of high and low satisfies the result exactly if it keeps the given labels and is secure |
| `NonInterference.CharacterizationExact` | anica/src/AnicaLib.cc:957-1034 | the conjuncts over the examined triples describe exactly the secure choices that keep the given labels |
| `ActivePlaces.NoActivePlaceIsSecure` | anica/src/AnicaLib.cc:764-777 | there is no active place exactly if the labelling is secure |
| `ActivePlaces.UniformIsSecure` | anica/src/AnicaLib.cc:756-762 | a labelling with only high or only low transitions is secure, so the shortcuts are right |
| `Anica.AnicaLib.constructor` | anica/src/AnicaLib.cc:31-67 | the counters and sets agree with the labels |
| `Anica.AnicaLib.SetTransitionAssignment` | anica/src/AnicaLib.cc:165-205 | changes one label and keeps the counters and sets in agreement |
| `ActivePlaces.TallyRelabelled` | anica/src/AnicaLib.cc:165-205 | leaving the old account and entering the new one yields the accounts of the changed labelling |
| `Anica.AnicaLib.AssignTransition` | anica/src/AnicaLib.cc:207-218 | refuses unknown transitions and downgrading under PBNI+; otherwise changes exactly this label |
| `Anica.AnicaLib.AssignUnassignedTransitions` | anica/src/AnicaLib.cc:220-230 | changes exactly the labels that were missing |

## Left out

- Reading and writing files, sockets, option parsing, logging, drawing, and the naming of variables, places and transitions.
- The insides of MiniSat, Sara, LoLA, Wendy and CUDD.
- Formulas.Formula.Implies: literals are non-zero, because a zero would end the clause early in the solver's format.
- Formulas.Formula.Equals: literals are non-zero, for the same reason.
- `Subset`, `XSubset`, `InSCC`, `XinSCC`, `XcoverSCC` and the variable-valued `MaxTrap` of the formula class: the first does not define inclusion, the last leaves its intermediate sets free when its variable is false, and the others would repeat the shape of members that are here.
- `getVarAssignment` (anastasia/src/formula.cc:168-170), which indexes the solution differently from `getAssignment`.
- SiphonTraps.GenerateFormula: does not model formulas read from a file (anastasia/src/main.cc:679-685) nor the lists of main variables and their names.
- Formulas.Formula.MinMax: assumes, as the main program ensures, that enforced and forbidden places are already clauses and that the starting solution contains pgen.
- Witnesses.Witness.AdaptGraph: models the firing loop and the emptied case; the arcs between nodes, the calls to Sara and the interlocking siphon built at the end (anastasia/src/witness.cc:433-517) are not modelled, and Blocked stands for whatever they would do next.
- Witnesses.Witness.ComputeGraph: starts at the initial node only, because the other nodes are reached through those arcs.
- Witnesses.Witness.constructor: the formula for siphon and maximal trap is built by InitSWOMT, and the nodes of the places belong to the arc graph.
- Witnesses.FindWitness: in free-choice nets, transitions that share an input place take the same numbers from their places.
- Witnesses.Witness.InitSWOMT: builds the formula for siphon and maximal trap afresh where the source copies the one made by the constructor; the clauses are the same.
- Allocations.WNode.ProducesDefiningToken: does not model the removal of the node's arcs.
- `computeSWOMT` for nodes other than the initial one.
- NonInterference.PatternExact: the copied arcs have weight 1; from other weights to reachability only the conflict pattern is followed (`ConflictBlind`).
- Anica.AnicaLib.IsActiveCausalTriple: the copied arcs have weight 1.
- Anica.AnicaLib.IsActiveConflictTriple: the copied arcs have weight 1.
- Anica.AnicaLib.IsSecure: the copied arcs of the triples with a high and a low transition have weight 1.
- Anica.AnicaLib.GetCharacterization: the copied arcs of the examined triples have weight 1.
- Anica.AnicaLib.IsActivePlace: all transitions are labelled, which the source asserts, and the copied arcs have weight 1.
- Anica.AnicaLib.AddCausalPattern: collected arcs are always inserted at once; leaving them pending serves only `getControllerProblem`.
- Anica.AnicaLib.AddConflictPattern: collected arcs are always inserted at once, likewise.
- `getControllerProblem`, whose meaning lies in partner synthesis, the colouring of nets, the potential places, and the look-up of places and transitions by name.
- Bsd.BSD.Setup: the components stored for the formula computation are proved right, but the computation of formulas from them (MP.cc) is not part of the model.
- Lists.SortCorrect: the sort of the standard list class is modelled as an insertion sort.
