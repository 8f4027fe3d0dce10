# A verified model of the statesman statechart interpreter

This project models the interpreter of statesman, a Go library for statecharts in the
style of the W3C SCXML Recommendation, and proves what its documentation and tests promise
of it: transition selection and conflict resolution, entry and exit sets, history, the
staged microstep and its commit, macrosteps, the actor around the engine (snapshots,
timers, invoked children, subscribers, mailbox), the loader passes that number the tree
and the callsites, the code generator's callsite tables, the renderer's active set and the
virtual clock of the test kit.

`dafny verify dfyconfig.toml` checks everything.

## How to read it

A state node is named by its document order, which is also its index in
`Definition.nodes`; `Numbering.LoadShape` proves that the loader produces this numbering,
and `Numbering.SameIdSameNode` that ids name nodes uniquely, so a table that the code keys
by id is keyed by node here.  Pure Go code is a function.  Code that updates things step by
step is a method with loops, or a class with the source's fields, proved equal to such a
function; the properties are lemmas about the functions, and so hold of the methods.
What selection, entry, the order of actions, commit and the loop counter come to is also said
without those functions: by places in lists, by paths in the tree, by traces and by counting
moves.  Guards and actions are uninterpreted functions of callsite, context and event.  A run of
the engine is any sequence of offers, steps that are committed, and steps that are
abandoned (`Engines.Exec`).

| file | content |
|---|---|
| Definition, Configuration | the tree, well-formed charts, legal configurations, leaves |
| Selection, Entry, Growth, Coverage, Microstep, History, Staging, Completion | one microstep, part by part |
| Default | exactly what a microstep makes active, and what history does before its first record |
| Engine, EngineObject, Macrostep, Ranking, HistoryRuns | the engine as functions and as an object, whole runs |
| Timers, Machine | the actor |
| Build, Numbering, Targets, Callsites, Resolve, Emit | loader and code generator |
| Render, Clock | the renderer's active set, the test clock |
| SmallCharts, Counterexamples, DeepOverParallel | what happens when a hypothesis is dropped |

## Hypotheses

Everything assumes `Definitions.WellFormed`: the numbering is pre-order, the root is
compound, `initial` names a child, atomic, final and history nodes have no children, a
parallel has regions and no history child, a history node sits under a compound and has one
sibling default, and every edge leaves its own node and has at most one target.  On every
such chart the engine can be run (`Engines.Runnable`, kept by every step), whatever its
edges and whatever was recorded.

On all these charts, after every run from start, the root is active and no active node lacks
the active children it demands (`Engines.ReachableInhabited`).  The one thing that can be wrong
with a configuration is that a compound has two active children.  Two things that the loader
accepts bring this about, and each comes with a chart on which a run does it:

- A targeted edge with the root at one end has no domain (`Selection.DomainExactly`) and exits
  nothing.  Taken alone it keeps a configuration legal if and only if everything it enters is
  active already (`Microsteps.RootEdgeExactly`); `Counterexamples.RootEdgeBreaksLegality` is a
  run that ends with two children of a compound active.
- Deep history over a parallel records several leaves, and the code restores them one after
  the other.  The recorded part comes back, and its parent is filled, if and only if
  restoring the first leaf alone enters no leaves but the recorded ones
  (`Histories.DeepRestores`, over runs `HistoryRuns.DeepHistoryRoundTrip`).
  `DeepOverParallel.DeepOverParallelBreaksLegality` is a run where it does not.

`Definitions.Tame` rules out both on the chart; on tame charts all runs reach only legal
configurations.  On the others a run does as long as it takes no edge of the root and stores
no record that does not restore properly (`Engines.ReachableLegal`).

A third thing concerns termination.  Completion edges that go round in a circle can keep a
macrostep going for ever (`Counterexamples.LoopNeverEnds`).  If completions can be ranked, which
is sufficient, every macrostep ends (`Rankings.RankedMacrostepsTerminate`).

## The actor

`Machines.Machine.Valid` holds between all methods of the actor.  It ties the actor to the
engine's runs: the ghost field `moves` lists what the engine went through since its start
microstep, and the engine is in the state that these moves lead to, the published snapshots of
a live actor are those of the states committed on the way, each of them and no other, the
events offered are the events taken out of the mailbox, in that order, each offered when the
macrostep before had run to completion, and only the last step can be one that was not
committed.  So every result about runs holds of the actor.

## Where documentation and code differ

The model follows the code.  In docs/transition-algorithm.md, section 7.5 completes a parallel
when a final is entered and all its regions are in a final state by then (a compound whose
active child is final, a parallel whose children all are), while the code looks for an active
final anywhere in the region.  `Completions.CompletesAsDocumented` says exactly
when the two complete the same states, `Engines.StepAsDocumented` that every step does if finals
are direct children of compound regions, and `Counterexamples.NestedFinalCounts` is a chart whose
very start stages a completion that the documented rule does not.  For a compound region the
two tests agree in all legal configurations if and only if its finals are direct children of it
(`Completions.RegionTestAgrees`).  Lines
239-242 say that a targeted transition restarts invokes, while the code compares invoke ids
only when a macrostep has settled and so keeps a child whose state was exited and re-entered;
`Machines.Machine.ReconcileInvokes` states what it does.

## Model

| member | source | states |
|---|---|---|
| Definitions.CollectAncestors | definition.go:162-168 | the loop collects exactly the nodes that have n as a proper descendant, innermost first |
| Definitions.CheckDescendant | definition.go:171-181 | the parent walk decides proper descent, and is false for a nil ancestor |
| Configurations.NodeSet.Clone | microstep.go:268-274 | the clone is a new object with the same members |
| Configurations.NodeSet.Atomic | transition.go:38-46 | the active leaves in document order |
| Configurations.LegalIsClosureOfLeaves | transition.go:38-46 | a node of a legal configuration is active if and only if it is an active leaf or above one |
| Configurations.LeavesDetermineConfiguration | microstep.go:276-283 | two legal configurations with the same leaves are equal |
| Configurations.NestedLegal | transition.go:253-311 | of two legal configurations neither contains the other properly |
| Selection.FindLcca | transition.go:51-71 | the result is the lowest compound or root proper ancestor of the first state that contains all the others; nil only if there is none |
| Selection.LccaIsLeast | transition.go:51-71 | every common compound or root ancestor contains the one found |
| Selection.DomainExactly | transition.go:75-99 | a targeted edge has a domain if and only if neither end is the root; without a domain it exits nothing |
| Selection.DomainOfTargeted | transition.go:75-83 | away from the root a targeted edge has a compound domain above source and target |
| Selection.AtMeaning | transition.go:126-139 | a node offers one of its own edges that may fire, or none of its edges may fire |
| Selection.AtGoesFirst | transition.go:126-158 | the edge that a node fires is one it offers, by its place: among those that may fire an exact match goes before the catch-all, and of two of a kind the earlier one goes first |
| Selection.EventedOrder | transition.go:145-156 | a node offers its own edges first, then invoke by invoke the edges for its success before those for its failure |
| Selection.FirstUpMeaning | transition.go:181-198 | the search from a leaf finds the firing edge of the leaf or an ancestor, and fails exactly if none of them has one |
| Selection.FirstUpInnermost | transition.go:181-198 | the edge found from a leaf goes first at its source, and no node strictly below that source on the way up from the leaf offers an edge that may fire |
| Selection.InnermostOnly | transition.go:181-198 | only one edge is like that, so chart, trigger and leaf determine what is found |
| Selection.FindUp | transition.go:185-196 | the inner loop, left at the first match, is that search |
| Selection.CollectEnabled | transition.go:181-198 | the enabled edges are those found from some leaf, in leaf order and without repetition |
| Selection.EnabledInnermost | transition.go:181-198 | an edge is enabled if and only if it is that innermost edge of some active leaf |
| Selection.ResolveIsKernel | transition.go:202-236 | conflict resolution keeps exactly the edges that conflict with no kept edge earlier in post-order |
| Selection.KernelUnique | transition.go:202-236 | that reference definition determines the survivors |
| Selection.KernelSeparates | transition.go:202-236 | survivors exit disjoint sets; every dropped edge conflicts with a survivor below it or before it in document order |
| Selection.BeatenThrough | transition.go:216-234 | a preempter that is itself removed is replaced by one that preempts the same edges, so nothing is dropped in vain |
| Selection.ResolveEnabledKernel | transition.go:202-236 | from unsorted enabled edges the result is the conflict-free kernel, in document order, and not empty if anything was enabled |
| Selection.SelectChooses | transition.go:160-198 | in any configuration with active parents, selection yields firing edges of active nodes with disjoint exits |
| Selection.SelectMeaning | transition.go:160-198 | in a legal configuration it yields nothing exactly when no active node has a firing edge |
| Selection.SelectInnermost | transition.go:160-198 | every selected edge is that innermost edge of some active leaf |
| Selection.RemoveConflicting | transition.go:202-236 | the nested loops with their removal set compute that resolution |
| Selection.CollectExitSet | transition.go:103-109 | the loop collects the union of the single exit sets |
| Selection.UnionOfExitsMeaning | transition.go:103-116 | a state exits if and only if some edge exits it |
| Selection.ComputeExitSet | transition.go:103-116 | the exit order is exactly the exited states by descending document order |
| Entry.SearchDescendantInSet | transition.go:314-324 | the recursive search decides whether the subtree is touched |
| Entry.HasDescendantMeaning | transition.go:314-324 | the search succeeds if and only if some member of the set lies in the subtree |
| Entry.EnterDescendants | transition.go:268-295 | the in-place closure over descendants terminates and equals its specification, of which Defaults.DescendantsExactly and Defaults.UnrecordedRestores say what it enters |
| Entry.EnterRegions | transition.go:288-293 | regions are entered one by one unless already touched |
| Entry.EnterAncestors | transition.go:297-311 | the in-place closure over ancestors terminates and equals its specification |
| Entry.DescendantsFill | transition.go:268-295 | entering an untouched state makes its subtree legally filled and adds nothing outside it |
| Entry.FirstClimbFills | transition.go:274-277 | restoring the first recorded node alone fills the untouched parent of the history node |
| Entry.RestoreFills | transition.go:269-279 | a record that restores properly fills the parent, with exactly what its first node enters |
| Entry.RegionsFill | transition.go:288-293 | every region of a parallel ends up filled, and regions that were filled are not changed |
| Entry.ClimbFills | transition.go:297-311 | climbing to a compound ancestor fills everything on the way and leaves the starting subtree as it was |
| Entry.ClimbNoop | transition.go:297-311 | climbing inside a filled state adds nothing |
| Entry.TargetFills | transition.go:253-266 | entering one target in an untouched compound domain fills that domain |
| Growth.DescendantsGrow | transition.go:268-295 | whatever is stored, entering a state adds that state and nodes of its subtree that hang from its parent |
| Growth.RegionsGrow | transition.go:288-293 | whatever is stored, entering regions adds nothing in a touched region |
| Growth.AncestorsGrow | transition.go:297-311 | whatever is stored, a climb adds nodes that hang from its top, and nothing in the touched subtree it starts from |
| Growth.DescendantsAgree | transition.go:268-295 | whatever is stored, what entering a state puts into its subtree depends only on what is there already; for a history node, what is below its parent |
| Growth.ClosesAnywhere | transition.go:269-278 | whether restoring the first recorded node enters all others does not depend on the set it is restored into |
| Coverage.DescendantsCover | transition.go:268-295 | whatever is stored, a compound that is entered has an active child and a parallel has all of them, and so has everything entered with it |
| Coverage.FirstClimbCovers | transition.go:274-277 | restoring the first recorded node leaves the parent and all nodes entered with at least the children they demand |
| Defaults.UnrecordedRestores | transition.go:269-273 | entering a history node at which nothing or an empty record is stored is entering its declared default |
| Defaults.DescendantsExactly | transition.go:268-295 | entering an untouched state enters exactly what is active by default below it: the initial child of a compound, or the declared default if that is a history node without a record, and every child of a parallel |
| Defaults.RegionsExactly | transition.go:288-293 | every untouched region of a parallel is entered in that way |
| Defaults.TargetExactly | transition.go:253-266 | below an untouched compound, entering a target makes exactly these active: the path down to it, what is active by default below it, and what is active by default in the regions beside the path |
| Defaults.HistoryExactly | transition.go:269-278 | entering a history node that restores one node does the same for that node |
| Microsteps.ComputeEntrySet | transition.go:253-266 | the loop over the transition set fills the entry set in place |
| Microsteps.EnterTransition | transition.go:256-264 | one transition: targets first, then ancestors up to the domain |
| Microsteps.SelectedApart | transition.go:202-236 | the domains of selected transitions are not nested |
| Microsteps.StagedRooted | microstep.go:174-239 | on every well-formed chart the staged configuration has active parents only and no active history node |
| Microsteps.MicrostepLocal | microstep.go:174-239 | without edges of the root: the staged configuration is the old one minus exits plus entries; entries are disjoint from what remains; outside the domains nothing changes, inside them only entries are active |
| Microsteps.MicrostepLegal | microstep.go:174-239 | from a legal configuration, with records that restore properly and no edge of the root, the staged configuration is legal |
| Defaults.StagedExactly | microstep.go:174-239 | which nodes are active after a microstep, if and only if: below the domains those that become active for the targets, elsewhere those that were active |
| Microsteps.StagedInhabited | microstep.go:174-239 | whatever selected edges are taken, those of the root included, and whatever is stored: if the root is active and no active node lacks an active child it demands, the same holds of the staged configuration |
| Microsteps.LegalIsUnsplit | microstep.go:174-239 | such a configuration is legal if and only if no compound has two active children |
| Microsteps.RootEdgeExactly | transition.go:87-99 | a targeted edge of the root, taken alone, keeps a legal configuration legal if and only if everything it enters is active already |
| Microsteps.StartLegal | microstep.go:121-127 | the initial configuration is legal |
| Histories.RecordAllMeaning | microstep.go:198-199 | exactly the histories of exited states are rewritten, all from the configuration before the microstep |
| Histories.RecordedOk | microstep.go:295-316 | from a legal configuration a shallow record is the active child, a deep record exactly the active leaves below |
| Histories.RecordAllReady | microstep.go:295-316 | on every well-formed chart only restorable nodes are stored, so entry keeps terminating |
| Histories.RecordAllSingles | microstep.go:295-316 | where deep history has no parallel below, every record stays a single node |
| Histories.RecordHistory | microstep.go:295-316 | the loop over history children computes the record |
| Histories.RecordDeep | microstep.go:302-307 | the deep record is the active leaves below the state, in document order |
| Histories.RecordShallow | microstep.go:308-314 | the shallow record is the active children, in document order |
| Histories.DeepRestores | transition.go:269-278 | restoring a deep record over an untouched parent brings back exactly the recorded part, and leaves the parent filled, if and only if restoring its first leaf alone enters no leaves but the recorded ones; with one recorded leaf always; if nested history restores properly, if and only if it already enters all the others |
| Histories.ShallowRestores | transition.go:269-278 | restoring a shallow record is default entry of the recorded child |
| Staging.RunActionsConcat | microstep.go:188-196 | running two lists of actions one after the other is running their concatenation |
| Staging.ActionsInOrder | microstep.go:188-215 | context and outbox of a microstep are the end of a trace that runs, each once, first the exit callsites state by state in exit order, then those of the transitions, then the entry callsites in entry order; an assignment replaces the context, a send or spawn goes last in the outbox |
| Staging.AppendingContext | microstep.go:188-215 | if every action appends its callsite to a list in the context, the list ends with the callsites in exactly that order and the outbox stays as it was |
| Staging.SendingEffects | microstep.go:188-215 | if every action sends or spawns, the outbox ends with their effects in exactly that order and the context stays as it was |
| Staging.StagedOrder | transition.go:328-335 | exits list descendants before ancestors, entries ancestors before descendants |
| Staging.RunList | microstep.go:188-196 | the fold of context and effects over a list of actions |
| Staging.ExitStates | microstep.go:198-204 | the exit loop: history, exit actions and removal, innermost first |
| Staging.EnterStates | microstep.go:211-230 | the entry loop: adding, entry actions, final detection and completion while entering |
| Staging.CheckAllRegionsFinal | microstep.go:320-334 | the nested loops decide whether every region has an active final in it |
| Staging.Apply | microstep.go:181-247 | the staged microstep is computed on copies and equals its specification; live configuration, context and history stay; Staging.ActionsInOrder says in which order actions run |
| Completions.ParallelCompletes | microstep.go:211-230 | how often a microstep completes a parallel: once per entered final child of it, and once per entered final child of a region from the node on with which the last region gets an active final |
| Completions.CompoundCompletesOnce | microstep.go:211-230 | if finals are children of compound regions only: apart from its own finals once, exactly if every region has an active final when the last final child of a region is entered |
| Completions.CompletesAsDocumented | microstep.go:211-230 | the code completes what section 7.5 of docs/transition-algorithm.md says, in the same order, if and only if it never finds all regions final while one is not in a final state yet; otherwise it completes more |
| Completions.CompletesInOrder | microstep.go:211-230 | completions come in the order in which the finals that cause them are entered, each final completes its parent and right after it the parallel above if all regions are final by then, and nothing else is completed |
| Completions.EarlyMeansNested | microstep.go:320-334 | a compound region that the code finds final but that is not in a final state has a final active deeper inside |
| Completions.FlatAsDocumented | microstep.go:211-230 | if finals inside parallels are direct children of compound regions the code completes what is documented, whatever is entered |
| Completions.FlatCompletesOnce | microstep.go:211-230 | then a parallel is completed once if a final of a region is entered and all regions are final afterwards, and else not at all |
| Completions.RegionTestExactly | microstep.go:320-334 | in a legal configuration the code's test of a compound region agrees with the documented one if and only if no nested final is active |
| Completions.AllRegionsExactly | microstep.go:320-334 | all regions test final if and only if each has a final as its active child or a nested final active; with flat finals, a final as its active child |
| Completions.RegionTestAgrees | microstep.go:320-334 | over all legal configurations of a chart the two tests of a compound region agree if and only if all finals in it are its direct children |
| Staging.DoneEventsCount | microstep.go:224-229 | with unique ids the count of a completion event is the count of the completed state |
| Engines.StepSound | microstep.go:144-266 | on a tame chart a sound engine stays sound |
| Engines.StartedRunnable | microstep.go:121-127 | after start the configuration is legal and nothing is recorded |
| Defaults.StartedExactly | microstep.go:121-127 | after start exactly the states are active that are so by default |
| Engines.BenignLegal | microstep.go:144-266 | a run that takes no edge of the root and stores only records that restore properly reaches only legal configurations |
| Engines.TameBenign | microstep.go:144-266 | on a tame chart every run is of that kind |
| Engines.StepStages | microstep.go:144-178 | a step leaves configuration, context and history alone; the loop counter grows exactly on eventless microsteps; what is staged belongs to a selected set, with exits, entries, history and completions as specified, and its context and outbox come from running all actions in order on the event taken |
| Engines.StepTakes | microstep.go:144-172 | what a step that stages something takes: eventless edges, else the first queued event that selects something, those before it dropped, else the pending external event; it stages the microstep of exactly the edges selected for that |
| Engines.StepLeaves | microstep.go:144-172 | a step that stages nothing gives up exactly if an eventless edge is selected at the limit; otherwise nothing matches and every event is dropped |
| Engines.StepChooses | microstep.go:108-117 | every edge a step takes has no guard or one that holds on the live context and the event taken, and is the innermost edge of some active leaf |
| Engines.StepRuns | microstep.go:188-215 | context and outbox that a step stages come from running exit, transition and entry actions in order on that event |
| Engines.StartRuns | microstep.go:121-127 | so do those of the start microstep, on the zero event and with nothing exited |
| Defaults.StepStagesExactly | microstep.go:144-239 | which nodes are active in the configuration a step stages, if and only if |
| Engines.EndsExactly | microstep.go:219-225 | a microstep ends the machine if and only if it enters a final child of the root |
| Engines.CommitExactly | microstep.go:250-266 | completion events go behind those waiting, in order and with the zero payload; the status follows; an event-triggered microstep resets the loop counter and an eventless one leaves it |
| Engines.StepRunnable | microstep.go:144-266 | on every well-formed chart the engine stays runnable |
| Engines.StepLegal | microstep.go:174-239 | from a legal configuration with records that restore properly, a step that takes no edge of the root stages a legal one |
| Engines.RootStepExactly | transition.go:87-99 | a step that takes an edge of the root alone stages a legal configuration if and only if it enters nothing new |
| Engines.ReachableLegal | microstep.go:121-266 | after start every run on a tame chart, and every run of that kind on any other, reaches only legal configurations |
| Engines.ReachableInhabited | microstep.go:121-266 | after every run from start, on every well-formed chart, the root is active and no active node lacks the active children it demands; the configuration is legal if and only if no compound has two |
| Engines.CourseLegal | microstep.go:121-266 | on a tame chart, and after a run of that kind on any other, every state committed on the way is legal |
| Engines.OneMoreMove | microstep.go:250-266 | a run grows move by move, and its course of committed states by what the move commits |
| Engines.EventlessBudget | microstep.go:146-153 | the bound on eventless microsteps, from any state |
| Engines.EventlessBounded | microstep.go:144-172 | over a whole run eventless microsteps never exceed the limit times one plus the event-triggered ones |
| Engines.CounterExactly | microstep.go:144-153 | after any run the loop counter is the number of eventless steps taken since the last committed microstep that an event triggered |
| Engines.GivesUpExactly | microstep.go:146-151 | after any run the next step gives up if and only if an eventless edge is selected and that number has reached the limit |
| Engines.StepCompletesParallel | microstep.go:211-230 | how often a step stages the completion event of a parallel, from any state and on any well-formed chart with unique ids |
| Engines.StepCompletesFlat | microstep.go:211-230 | with flat finals, from a legal configuration: once if a final of a region is entered and all regions are final afterwards, else not at all |
| Engines.StepAsDocumented | microstep.go:211-230 | a step stages the documented completion events unless it finds all regions final too early; with flat finals it never does |
| Engines.StepDoneInOrder | microstep.go:211-230 | a step stages one done.state event for each completion, in that order |
| EngineObjects.Engine.Start | microstep.go:121-127 | the staged start microstep; only lastEvt changes |
| EngineObjects.Engine.Offer | microstep.go:130-140 | the pending external event is replaced and nothing else changes |
| EngineObjects.Engine.Step | microstep.go:144-172 | the step of the object is the step of the specification, and configuration, context and history stay the same |
| EngineObjects.Engine.StepEvent | microstep.go:155-170 | internal events until one selects something, then the external event |
| EngineObjects.Engine.Commit | microstep.go:250-266 | the staged state becomes the live state as Engines.CommitExactly says |
| Macrosteps.RunToCompletion | machine.go:402-419 | a macrostep that ends quietly leaves no eventless edge enabled, no internal and no external event |
| Macrosteps.NothingMatches | transition.go:160-198 | in a legal configuration nothing is selected exactly when no active node has an edge that may fire |
| Macrosteps.ExternalLast | microstep.go:155-170 | an external event is consumed only when no eventless edge is enabled and no queued internal event selects anything |
| Macrosteps.StepSettled | microstep.go:144-172 | a step that stages nothing and is no error finds nothing left to do |
| Macrosteps.MacrostepBounded | microstep.go:144-172 | without edges on done.state events a macrostep ends within twice the limit plus one microsteps |
| Macrosteps.MacrostepsTerminate | machine.go:402-419 | the same after any run from start |
| Rankings.StagedWeight | microstep.go:211-230 | what a microstep stages weighs less than the completion event that triggered it, and nothing if its edges are eventless |
| Rankings.RankedMacrostepEnds | microstep.go:144-172 | if completions do not go round in a circle a macrostep ends within a bound computed from the queue, the ranks and the limit |
| Rankings.RankedMacrostepsTerminate | machine.go:402-419 | the same after any run from start |
| Rankings.EventMacrostepEnds | machine.go:402-419 | a bound known beforehand for the macrostep of one event at rest |
| HistoryRuns.EntryWithin | transition.go:253-266 | inside the domain of one transition the entry set of all of them is what that transition alone adds |
| HistoryRuns.SettlesExactly | transition.go:269-278 | that a record restores properly wherever its parent is untouched can be told by restoring it into the empty set |
| HistoryRuns.RunKeepsHistory | microstep.go:295-316 | while a state stays inactive its stored history does not change |
| HistoryRuns.DeepHistoryRoundTrip | transition.go:268-279 | leaving a compound, staying away for any run and returning through deep history restores exactly the part that was active if and only if restoring the first recorded leaf enters no leaves but the recorded ones; with one recorded leaf always; whatever history is stored inside |
| HistoryRuns.TameDeepRoundTrip | transition.go:268-279 | on a tame chart it always does |
| HistoryRuns.ShallowHistoryRoundTrip | transition.go:268-279 | the same for shallow history: the same child, with default entry below it |
| Defaults.NothingRecorded | microstep.go:295-316 | as long as no microstep of a run exits its parent, nothing is recorded at a history node |
| Defaults.FirstVisit | transition.go:269-273 | a step that targets a history node before its parent was ever exited makes the parent active, of its children the declared default and no other, and below that what entering it enters |
| Timers.PlannedPending | machine.go:461-485 | the planned list is, as a multiset, the surviving timers plus those of the entered states |
| Timers.EntryTimersExactly | machine.go:461-528 | a planned timer belongs to an `after` edge of an entered state, and its deadline is now plus the literal milliseconds or the named delay; each such edge has one |
| Timers.BuildTimers | machine.go:487-512 | arming one state yields a timer per `after` edge with fresh handles |
| Timers.PlanMatchesArmIff | machine.go:461-512 | the planned and the armed timers agree if and only if the two clock readings agree or nothing entered has an `after` edge |
| Timers.ArmAllHolds | machine.go:487-512 | arming touches only the entered states, and each holds the timers of this entry, one per `after` edge, and no others if it held none |
| Timers.ArmAllTable | machine.go:487-512 | arming adds exactly the plan to the table, whatever the states held already, and every handle ever scheduled stays accounted for |
| Timers.RemoveFromTable | machine.go:514-521 | cancelling leaves exactly the surviving timers |
| Machines.TimersFollow | machine.go:424-456 | after a microstep each active state holds the timers of its latest entry, on charts without edges of the root nothing else, and no other state holds any; the published list is the table exactly when the readings agree |
| Machines.CommitTracked | machine.go:424-456 | committing the staged microstep is the next move of the run, and publishes the state it commits |
| Machines.StepTracked | machine.go:402-410 | a step that is not committed publishes nothing and stays the last move |
| Machines.OfferTracked | machine.go:356-360 | an event is offered when nothing is left to do, and the offers are the events in order |
| Machines.FirstRefusalExactly | machine.go:441-447 | the microstep is refused if and only if some observer refuses it, and the cause is that of the first one |
| Machines.Machine.constructor | machine.go:98-116 | a new actor is in its initial state, version 0 published, with its early subscribers |
| Machines.Machine.Enqueue | machine.go:220-232 | an item is accepted if and only if the actor lives and there is room |
| Machines.Machine.ArmAfterTimers | machine.go:487-512 | the loop arms the entered states in order |
| Machines.Machine.CancelAfterTimers | machine.go:514-521 | exactly the timers of the exited states are cancelled |
| Machines.Machine.NotifySubs | machine.go:607-614 | every subscriber is sent the snapshot once |
| Machines.Machine.PublishError | machine.go:550-568 | the last snapshot again, with status Error, a reason and the next version |
| Machines.Machine.FollowTimers | machine.go:514-521 | cancelling and arming keep the table matched to the configuration |
| Machines.Machine.PlanSnapshot | machine.go:424-443 | the snapshot shown to the observers describes the staged microstep |
| Machines.Machine.ExecMicrostep | machine.go:424-456 | the microstep is committed if and only if no observer refuses the snapshot that describes it; then engine, timers and snapshot follow it; otherwise engine and timers stay and the last snapshot is published again with the first refusal as its reason; published snapshots, timers ever scheduled or cancelled and subscriptions are only added to |
| Machines.Machine.RunMacrostep | machine.go:402-419 | it is the macrostep of the engine from the same state, with the same result, unless an observer refuses a microstep; all its steps are committed or settled, or all but the last; a quiet end leaves nothing to do |
| Machines.Machine.Begin | machine.go:327-333 | an observer refuses the start microstep, or it ends the machine, or the macrostep of the engine from there follows; then children are reconciled, or the actor shuts down; with a bound that is high enough, which ranked charts have, it comes to an end |
| Machines.Machine.HandleNext | machine.go:343-366 | one item leaves the mailbox; an event is offered, and what follows is the macrostep of the engine from there unless an observer refuses a microstep; a ping changes nothing else and is answered with whether the mailbox is empty; an idle answer means that everything enqueued was handled and nothing is left to do; a bound known beforehand is not reached on ranked charts |
| Machines.Machine.NextItem | machine.go:343-361 | the first item leaves the mailbox and, if it is an event, becomes the pending event of the engine |
| Machines.Machine.StaysLegal | machine.go:424-456 | on a tame chart, or after any benign run, the configuration of the actor is legal at all times after start, and every published snapshot of a live actor lists the leaves of a legal configuration |
| Machines.Machine.StaysInhabited | machine.go:424-456 | on every well-formed chart the configurations of the actor and behind its snapshots never lack an active child |
| Machines.Machine.VersionCounts | machine.go:424-456 | the version of a live actor counts the microsteps committed, and the eventless ones never exceed the limit times one plus the event-triggered ones |
| Machines.Machine.RestMeansQuiet | machine.go:402-419 | on a tame chart, or after any benign run, an actor at rest has no edge that may fire on its own |
| Machines.Machine.DrainAndClose | machine.go:373-398 | every event still in the mailbox is offered and its macrostep run before the shutdown, unless a macrostep ended the actor; a quiet end leaves the engine with nothing to do; every ping in between is answered as settled |
| Machines.Machine.DrainMacrostep | machine.go:388-391 | a drained event gets the macrostep of the engine, and shutdown if that ended the machine |
| Machines.Machine.HandleDrainClose | machine.go:352-355 | unless a macrostep ends the actor first, everything enqueued before and behind the sentinel is handled, that is offered to the engine with its macrostep run, before the shutdown |
| Machines.Machine.Shutdown | machine.go:570-605 | children are gone, every timer ever scheduled is cancelled, one terminal snapshot is last, subscribers got it, channels are closed |
| Machines.Machine.Register | machine.go:340-342 | a new subscriber is sent what is published from now on |
| Machines.Machine.RemoveSub | machine.go:616-624 | the first subscription with that identity leaves the list and is closed, every other one stays |
| Machines.Machine.SubscriberSeesEveryVersion | machine.go:570-614 | a subscriber from before Start that was not removed, its channel open or closed by the shutdown, was sent every version from 1 in order, the terminal one included, and nothing else |
| Machines.Machine.ReconcileInvokes | actors.go:76-118 | live ids are those that active states declare and that have a runner; survivors are untouched; a spawn is counted exactly when an id appears; what runners emit while starting is enqueued |
| Machines.Machine.RestartsSnapshot | actors.go:124-136 | the reported restarts are the spawns beyond the first |
| Build.Builder.BuildNode | schema/build.go:53-84 | the tree is laid out in pre-order with parents, keys, ids and kinds; it fails exactly on a wrong id or an unknown type; byKey lists the nodes of each key |
| Build.Builder.Walk | schema/build.go:107-119 | the recursive walk numbers the block of a subtree consecutively, in list order |
| Build.Builder.AssignDocOrder | schema/build.go:107-119 | numbers are exactly 0 to N-1, and the ordered list names the nodes in that order |
| Numbering.LoadShape | schema/build.go:25-40 | building and numbering give a tree in pre-order |
| Numbering.AncestryByNumber | definition.go:171-181 | n is a proper descendant of a if and only if its number lies inside the block of a's subtree |
| Numbering.LoadedIsPreOrder | schema/build.go:107-119 | the numbering has the interval property that conflict resolution relies on |
| Numbering.SameIdSameNode | definition.go:141-155 | with dot-free keys that differ among siblings, ids name nodes uniquely |
| Numbering.IndexNodes | definition.go:29-46 | the recursive indexing covers the subtree and adds only its nodes |
| Numbering.NewIndex | definition.go:23-46 | looking up the id of any node finds that node, and any other id finds nothing |
| Targets.ResolveTarget | schema/resolve.go:66-112 | the three target forms and their errors |
| Targets.ResolveAbsolute | schema/resolve.go:68-90 | an absolute target resolves to the one node with that key or id; none and several are the two errors |
| Targets.RelativeRoundTrip | schema/resolve.go:92-105 | the dotted path from a state to its descendant resolves to that descendant |
| Targets.FollowDescends | schema/resolve.go:92-105 | a relative target reaches only descendants, along exactly the named keys |
| Targets.AbsoluteRoundTrip | schema/resolve.go:68-90 | the id of a state, taken as an absolute target, resolves to it if and only if no other state has that id as its key; otherwise it is ambiguous |
| Targets.NestedIdIsNoKey | schema/resolve.go:68-90 | for states below the top level that condition holds of all states but the root |
| Targets.MachineIdIsAmbiguous | schema/resolve.go:68-90 | a top-level state that has the machine id as its key cannot be named absolutely |
| Targets.SameNameIsAmbiguous | schema/resolve.go:68-90 | for instance machine a with a state a |
| Targets.SiblingRoundTrip | schema/resolve.go:107-111 | a bare key resolves to the sibling of that key and to no other node |
| Resolve.Resolver.AssignEdge | schema/resolve.go:169-178 | the guard takes the next guard number, the actions the next action numbers |
| Callsites.NodeCallsInOrder | schema/resolve.go:180-200 | the actions of a node: entry, then its edges, then exit, then its invokes |
| Callsites.EdgesInOrder | schema/resolve.go:185-187 | edges come in their own order, without gaps |
| Callsites.InvokesInOrder | schema/resolve.go:192-199 | invokes too, in each the edges for success before those for failure |
| Resolve.Resolver.AssignNode | schema/resolve.go:180-200 | the callsites of one node continue both counters in the fixed order |
| Resolve.Resolver.AssignCallsites | schema/resolve.go:168-202 | all action ids, in document order, are 0 to actionCount-1, all guard ids likewise, and nothing but ids has changed |
| Emit.Slots.Write | internal/codegen/emit.go:89-92 | a slot is written at the index of its callsite id |
| Emit.Gen.Record | internal/codegen/emit.go:82-94 | one edge writes its guard and its actions, with the event they see |
| Emit.Gen.Visit | internal/codegen/emit.go:95-116 | the recursive visit writes the callsites of a subtree in document order |
| Emit.Gen.BuildCallsites | internal/codegen/emit.go:77-118 | every slot is written exactly once, in bounds, with the callsite whose id is its index |
| Emit.NumberThenGenerate | internal/codegen/emit.go:77-118 | the generator inverts the numbering of the loader on every laid out tree |
| Render.ActiveSet | diagram/render.go:111-124 | the result is the given ids and the ids of all ancestors of those that are known |
| Render.ActiveSetIsTheConfiguration | diagram/render.go:111-124 | on the leaf ids of a legal configuration it is exactly the ids of all active nodes |
| Clocks.ManualTimer.MarkFiredIfDue | statesmantest/clock.go:94-102 | marks a timer exactly when it is due, not fired and not cancelled |
| Clocks.ManualTimer.Cancel | statesmantest/clock.go:104-112 | has an effect exactly on a timer that is neither fired nor cancelled |
| Clocks.StableSortMeaning | statesmantest/clock.go:80 | sorting by deadline keeps the timers and the order of equal deadlines |
| Clocks.ManualTimerService.Schedule | statesmantest/clock.go:55-61 | the new timer comes last |
| Clocks.ManualTimerService.Advance | statesmantest/clock.go:67-84 | exactly the due timers fire, each once in all runs, by deadline and then by order of scheduling, and none that was cancelled; then their callbacks schedule and cancel timers in order |
| Clocks.PerformedMeaning | statesmantest/clock.go:81-83 | callbacks leave fired timers as they are, cancel only what they drop, and what they schedule comes last and does not fire this time |
| Clocks.ManualTimerService.CancelOne | statesmantest/clock.go:104-112 | a timer that was cancelled in time never fires |
| Rankings.NoDoneEdgesRanked | microstep.go:155-162 | a chart in which nothing reacts to done.state events is ranked |
| Counterexamples.RootEdgeBreaksLegality | transition.go:87-99 | started and given one event, a chart with a targeted edge of the root has two children of a compound active |
| Counterexamples.LoopNeverEnds | microstep.go:263-265 | a done.state edge back to its own final takes more microsteps than any bound |
| Counterexamples.LoopFromTheStart | microstep.go:121-127 | the chart of that loop is well-formed and enters the loop at start |
| Counterexamples.LoopIsUnranked | microstep.go:263-265 | no ranking fits the completions of that chart |
| Counterexamples.DoneOnIsRanked | microstep.go:211-230 | an ordinary completion edge that leads on is ranked |
| Counterexamples.NestedFinalCounts | microstep.go:320-334 | the start of a chart stages the completion of a parallel although the active child of one region is a compound; the documented rule does not stage it |
| DeepOverParallel.RestoresTooMuch | transition.go:274-277 | restoring the first of two recorded leaves enters the default of the other region, not the second leaf, which is then added to it |
| DeepOverParallel.DeepOverParallelBreaksLegality | transition.go:269-278 | a run that starts legal, leaves a compound over a parallel and returns through deep history ends with two states of one region active |

## Left out

- Microsteps.RootEdgeExactly: of an edge of the root taken together with other edges only what `Microsteps.StagedInhabited` says is proved; what it enters can depend on what the others enter, so whether the result is legal has no condition on that edge alone.
- Defaults.StagedExactly: of a record with several nodes, of a history node with a record that is the initial state of a compound, and of edges of the root the exact set is not given this way; the round trips of HistoryRuns and `Microsteps.StagedInhabited` say what is entered then.
- Machines.TimersFollow: an edge of the root can enter a state that is active already and arm its timers once more; then the state holds more than the timers of its latest entry, and how many is not stated.
- Machines.Machine.RunMacrostep: a bound on the microsteps of one macrostep is a parameter, because a macrostep need not end; what a caller would see during an endless one is not modelled.
- Rankings.RankedMacrostepsTerminate: that completions are ranked is sufficient, not necessary; whether a circle of completions ends depends on guards and context.
- Machines.Machine.DrainAndClose: what other goroutines enqueue during the drain comes in one batch per item.
- Machines.Machine.RemoveSub: the identity of a subscription is a number instead of a reference.
- Machines.Machine.NotifySubs: a slow subscriber blocks the actor in the code; here a send always succeeds.
- Machines.Machine.ReconcileInvokes: a runner that emits more than the mailbox holds while it starts blocks the actor in the code; here there is always room.
- Build.Builder.BuildNode: the side table from nodes to parsed objects is not modelled.
- Targets.ResolveTarget: the pass that applies it to every edge and history node is not modelled, nor is the text of error messages.
- The second result of the entry computation (states entered by default) is not modelled: nothing reads it.
- buildContents, parsing of delays and descriptors, and JSON reading: they would only add easy members; what they establish is assumed in `Definitions.WellFormed`.
- History under a parallel, history with a default that is no sibling, and a parallel root: the loader accepts them, but they are excluded by `Definitions.WellFormed`.
- Delivery of `send` effects to children (drainOutbox) and the address lookup: the effects are part of the staged microstep, the delivery is I/O.
- The actor adapters, the inner working of children, and the observers of actors and timers.
- Goroutines, channels and locks: the actor is one sequential object, and other goroutines act between its methods.
- Overflow of durations, and version or handle counters beyond the machine's integers.
- Go's library sorts are functions that are proved to sort; their algorithm is not modelled.
- Mermaid and text rendering, the live screen, the rest of the code generator, and the command line.
