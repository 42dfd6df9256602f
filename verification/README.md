# A model of the browser's core algorithms

The repository is a headless browser written in Go. This project models, in Dafny, the algorithms
under it that need neither a script engine nor a network, and proves what they promise.
`dafny verify dfyconfig.toml` checks all of it.

| file | what it models |
|---|---|
| DomTree.dfy | the five-pointer node tree and its mutations, on heap objects |
| Templates.dfy, Grafting.dfy, Serialization.dfy | taking template contents out of the tree, putting them back and out again, and serializing in between |
| TreeWalkers.dfy | stackless document-order traversal with a filter |
| Calc.dfy, CalcLexing.dfy, CalcPrinting.dfy, CalcMeaning.dfy, CalcReader.dfy | calc(): its grammar as functions, a printer of expression trees, their meaning at every container width, and the cursor parser |
| CustomProperties.dfy | custom properties and var(), expanded in place over a map iterated in any order |
| Cascade.dfy, StyleEngines.dfy | the cascade of one element, and memoised style computation |
| ModuleLoader.dfy | loading and evaluating a module graph, with dynamic imports from running bodies |
| AbortSignals.dfy | abort propagation over a graph of signals |
| Timers.dfy | the timer queue and the loop that runs it |
| WebSockets.dfy | the socket reader and the page, interleaved by locked sections |
| Robots.dfy | robots.txt matching, precedence and grouping |
| Woff.dfy | repacking WOFF as sfnt, with a reader for the result |
| Grid.dfy | sizing grid columns |
| Encoders.dfy | urlencoded and base64 output, with the decoders of the standards |
| CssText.dfy | comment stripping and top-level splitting |
| Wrappers.dfy | types that several modules share |

Objects that the source updates in place are classes here (nodes, the document, the page, the walker,
the calc cursor, modules and their loader, signals, timers, the socket, the style engine). The three
protocols (modules, timers, sockets) share one form: a log of events, a predicate saying which event
may come next, class methods that keep the log lawful, and theorems about every lawful log.

## What the proofs found

Each of these is stated by a member of the table below.

- insertBefore, replaceChild and insertAfterNode do not check that the reference node is a child of the
  parent and differs from the node. When it is not, the pointers are corrupt; when it is, they are right.
- insertAfterNode does not count as a DOM mutation, so caches keyed on the counter stay.
- previousNode leaves the walker's root out. At the root it jumps to the last accepted node of the tree,
  where the DOM Standard returns null; elsewhere in the tree it returns null where the standard returns an
  accepted root. From a cursor that has left the tree it jumps to the last accepted node too, where the
  standard looks back from the cursor. For filters that accept or skip it agrees in exactly the other cases.
- serialize leaves the document unchanged exactly when no template it fills had children of its own, as
  long as no template it can reach is inside its own contents; such children end up in the fragment. If
  one is, and no fragment is in a child list, a node drops out of the child lists for good.
- A unary plus in calc() is right exactly on zero, as it negates. clamp() differs from CSS exactly when its
  bounds are out of order and the value is not below the lower one.
- In-place var() expansion depends on map iteration order exactly when some property comes out differently
  after some others than at the start. A property that fails, met by a reference with a working fallback,
  is enough; so is one that expands to white space, met by a reference with another fallback.
- The style cache assumes one root. A second tree is resolved against the first root's font size, so it is
  right for sure exactly when a rem of the first root is the initial one. What is queried of the first tree
  only afterwards is resolved against the second root's, so it is right for sure exactly when that root has no
  font size or the same.
- A module that fails still counts as evaluated, so an importer that comes to it later runs; section
  16.2.1.5 of ECMA-262 has it fail with the same error. A body starts after a failure only in a module
  entered after it, or below a running body, where the failure ends; there it can start, if it compiles,
  as soon as its own imports have been entered.
- clearTimeout(0) clears every task the host has deferred. setInterval with a period of 0 fires once. A
  one-shot timer whose callback panics is the next to fire, again and before every other timer, unless it
  is cleared.
- Every close call of a page gives a close event of its own.
- With several robots.txt tokens of the same greatest length in the user agent, the group depends on map
  iteration order exactly when their rules differ, and the verdict on a path when the rules disagree on it.
- A robots.txt group that holds nothing but an empty Disallow is forgotten, so the "*" group or a shorter
  token applies instead. RFC 9309 lets such a user agent fetch everything.
- The "$" of a robots.txt pattern does not count towards its length. AnchorShows says exactly
  when that changes a verdict: it makes a tie of an anchored disallow with an allow that has no anchor, or
  puts an anchored allow behind a disallow that has none and is one character longer.

## Model

| member | source | states |
|---|---|---|
| `DomTree.Dom.IsAncestor` | browser/dom_tree.go:44-52 | the climb over parent pointers decides membership in the subtree of the first node |
| `DomTree.Dom.AppendChild` | browser/dom_tree.go:63-82 | keeps the five-pointer invariant; the child list becomes remove-then-append; a null argument or an ancestor leaves every pointer and the counter alone |
| `DomTree.Dom.RemoveChild` | browser/dom_tree.go:84-104 | keeps the invariant; the node leaves its parent's list and becomes a root, every other list stays; counts one mutation if it had a parent |
| `DomTree.Dom.InsertBefore` | browser/dom_tree.go:106-127 | for every reference node: when it is absent, or a child of the parent other than the node, the node stands right before it and the invariant holds; when it is not, the node ends with sibling pointers no tree has |
| `DomTree.Dom.ReplaceChild` | browser/dom_tree.go:129-136 | for every old node: a null argument or a cycle changes nothing; a child of the parent other than the new node gives up its place to it and becomes a root; any other old node leaves pointers no tree has, at the new node, the parent or the node that had the old one |
| `DomTree.Dom.InsertAfterNode` | browser/page.go:605-625 | as InsertBefore, one place later; the insertion itself counts no mutation unless it is an append |
| `DomTree.UnlinkedIsTree` | browser/dom_tree.go:84-104 | cutting one node out of the pointers of any well-formed forest leaves a well-formed forest |
| `DomTree.InsertedIsTree` | browser/dom_tree.go:63-127 | joining a root node at any index under a node outside its subtree leaves a well-formed forest |
| `DomTree.PlacedMeaning` | browser/dom_tree.go:63-127 | a placed node is at the stated index, in that list only, and all other nodes keep their order |
| `DomTree.RemoveThenReinsert` | browser/dom_tree.go:84-127 | inserting a removed node before its old next sibling gives back the forest |
| `DomTree.NoCycle` | browser/dom_tree.go:43-52 | no node of a well-formed forest is below one of its children |
| `DomTree.Climb` | browser/dom_tree.go:43-52 | one step up the parent pointer keeps the answer to "is it below a" |
| `DomTree.Dom.Pointers` | browser/dom_tree.go:63-127 | in a valid document firstChild, nextSibling and parent spell out the abstract child lists |
| `DomTree.Dom.ValidIsNotBroken` | browser/dom_tree.go:106-136 | the sibling and child pointers a misplaced insertion or replacement leaves occur in no valid document |
| `Templates.MoveChildren` | browser/page.go:793-798 | the loop that empties one node moves all its children, in order, to the end of another, except a child that is the destination or above it: that one is in no list afterwards |
| `Templates.MakeFragment` | browser/dom_tree.go:293-318 | a new fragment has exactly the children of the template, which is left empty |
| `Templates.ExtractWalk` | browser/dom_tree.go:293-318 | the recursive walk empties exactly the templates below the node, nested ones included, each into a fragment of its own |
| `Templates.TransferredTwice` | browser/dom_tree.go:293-318 | two transfers of disjoint nodes are one transfer |
| `Serialization.Page.ExtractTemplateContents` | browser/dom_tree.go:293-318 | the page's template map holds exactly the templates below the root, with fresh fragments that hold their former children |
| `Serialization.ExtractedIsInert` | browser/dom_tree.go:288-318 | after extraction no template below the root or below any fragment has children |
| `Serialization.NothingIsLost` | browser/dom_tree.go:293-318 | every node of the tree is afterwards below the root or in the fragment of some template |
| `Grafting.GraftNode` | browser/page.go:788-800 | one step of the graft: unless a node drops out, the template has its own children followed by those of its fragment, which is empty; a node drops out only if the template is inside its own contents |
| `Grafting.GraftWalk` | browser/page.go:785-807 | the walk ends for every placement of fragments and every nesting of contents; unless a node drops out, only templates below the node are filled, the list records exactly what has moved, and no template below has anything left in its fragment; if one drops out, a reachable template is inside its own contents |
| `Grafting.FilledIs` | browser/page.go:785-807 | the templates filled are exactly those with a non-empty fragment that child lists and contents lead to, as they were before the walk |
| `Grafting.CyclicLoses` | browser/page.go:785-807 | with the fragments in no child list, a walk that meets a template inside its own contents always loses a node |
| `Grafting.UngraftTemplates` | browser/page.go:810-819 | unless a node drops out, every recorded template is emptied into its fragment; if the filled templates had no children of their own, one drops out only where a template is inside its own contents |
| `Serialization.Render` | browser/page.go:749-761 | the traversal over child pointers gives the markup of the abstract tree |
| `Serialization.Page.Serialize` | browser/page.go:749-762 | for every page and node: without a reachable template inside its own contents the output is the markup of the tree with the contents of all reachable templates, and the document is afterwards as before if and only if no filled template had children of its own; with one, and the fragments in no child list, a node drops out of the child lists; in any case it is as before exactly when no filled template had children and no node has dropped out of the lists |
| `Grafting.RestoredIff` | browser/page.go:785-819 | a graft and ungraft that lose no node are the identity exactly when the filled templates had no children |
| `Serialization.AttachUndoesExtract` | browser/page.go:785-806 | putting what was extracted back gives every node its original children |
| `Serialization.ExtractionIsSound` | browser/dom_tree.go:293-318 | what extraction leaves meets the precondition of Serialize: fragments in no list, bare templates, none inside itself |
| `Serialization.RoundTrip` | browser/page.go:749-819 | serializing an extracted tree gives the markup of the original tree and changes nothing |
| `TreeWalkers.PreorderHas` | browser/js_web.go:792-805 | document order lists exactly the subtree |
| `TreeWalkers.PreorderIsDistinct` | browser/js_web.go:792-805 | document order lists no node twice |
| `TreeWalkers.StepUp` | browser/js_web.go:797-804 | where a node has no child left, its next sibling, or that of the nearest ancestor with one, is next in document order |
| `TreeWalkers.TreeWalker.DocumentOrderNext` | browser/js_web.go:793-808 | from any node, inside the walk's tree or out of it: the next node in document order of its tree, or null after the last |
| `TreeWalkers.TreeWalker.NextNode` | browser/js_web.go:810-821 | from any node: the first accepted one among the next 5,000,000 ahead, which are those up to the walker's root and then those below it; the cursor moves only when there is one |
| `TreeWalkers.TreeWalker.PreviousNode` | browser/js_web.go:822-837 | the last accepted node before the current one without the root; at the root, or when the current node has left the tree, the last accepted node of the tree |
| `TreeWalkers.TreeWalker.HasPlace` | browser/js_web.go:793-808 | every node of the document has a place in document order that the two methods can start from |
| `TreeWalkers.TreeWalker.Walk` | browser/js_web.go:810-821 | repeated nextNode from the root delivers exactly the accepted nodes below it, once each, in order, and stops |
| `TreeWalkers.PreviousUndoesNext` | browser/js_web.go:810-837 | what previousNode gives at the node nextNode has found is the node before: below the root, and null for the root itself |
| `TreeWalkers.PreviousMeetsStandard` | browser/js_web.go:822-837 | for a cursor in the tree, at most 5,000,000 nodes and a filter that accepts or skips, previousNode gives what the DOM Standard asks for if and only if, at the root, no node below it is accepted, and elsewhere, some node before the current one but the root is accepted or the root is not |
| `TreeWalkers.TreeWalker.OutsideMeetsStandard` | browser/js_web.go:822-837 | for a cursor that has left the tree, wherever it is: where the walk's tree comes before it, the two agree if and only if nothing between is accepted and something below the root is, or nothing from the root back; elsewhere, if and only if nothing before the cursor and nothing below the root is |
| `CalcReader.EvalCalc` | browser/css_values.go:190-201 | the cursor evaluator computes the value the grammar gives, on every string, and terminates |
| `CalcReader.CalcParser.Sum` | browser/css_values.go:224-250 | reads the sum at the cursor and leaves the cursor at the rest |
| `CalcReader.CalcParser.Product` | browser/css_values.go:252-288 | reads the product at the cursor |
| `CalcReader.CalcParser.Factor` | browser/css_values.go:292-345 | reads the factor at the cursor: group, signed factor, function call or number |
| `CalcReader.CalcParser.CallHere` | browser/css_values.go:348-366 | finds name, argument text and end of a call, or leaves the cursor where it was |
| `CalcReader.CalcParser.NumberHere` | browser/css_values.go:328-344 | reads a literal and converts it by its unit |
| `CalcReader.CalcParser.NumberText` | browser/css_values.go:433-454 | reads the longest number, exponent only when a digit follows |
| `CalcReader.FunctionValue` | browser/css_values.go:368-431 | calc, min, max and clamp of argument texts |
| `CalcReader.CompareValues` | browser/css_values.go:378-430 | the comparison loop picks what the same-axis rule picks |
| `CalcReader.MatchingParen` | browser/css_values.go:1396-1410 | the position of the parenthesis that closes the one given, or -1 |
| `CalcReader.SplitGridArgs` | browser/css_values.go:2808-2830 | the arguments between top-level commas |
| `CalcPrinting.EvaluatesText` | browser/css_values.go:190-345 | every printed form of an expression tree, with any spacing, redundant parentheses and letter case, evaluates to the tree's own value: precedence and left associativity are those of the tree |
| `CalcMeaning.EvaluatorMeans` | browser/css_values.go:224-345 | the linear form exists exactly when the tree is defined and is its value at every width W of at least 0 |
| `CalcMeaning.CalcIsCorrect` | browser/css_values.go:190-431 | evaluation of a printed tree succeeds if and only if its literals are read and it is kind-correct without division by zero, and then pct*W + px is its pointwise value |
| `CalcMeaning.ClampMeetsCss` | browser/css_values.go:410-419 | clamp is max(lo, min(v, hi)) if and only if lo is at most hi or v is below lo |
| `CalcPrinting.UnaryPlusMeetsCss` | browser/css_values.go:310-317 | a unary plus gives the value itself if and only if that is zero |
| `CustomProperties.ExpandVars` | browser/css_values.go:1344-1384 | the builder loop computes the expansion of a token list, on every input |
| `CustomProperties.ExpandTrims` | browser/css_values.go:1373-1378 | expansion without blank references commutes with trimming |
| `CustomProperties.Shallower` | browser/css_values.go:1348-1350 | an expansion that succeeds within the depth bound gives the same result at any smaller depth |
| `CustomProperties.SameExpansion` | browser/css_values.go:1616-1622 | over a map in which any properties were already dealt with in place, expanded or deleted, a value that expanded without meeting a blank expands to what it did at the start |
| `CustomProperties.OneResultWhen` | browser/css_values.go:1616-1622 | the in-place loop has one result, in whatever order the map is iterated, if and only if each property has the outcome it has at the start whatever set of others was dealt with before |
| `CustomProperties.OneResultWhenSolid` | browser/css_values.go:1616-1622 | when no property that expands meets a blank: one result if and only if every property that does not expand still does not when dealt with last |
| `CustomProperties.AllExpandOneResult` | browser/css_values.go:1616-1622 | when every property expands, and none meets a blank, there is one result and it has all of them |
| `CustomProperties.AnyOrder` | browser/css_values.go:1616-1622 | one result is that of the simultaneous substitution, without the properties that do not expand |
| `CustomProperties.ExpandOwn` | browser/css_values.go:1603-1622 | the loop with its arbitrary iteration order is one of these runs, so it ends with the simultaneous substitution when there is one result |
| `CustomProperties.FailureShows` | browser/css_values.go:1616-1622 | for all maps: the order shows as soon as a property is a reference to one that fails and has a fallback that expands without it |
| `CustomProperties.BlankShows` | browser/css_values.go:1616-1622 | for all maps: the order shows as soon as a property is a reference to one that expands to white space, with a fallback that comes to something else than what that one stood for |
| `Cascade.SortedWinner` | browser/css_values.go:1583-1596 | after the stable sort the last entry that writes a property is the greatest one by importance, specificity and order, the later position breaking ties |
| `Cascade.CascadeWinner` | browser/css_values.go:1583-1640 | a property is declared if and only if some entry contributes to it, and its value is the winner's |
| `Cascade.AnyRuleOrder` | browser/css_values.go:1564-1640 | permuting rules with distinct order numbers changes no declared value, for any effect of declarations |
| `Cascade.Collect` | browser/css_values.go:1564-1582 | the entries of matching rules, in order, followed by the style attribute |
| `Cascade.ComputeDeclared` | browser/css_values.go:1564-1640 | the two passes write exactly the expanded declarations of the sorted entries |
| `Cascade.StyleIsDetermined` | browser/css_values.go:1564-1640 | neither rule order nor map iteration order shows in custom properties or declared values, when the custom properties have one result |
| `StyleEngines.StyleEngine.Compute` | browser/css_values.go:1497-1516 | the memoising method refines the state function of a query |
| `StyleEngines.QueryIsPlain` | browser/css_values.go:1497-1516 | a query on a sound cache returns the plain recursive style, in which rem is the root's font size, and keeps the cache sound |
| `StyleEngines.AnyQueries` | browser/css_values.go:1497-1516 | under one root the style of a node is the same whatever was queried before |
| `StyleEngines.SecondTreePlain` | browser/css_values.go:1497-1516 | after any queries of a first document, a second root and what is under it have their plain styles, for every way of computing styles that gives the first root the style it has, if and only if a rem of the first document is the initial one |
| `StyleEngines.FirstTreePlain` | browser/css_values.go:1497-1516 | once a second root has been queried, after any later queries, an element of the first document has its plain style, for every way of computing styles that gives both roots the styles they have, if and only if it was queried before the second root or the second root has no font size or that of the first |
| `ModuleLoader.Loader.Load` | browser/js_module.go:111-147 | registers the module and everything new along static imports, links all imports that can be had, touches no module that was there, and fails exactly when the text cannot be had |
| `ModuleLoader.Loader.ReachableIsLoaded` | browser/js_module.go:111-147 | whatever can be reached along imports that can be had from a registered module is registered |
| `ModuleLoader.Loader.Evaluate` | browser/js_module.go:150-200 | every event of the evaluation is one the rules below allow; it returns with the stack it began with; it fails exactly when an import just failed, the program does not compile or the body throws |
| `ModuleLoader.Loader.EvaluateImports` | browser/js_module.go:156-160 | imports in any order, stopping at the first that fails |
| `ModuleLoader.Loader.DynamicImport` | browser/js_module.go:174-195 | resolves, loads and evaluates on behalf of a running body or from outside; an already entered module is answered at once |
| `ModuleLoader.Loader.RunBody` | browser/js_module.go:161-199 | a body may import dynamically any number of times and is answered as the rules say |
| `ModuleLoader.RunModuleScript` | browser/js_module.go:94-108 | a new loader, one load, one evaluation; if nothing fails every reachable module has run to its end |
| `ModuleLoader.EachOnce` | browser/js_module.go:150-155 | over any sequence of evaluations and dynamic imports, cycles included, each module is entered, started and left at most once |
| `ModuleLoader.OpenModules` | browser/js_module.go:150-155 | the evaluation stack is exactly the modules entered and not left |
| `ModuleLoader.ReadyWhenRun` | browser/js_module.go:156-172 | when a body starts each static dependency has been evaluated, successfully or not, or is on the stack |
| `ModuleLoader.DependenciesFirst` | browser/js_module.go:156-199 | in an acyclic graph every import has been left before the importer starts, and without errors has run from start to end |
| `ModuleLoader.FailureStops` | browser/js_module.go:157-160 | when an import fails the importer on the stack below fails next and never runs |
| `ModuleLoader.RunsAfterFailure` | browser/js_module.go:150-200 | over any run, a body that starts after a failure belongs to a module that was entered after it, or some body was running above that module on the stack |
| `ModuleLoader.SecondImporterRuns` | browser/js_module.go:150-172 | a module can be entered and its body run at once if and only if it may be entered, compiles, and its imports have been entered; that one of them failed does not count |
| `ModuleLoader.CaughtImporterRuns` | browser/js_module.go:161-199 | when a dynamic import has failed in a running body, the body can end well and the importer below it run, if and only if that compiles and its imports have been entered |
| `ModuleLoader.EverythingRuns` | browser/js_module.go:150-200 | in a finished run without errors whatever an evaluated module reaches has run |
| `AbortSignals.Signal.Abort` | browser/js_abortsignal.go:97-125 | terminates on any dependents graph, cycles and sharing included; newly aborted are exactly the signals it lists, all with the one reason, and the calls are theirs, onabort first; run on its own it aborts exactly what is reachable |
| `AbortSignals.AbortSignal` | browser/js_abortsignal.go:97-139 | keeps "what is derived from an aborted signal is aborted"; every listener of a newly aborted signal is called as often as it was registered, and no other |
| `AbortSignals.CalledOnce` | browser/js_abortsignal.go:110-124 | the calls for a list of distinct signals contain each listener as often as its signal had it |
| `AbortSignals.Any` | browser/js_abortsignal.go:175-194 | derived from all its sources, or aborted with the reason of the first aborted one; keeps the invariant; only the sources' dependents change |
| `AbortSignals.Signal.AddListener` | browser/js_abortsignal.go:52-66 | appended, or called at once when the signal is aborted |
| `AbortSignals.Signal.RemoveListener` | browser/js_abortsignal.go:68-76 | the first registration goes, and only that |
| `Timers.Queue.AddTimer` | browser/js_env.go:856-881 | one more timer with the next id, due after its delay; nothing without a callable |
| `Timers.Queue.ScheduleDelay` | browser/js_env.go:886-900 | one more timer without an id |
| `Timers.Queue.ClearTimer` | browser/js_env.go:904-914 | marks exactly the timers with that id |
| `Timers.Queue.Invoke` | browser/js_env.go:975-984 | fires the timer, performs exactly what its callback asks, and re-arms, clears or (after a panic) leaves it |
| `Timers.Queue.FindEarliest` | browser/js_env.go:932-940 | the earliest timer not cleared, the first set among equals |
| `Timers.Queue.RunTimers` | browser/js_env.go:926-973 | keeps the run rules; at most one firing a round; if it stops before the rounds are used up everything left is due after the budget, and if they are used up every round but those with only messages or an open socket has fired a timer |
| `Timers.FiringOrder` | browser/js_env.go:926-973 | over a whole run due times of fired timers never decrease and no timer fires early, whatever callbacks add or clear |
| `Timers.ClearedNeverFires` | browser/js_env.go:904-914 | no timer present at a clear with that id fires afterwards |
| `Timers.OneShotOnce` | browser/js_env.go:975-984 | a timer without a period (an interval of 0 is one) fires twice only if its callback panicked in between |
| `Timers.PanickedFiresNext` | browser/js_env.go:975-984 | after a callback of such a timer has panicked, the next timer to fire is that one again, before all others, unless it is cleared |
| `Timers.FiresAgainWhen` | browser/js_env.go:975-984 | a timer without a period fires more than once if and only if its callback panics and anything fires afterwards while it is not cleared |
| `Timers.CallOrder` | browser/js_env.go:932-940 | of two timers set with equal delays, or the earlier with the smaller, the second fires only after the first has fired or been cleared |
| `Timers.UnfiredKeepsDue` | browser/js_env.go:856-900 | until it fires a timer is due when it was set to be |
| `Timers.Ids` | browser/js_env.go:860-862 | ids given out are positive and unique; host tasks have id 0 |
| `Timers.ClearHits` | browser/js_env.go:904-914 | a clear with an id given out hits that timer alone, and a clear of 0 hits every host task |
| `WebSockets.Fifo` | browser/js_websocket.go:144-222 | in every interleaving delivered messages followed by the queue are the messages received |
| `WebSockets.Ends` | browser/js_websocket.go:144-222 | an end is pending or has been reported once the reader has stopped, drain reports at most once, and what it is about to report no close call has reported |
| `WebSockets.EndIsReported` | browser/js_websocket.go:216-230 | after the reader has stopped, the next look by drain leaves at least one close event |
| `WebSockets.ReportedFirst` | browser/js_websocket.go:177-222 | drain reports an end only before the first close call |
| `WebSockets.OneCloseEvent` | browser/js_websocket.go:144-230 | there is at most one close event if and only if the page calls close at most once and not after drain reported the end |
| `WebSockets.SecondCloseFiresAgain` | browser/js_websocket.go:177-194 | every completed close call adds one close event |
| `WebSockets.Socket.ReadStep` | browser/js_websocket.go:144-166 | one turn of the reader is one allowed step |
| `WebSockets.Socket.Close` | browser/js_websocket.go:177-194 | two locked sections with the reader free to act between them; ends closed, nothing pending, one more event |
| `WebSockets.Socket.Drain` | browser/js_websocket.go:199-230 | delivers from the front, any number of messages, with handlers that may close; reports a pending end exactly once; returns whether it did anything |
| `Robots.RobotsMatch` | browser/net_robots.go:94-138 | accepts exactly the paths the pattern matches as a glob, as a prefix or with "$" as a whole; the length is that of the pattern without its anchor |
| `Robots.Greedy` | browser/net_robots.go:117-132 | taking the leftmost occurrence of a part loses no match |
| `Robots.LastPart` | browser/net_robots.go:133-136 | a star and a last part match exactly the texts that end with it |
| `Robots.RobotsAllowed` | browser/net_robots.go:43-59 | the longest matching rule decides and allow wins ties; stated on the set of rules, so order and repetition do not matter |
| `Robots.AnchorShows` | browser/net_robots.go:94-103 | not counting the "$" changes the verdict if and only if it makes a tie of a longest anchored disallow and longest allows without an anchor, or puts an anchored allow behind longest disallows without an anchor that are one character longer than its core |
| `Robots.ParseRobots` | browser/net_robots.go:160-201 | a token has a group if and only if it governs a rule line that is not an empty disallow, and its rules are those of the lines it governs: no rule line followed by a user-agent line comes between |
| `Robots.GroupFor` | browser/net_robots.go:75-89 | the group of a longest token contained in the user agent, or the "*" group, in whatever order the map is iterated |
| `Robots.ChoiceDetermined` | browser/net_robots.go:75-89 | the choice does not depend on map iteration if and only if the longest contained tokens have equal groups |
| `Robots.Verdict` | browser/net_robots.go:43-59 | of file, user agent and path alone: the rules that decide are those of a longest token with rules that occurs in the user agent, or else of "*" |
| `Robots.VerdictDetermined` | browser/net_robots.go:43-59 | the verdict on a path does not depend on map iteration if and only if the rules of all tokens that may apply agree on the path |
| `Robots.EmptyGroupForgotten` | browser/net_robots.go:190-193 | the token RFC 9309 section 2.2.1 selects applies if and only if it has rules; if it has none it allows everything by itself |
| `Robots.StandardVerdict` | browser/net_robots.go:75-89 | with one matching token the verdict is the standard's if and only if the token has rules or what applies in its place allows the path |
| `Robots.ForbiddenToFoo` | browser/net_robots.go:190-193 | for every foo: "User-agent: foo" with an empty disallow, followed by everything forbidden to "*", forbids foo everything |
| `Woff.UnpackWoff` | browser/css_webfont.go:187-274 | for every input, an error for exactly the bad directories and tables, or the assembled sfnt of the parsed tables; every index is in bounds |
| `Woff.Unpacked` | browser/css_webfont.go:187-274 | a reader of the output finds the flavor and, for each WOFF entry, tag, checksum and exact body, when the file is shorter than 4 GiB |
| `Woff.ReadBack` | browser/css_webfont.go:229-272 | reading an assembled sfnt gives back flavor and tables |
| `Woff.Regions` | browser/css_webfont.go:244-272 | table regions are in order and do not overlap, inside the file |
| `Woff.Aligned` | browser/css_webfont.go:244-272 | every table offset is a multiple of four |
| `Woff.SearchFields` | browser/css_webfont.go:232-242 | the entry selector bounds the table count between consecutive powers of two, and the search fields are exact below 4096 tables |
| `Woff.MakeHeader` | browser/css_webfont.go:229-242 | the twelve header bytes, with the loop over powers of two |
| `Woff.AppendPadded` | browser/css_webfont.go:267-272 | the body followed by zeros up to a multiple of four |
| `Woff.PutGet32` | browser/css_webfont.go:278-288 | a 32-bit field reads back what was put, modulo its width |
| `Grid.Resolve` | browser/css_values.go:1103-1180 | the loops give every column the size defined for it |
| `Grid.NotNegative` | browser/css_values.go:1129-1178 | no column is negative |
| `Grid.Conservation` | browser/css_values.go:1153-1178 | with a flexible or automatic column the sizes add up to at least max(free width, fixed total), and to exactly that if and only if no flexible minimum is above its share |
| `Grid.AutoFillFits` | browser/css_values.go:1104-1120 | for repeat(auto-fill, minmax(m, 1fr)) with 0 < m <= width and gap >= 0: equal columns of at least m that fill the width exactly, and below the cap one more would not fit |
| `Encoders.Encode` | browser/js_webapis.go:629-646 | the URL Standard parser gives back exactly the entries from the body |
| `Encoders.FormBack` | browser/js_webapis.go:638-646 | the same for the encoded form as a function of the entries |
| `Encoders.UrlEncode` | browser/js_webapis.go:675-694 | the loop encodes every byte as the function of the text does |
| `Encoders.TextBack` | browser/js_webapis.go:675-694 | percent decoding after plus-to-space gives back the text |
| `Encoders.Base64Std` | browser/js_webapis.go:1500-1527 | an RFC 4648 decoder gives back exactly the bytes |
| `Encoders.Base64Back` | browser/js_webapis.go:1500-1527 | strict group decoding inverts the encoding, for all inputs |
| `CssText.StripComments` | browser/css_parse.go:178-217 | the loop replaces every comment outside quotes by a space and leaves no comment opener there |
| `CssText.StripCleans` | browser/css_parse.go:178-217 | stripped text holds no comment outside quotes |
| `CssText.StripTwice` | browser/css_parse.go:178-217 | stripping is idempotent |
| `CssText.StripKeepsStrings` | browser/css_parse.go:190-200 | quoted text is untouched |
| `CssText.SplitTopLevel` | browser/css_parse.go:679-714 | the loop gives the pieces between separators outside quotes and brackets |
| `CssText.PiecesJoin` | browser/css_parse.go:679-714 | the pieces joined by the separator are the text |
| `CssText.PieceAlone` | browser/css_parse.go:679-714 | each piece splits to itself |

## Left out

- Floating point: lengths, widths and shares are exact reals; rounding, infinities and NaN are not modelled.
- strconv.ParseFloat, zlib, fetching, selector matching, shorthand expansion and rem rewriting are parameters.
- Letter case is ASCII only, and text outside the byte-level encoders is a sequence of characters.
- Fixed-width integers: ids, lengths and clocks are unbounded, except for the fields of an sfnt file.
- Serialization.Page.Serialize: where a reachable template is inside its own contents and script has put fragments into child lists, whether a node drops out depends on the order of the walk and is not characterised beforehand, nor is the markup; the template map has to send different templates to different nodes that are no templates, as extraction and templateContentNode see to.
- Serialization.Render: markup is a list of opening and closing tags named by their nodes; text, attributes, escaping and void elements are those of html.Render, which is not part of this model.
- TreeWalkers.PreviousMeetsStandard: for filters that accept or skip; a filter that rejects hides no subtree in the source. OutsideMeetsStandard is about cursors that have left the tree.
- serializeInner, setTextContent and setInnerHTML; the last two do not keep the pointers of the removed children.
- CalcMeaning.CalcIsCorrect: speaks of texts that print an expression tree; a text with a unary plus prints none, and what the evaluator does with it is stated by UnaryPlusMeetsCss.
- CalcReader.CalcParser.NumberHere: splitCSSNumber reads no exponent, so a length such as 1e2px has no value in the model either; units are those of cssLengthToPxV at a given font size and viewport.
- CustomProperties.ExpandVars: works on token lists, so unbalanced parentheses, white space other than that of the tokens, and references in upper case, which the source notices only beside a lower-case one, are not modelled.
- CustomProperties.OneResultWhenSolid: where a property that expands meets a blank, OneResultWhen is the exact condition.
- Cascade.ComputeDeclared: the last matching rule for a generated box, and everything computed from the declared values, are not modelled.
- Import map lookup: resolution is a function of importer and specifier; with several matching prefixes the source picks by map order.
- ModuleLoader.Loader.RunBody: a body is a finite tree of dynamic imports; exports, and bodies that do not end, are not modelled. Promise reactions are part of the body.
- rewriteModule, splitTopLevelStatements and skipString: the text of a module is given with its specifiers. rewriteModule never returns an error, so the branch of load for one (browser/js_module.go:127-129) is never taken and not modelled.
- AbortSignals.Signal.Abort: listeners do not call back into signals; dispatchEvent and throwIfAborted are not modelled.
- Timers.Queue.RunTimers: time is an abstract clock, what sockets and workers deliver are given scripts, and a nested call of the loop from a callback is not modelled. Mutation observers count as part of the callback.
- WebSockets.Socket.Drain: the order of the last message relative to the close event is not claimed, since the lock is released between the two checks; send and the handler tables are not modelled.
- Robots.RobotsAllowed: takes the escaped path with its query; a URL that does not parse, or a missing file, allows everything and is not modelled. Percent-encoding is not normalised, as in the source.
- Robots.ParseRobots: starts from lines already freed of comments and white space and cut at the colon.
- Woff.Unpacked: for files of 4 GiB and more offsets wrap, and nothing is claimed.
- Woff.SearchFields: from 4096 tables on the search range wraps at 16 bits.
- Grid.Resolve: shares are of non-negative fr values, as the track parser only produces those; line names, named areas and the placement of items are not modelled.
- Encoders.Encode: the branch without files; multipart bodies are not modelled, and names and values are bytes, not decoded text.
- Style sheets, selectors, layout, canvas, storage, cookies, history, HTTP and the command line.
