# ZDeceptron: a model of its compiler core, with proofs

A Dafny model of the parts of the ZDeceptron compiler and its tooling whose correctness is an argument rather than a
table, and proofs of what those parts promise. `dafny verify dfyconfig.toml` verifies all of it.

- **Reachability and reactivity** (`Reachability`, `Hir`, `Walkers`, `Mentions`, `Reads`, `Readings`, `Analysis`,
  `Verdicts`, `Deferral`, `Regions`). Which functions read a signal, which definitions one document ships, what operator
  dispatch adds to a bundle, and which definitions can be moved behind a view `if`. The two walkers over expressions,
  blocks and nodes are proved to agree, and to find what some part, however deep, mentions; every worklist is proved
  equal to graph reachability, and its answer to what explicit paths lead to.
- **Keyed reconciliation** (`Siblings`, `Moves`, `Reconciler`). The moving-cursor reconciler as a class that edits one
  sibling list in place: the order it reaches, which nodes survive, what is removed, disposed of and rendered, and what
  a walk costs in `insertBefore` calls. `insertBefore` on an attached node moves it, as section 4.2.3 of the WHATWG DOM
  Standard says.
- **Hashed asset names** (`Hash`, `Paths`, `Climbs`, `Assets`). FNV-1a, the specifier resolver and what `..` does to a
  specifier, the scan of a stylesheet's references and the renaming pass.
- **Printers and their readers** (`Decimal`, `Tables`, `Literal`, `Serialiser`, `Overlays`, `Durations`, `Shortest`,
  `Cadence`). The build-time value serialiser, with the objects that answer for themselves and the chains of writes
  that a look flattens, against a reader of what it prints (strings as in section 7 of RFC 8259, tables and records as
  sections 24.1 and 10.1.11 of ECMA-262 keep them); durations and how long their spellings are; the nineteen cadences
  against cron, rates and real time.
- **Scheduling** (`Names`, `PublishOrder`). The layered publish order and its exact failure condition.
- **Scanners and measures** (`Characters`, `Parts`, `BlankOut`, `Tokens`, `Spans`, `Scaling`). The document splitter,
  the literal-blanking lexer against the tokens of the language, delimiter matching, the duplication measure, the
  shared prefix and the bisection.

Code that changes state is a method or a class proved against a specification function; code that is an expression is
a function. Each main result then relates that function to something independent of it.

## Where the code and what is written about it differ

The model follows the code. Each of these is a lemma, or the contract of the method named.

- A release is never marked reactive, although the comment on `res_is_reactive` says that answer is computed: the
  verdicts are the ideal ones exactly when no release reads a signal (`VerdictsAreIdealIffReleasesClosed`, with a
  program that fails in `ReadThroughReleaseIsMissed`).
- When an `if`'s span occurs twice with different branches, deferring the region can leave a definition in neither the
  eager part nor the region (`RepeatedSpanLosesADefinition`; the exact condition is `NothingLostIff`).
- Two regions may move the same definition (`CrossedRegionsShare`). They do not exactly when what each reaches through
  the other's span inside its own branch, and the other too, is eager with one of the spans emptied
  (`ExclusivesAreDisjointIff`); so it is when one of the two spans occurs once (`UniqueSpansAreDisjoint`).
- The comment on `collect_view_ifs` says a scope holds only bindings. It has a body, and an `if` in it is in no region
  (`ScopeIsInNoRegion`); what a scope names is moved with no region (`ScopeIsEager`), unless the scope is itself behind
  an `if` (`ScopeBehindIfIsMoved`).
- A resolved path read again as an absolute specifier is itself exactly when the directory of the file that wrote it is
  in normal form and has no `#` or `?` in it (`ResolvedIsFixedIff`): from `a#b/c` the specifier `d` is `a#b/d`, and
  `/a#b/d` is `a` (`HashSignIsCut`).
- A hashed name may be the name of a file that keeps its own (`NewNameCanBeTaken`); nothing clashes exactly when no such
  file has a moved file's new name (`DistinctIffNoClash`).
- The scan of references is called generous. It reads a `url(` whole exactly when nothing written there is a closing
  parenthesis, in quotes or not (`UrlIsReadIff`), and the first string behind an `@import` exactly when no semicolon
  comes before its end, in a comment or not (`ImportIsReadIff`). It looks for lower case alone, where a style sheet may
  use any: a file named only by `URL(b.css)` is renamed all the same (`UpperCaseDangles`).
- The text of a value does not always evaluate to what the value settles on. It does exactly when no record has a member
  named `__proto__`, which sets a prototype, no `Map` or `Set` holds a primitive twice, which an engine keeps once, and
  names are listed as an engine lists them, which those of its own records are (`Serialiser.RoundTripsIff`). Two keys
  that answer one text are such a table (`SameAnswerTwice`).
- A duration is not always written in "the shortest form that round-trips". It is exactly when no timer reads it or
  none of the three units takes fewer characters, its count in its shortest decimal form (`WrittenIsShortestIff`):
  `1500ms` is longer than `1.5s` (`PointMayBeShorter`), and `10002ms` than `.1667m` (`MinutesMayBeShorter`).
- A single emitted file duplicates nothing exactly when it has no more carriage returns before line feeds than missing
  line feeds (`AloneDuplicatesNothingIff`): `lines()` drops the carriage return and the measure counts it.
- Comments and literals are not always blanked whole. A source text is cut up as the language means it exactly when no
  block comment in it has another inside or opens with the slash that closes it at once, and no character is a `\x` or
  `\u` escape (`CutsAsMeantIff`); where its comments are so, the code and nothing else is left exactly when its
  characters are (`LeavesTheCodeIff`). Where the scan reaches a block comment, it blanks it whole exactly when the first
  `*/` is its own, or ends the text, or there is none (`CommentIsWholeIff`): the star that opens it may close it
  (`SlashStarSlash`, `StarClosesItsOwn`), and a comment nested in it ends both (`NestedCommentIsCut`). Where it reaches
  such an escape, that stays, braces and all (`CharacterIsWholeIff`, `EscapeStaysVisible`), and its closing quote pairs
  with the next one, so the literal after it is not blanked although it is no escape (`FreedQuotePairs`).
- `span_of` gives the index of the closing delimiter, not one past it as its comment says (`Spans.SpanOf`).

## Model

| member | source | states |
|---|---|---|
| Reachability.ReachIsClosed | crates/zdc-codegen/src/analysis.rs:1439-1453 | the reachable set holds the seeds and everything an edge leads to |
| Reachability.ReachIsLeast | crates/zdc-codegen/src/analysis.rs:1439-1453 | every closed set around the seeds holds the reachable set |
| Reachability.ReachMonotone | crates/zdc-codegen/src/analysis.rs:585-630 | more seeds reach no less |
| Reachability.FrontierVisits | crates/zdc-codegen/src/analysis.rs:613-630 | popping a new element and pushing all it points at keeps the worklist invariant, in whatever order the queue is |
| Walkers.ExprReferences | crates/zdc-codegen/src/analysis.rs:1259-1345 | pushes exactly the references of an expression, in walk order, behind what was there |
| Mentions.PushedIffNamed | crates/zdc-codegen/src/analysis.rs:1259-1345 | a definition is among the references of an expression exactly when some part of it, at any depth, refers to it or calls it |
| Mentions.StmtPushedIffNamed | crates/zdc-codegen/src/analysis.rs:1202-1257 | among those of a statement exactly when a statement in it, at any depth, writes to it or has an expression that mentions it |
| Mentions.NodePushedIffNamed | crates/zdc-codegen/src/analysis.rs:1159-1193 | among those of a view node exactly when a node in it, at any depth, has an expression or a listener that mentions it |
| Mentions.ReferencedIffUsed | crates/zdc-codegen/src/analysis.rs:1130-1157 | a definition references exactly what its initialiser and step, its body or its nodes mention |
| Walkers.StmtReferences | crates/zdc-codegen/src/analysis.rs:1202-1257 | the same for a statement, index path of a mutation included |
| Walkers.BlockReferences | crates/zdc-codegen/src/analysis.rs:1202-1257 | the same for a block |
| Walkers.NodeReferences | crates/zdc-codegen/src/analysis.rs:1159-1193 | the same for view nodes, scopes included |
| Walkers.References | crates/zdc-codegen/src/analysis.rs:1130-1157 | the same for a definition; a type, a component and a foreign have none |
| Reads.WalksAgree | crates/zdc-codegen/src/analysis.rs:314-391 | `reads_signal` holds of an expression exactly when it mentions a changing thing itself or the reference walk finds a reactive definition in it |
| Reads.StmtWalksAgree | crates/zdc-codegen/src/analysis.rs:771-813 | the same for a statement, where the base of a mutation counts as a reference and not as a read |
| Reads.BlockWalksAgree | crates/zdc-codegen/src/analysis.rs:771-813 | the same for a block |
| Readings.ReadsIffChanges | crates/zdc-codegen/src/analysis.rs:314-391 | an expression reads a signal exactly when some part of it, at any depth, is a changing local, an element, a signal that is not static, a reactive function or a call of one |
| Readings.StmtReadsIffChanges | crates/zdc-codegen/src/analysis.rs:771-813 | a statement exactly when a statement in it, at any depth, has an expression with such a part |
| Readings.BodyReadsIffChanges | crates/zdc-codegen/src/analysis.rs:771-813 | a body exactly when one of its statements does |
| Readings.FoldReadsBoth | crates/zdc-codegen/src/analysis.rs:843-855 | a fold reads what its start or its step reads and references what either does |
| Analysis.Analyzer.SolveReactiveFunctions | crates/zdc-codegen/src/analysis.rs:751-769 | the loop ends with exactly the functions from which a chain of function references leads to a body that reads a signal |
| Analysis.ReactiveIsLeastFixedPoint | crates/zdc-codegen/src/analysis.rs:748-769 | that set is a fixed point of one round, and the least set of functions no round enlarges |
| Verdicts.RoundIff | crates/zdc-codegen/src/analysis.rs:751-769 | a round marks exactly the functions whose body has, at some depth, an expression with a part that changes, given the functions marked already |
| Analysis.VerdictsAreIdealIffReleasesClosed | crates/zdc-codegen/src/analysis.rs:543-572 | the verdict on every function and release is the transitive one exactly when no release reads a signal |
| Analysis.ReadThroughReleaseIsMissed | crates/zdc-codegen/src/analysis.rs:755-757 | a program whose function reads a signal through a release and is not marked |
| Analysis.ReadsSignalExactly | crates/zdc-codegen/src/analysis.rs:314-391 | with the solved set, `reads_signal` answers true exactly for a changing mention, a reactive signal, or a function with a chain to one |
| Analysis.ReadSignalIsInClosure | crates/zdc-codegen/src/analysis.rs:314-391 | an expression that reads a signal, and reaches nothing that changes by itself, has a non-static signal in the closure of its references |
| Analysis.Analyzer.PushSeeds | crates/zdc-codegen/src/analysis.rs:586-612 | the seeds that are not references: client signals when asked for, every function of a module |
| Analysis.Analyzer.WalkClientClosure | crates/zdc-codegen/src/analysis.rs:585-630 | the walk ends with the definitions reachable from the seeds over references and operator dispatch |
| Analysis.PageWithinWhole | crates/zdc-codegen/src/analysis.rs:270-272 | a page that names only what the whole program's closure holds ships nothing the whole program does not |
| Verdicts.ClientClosureIff | crates/zdc-codegen/src/analysis.rs:585-630 | a document ships exactly what a path of uses and operator dispatches leads to from what its nodes mention, the client signals when asked for, or the functions of a module |
| Verdicts.UnusedIsNotShipped | crates/zdc-codegen/src/analysis.rs:586-612 | a signal that is not a client's and that nothing mentions or dispatches to ships with no document |
| Analysis.Analyzer.PushDispatches | crates/zdc-codegen/src/analysis.rs:487-492 | the frontier starts with the dispatches of the members |
| Analysis.Analyzer.OperatorClosure | crates/zdc-codegen/src/analysis.rs:484-513 | the result is what dispatches and calls reach from the members' dispatches without going through a member |
| Analysis.BundleIsLeastClosed | crates/zdc-codegen/src/analysis.rs:484-513 | members and result are closed under calls and dispatch exactly when they are all that the members reach, and so they are when the members are closed under calls |
| Analysis.BundleIsMonotone | crates/zdc-codegen/src/analysis.rs:484-513 | whatever the smaller set of members, a larger one closed under calls completes to a larger bundle |
| Verdicts.DispatchedIff | crates/zdc-codegen/src/analysis.rs:484-513 | a bundle is completed by exactly what a path of calls and dispatches leads to, outside it, from the dispatches of its members |
| Deferral.BranchSplits | crates/zdc-codegen/src/analysis.rs:1483-1508 | what a document names is what its emptied form and the cleared branches name |
| Deferral.CollectedIsCleared | crates/zdc-codegen/src/analysis.rs:1459-1508 | a collected branch is among those its span clears |
| Deferral.BranchesAreFirstPerSpan | crates/zdc-codegen/src/analysis.rs:1402-1403 | after sorting and removing repeats there is one branch per span found, in span order, the first found |
| Deferral.ClosureOver | crates/zdc-codegen/src/analysis.rs:1439-1453 | the worklist ends with what the nodes reach over reference edges |
| Deferral.DeferrableRegions | crates/zdc-codegen/src/analysis.rs:1385-1427 | one region per span, with what the branch reaches and what of it the emptied document does not |
| Regions.CollectsInOrder | crates/zdc-codegen/src/analysis.rs:1459-1481 | what is found below a node is itself when it is an `if`, and else what is found in the nodes the walk goes on to, in their order |
| Regions.FoundIffPath | crates/zdc-codegen/src/analysis.rs:1459-1481 | a branch is found exactly when a path from a root, through elements, loops and arms, leads to an `if` with its span and its taken nodes |
| Regions.RegionsAreTheIfs | crates/zdc-codegen/src/analysis.rs:1385-1427 | every such `if` has a region with its span, and every region is that of one |
| Regions.RegionsAscend | crates/zdc-codegen/src/analysis.rs:1402-1403 | regions are listed by where their `if` starts, then by where it ends |
| Regions.LeftIffOutside | crates/zdc-codegen/src/analysis.rs:1483-1508 | with the branches of a span emptied a document names exactly what a path outside them leads to |
| Regions.RegionMeans | crates/zdc-codegen/src/analysis.rs:1404-1427 | a region reaches what paths of uses from its branch lead to, and moves those of them no path from outside leads to |
| Deferral.DocumentIsEagerPlusCleared | crates/zdc-codegen/src/analysis.rs:1385-1427 | the document's closure is the eager closure and that of all cleared branches, always |
| Deferral.NothingLostIff | crates/zdc-codegen/src/analysis.rs:1385-1427 | closure(document) is eager and reached exactly when every other branch with the span stays within them |
| Deferral.NothingLostWhenSpanIsUnique | crates/zdc-codegen/src/analysis.rs:1385-1427 | so it is when the span occurs once |
| Deferral.RepeatedSpanLosesADefinition | crates/zdc-codegen/src/analysis.rs:1386-1402 | two occurrences of one span whose second branch is in neither part |
| Deferral.ExclusiveIsUnreferenced | crates/zdc-codegen/src/analysis.rs:1366-1372 | the exclusive set is disjoint from the eager closure and no eager definition or node refers into it |
| Deferral.ExclusivesAreDisjointIff | crates/zdc-codegen/src/analysis.rs:1385-1427 | two regions move no definition twice exactly when what both reach through the other's span inside their branches is eager with one of the two spans emptied |
| Deferral.ExclusivesAreDisjoint | crates/zdc-codegen/src/analysis.rs:1385-1427 | two regions move no definition twice, unless each branch holds the other's span |
| Deferral.UniqueSpansAreDisjoint | crates/zdc-codegen/src/analysis.rs:1385-1427 | two regions of which one's span occurs once move no definition twice |
| Deferral.CrossedRegionsShare | crates/zdc-codegen/src/analysis.rs:1385-1427 | two spans, each inside the other's branch, whose regions both move one definition |
| Deferral.ScopeIsInNoRegion | crates/zdc-codegen/src/analysis.rs:1459-1481 | the bodies of the scopes the walk meets, at any depth, add no region |
| Deferral.ScopeIsEager | crates/zdc-codegen/src/analysis.rs:1483-1508 | what a scope names, at any depth outside every taken branch, is in no exclusive set |
| Deferral.ScopeBehindIfIsMoved | crates/zdc-codegen/src/analysis.rs:1483-1508 | a scope in a taken branch, whose name the region moves |
| Siblings.InsertStep | crates/zdc-bench/js/reorder.js:92 | putting one more node of a row before the cursor extends the part of the row already there |
| Siblings.PlacedIsDistinct | crates/zdc-bench/js/reorder.js:92 | moving attached nodes leaves every node in the list once |
| Reconciler.Region.constructor | crates/zdc-bench/js/reorder.js:48-50 | an empty region between two anchors that are in the document |
| Reconciler.Region.InsertBefore | crates/zdc-bench/js/reorder.js:92 | takes the node out if it is attached, puts it before the other, and counts one insertion |
| Reconciler.Region.InsertRow | crates/zdc-bench/js/reorder.js:92 | a row's nodes end up in order before the cursor, everything else where it was |
| Reconciler.Region.CollectKeys | crates/zdc-bench/js/reorder.js:57-66 | the keys in item order, or a duplicate exactly when two are the same |
| Reconciler.Region.DropRows | crates/zdc-bench/js/reorder.js:67-73 | the rows whose key is gone are taken out and disposed of once each; the others keep their order and nodes |
| Reconciler.Region.Obtain | crates/zdc-bench/js/reorder.js:80-88 | the mounted row with the new item, or fresh nodes from one render |
| Reconciler.Region.PlaceRow | crates/zdc-bench/js/reorder.js:91-95 | one turn puts the row where the cursor is, with no insertion when it is there |
| Reconciler.Region.PlaceRows | crates/zdc-bench/js/reorder.js:75-96 | the walk ends with the rows of the items in item order |
| Reconciler.Region.Update | crates/zdc-bench/js/reorder.js:52-100 | throws exactly on a duplicate key with nothing changed; else the nodes between the anchors are each item's nodes in item order, siblings outside are untouched, surviving keys keep their nodes, dropped rows are removed and disposed of once, new keys are rendered once each and in item order, each key's call logged once and no other, and the insertions are counted exactly |
| Reconciler.SurvivorsDecide | crates/zdc-bench/js/reorder.js:80 | asking the surviving rows for a live key is asking the old ones |
| Reconciler.GoneForGood | crates/zdc-bench/js/reorder.js:67-73 | a dropped row's nodes are among the old ones and not among the new |
| Reconciler.RowUnderCursor | crates/zdc-bench/js/reorder.js:91 | the row under the cursor is the first left that has a node, and what is left opens with all its nodes |
| Reconciler.FrontOfRest | crates/zdc-bench/js/reorder.js:91-95 | the first surviving row not yet placed is the one no such row was ahead of |
| Reconciler.CursorMeansStays | crates/zdc-bench/js/reorder.js:91-95 | with single-root rows a row is under the cursor exactly when no row still to come was ahead of it |
| Reconciler.SingleRootCost | crates/zdc-bench/js/reorder.js:75-96 | the insertions of an update of single-root rows depend on the two key lists alone |
| Moves.StayingKeepsOrder | crates/zdc-bench/js/reorder.js:91-95 | the rows left in place are an increasing subsequence of the old positions, and the others are moved |
| Moves.MovesAtLeast | crates/zdc-bench/js/reorder.js:142-146 | the moves are at least the new length less the longest such subsequence |
| Moves.NoMovesIffInOrder | crates/zdc-bench/js/reorder.js:91-95 | nothing moves exactly when the new list is the old with rows taken out |
| Moves.ReversalMoves | crates/zdc-bench/js/reorder.js:142-148 | reversing n rows moves n - 1 |
| Moves.SwapMoves | crates/zdc-bench/js/reorder.js:110-121 | swapping the second and second-to-last of n rows, n at least 4, moves n - 3 |
| Moves.LastToFrontMoves | crates/zdc-bench/js/reorder.js:122-126 | moving the last of at least two rows to the front moves one |
| Moves.RemoveAddSwapMoves | crates/zdc-bench/js/reorder.js:127-141 | removing the fifth, swapping and adding moves n - 3 |
| Hash.ContentHash | crates/zdc-codegen/src/hash.rs:65-72 | the loop computes the FNV-1a fold as sixteen hexadecimal digits |
| Hash.StepKeepsStatesApart | crates/zdc-codegen/src/hash.rs:67-70 | one step takes different 64-bit states to different states |
| Hash.StepKeepsBytesApart | crates/zdc-codegen/src/hash.rs:67-70 | one step takes different bytes to different states |
| Hash.HexIsInjective | crates/zdc-codegen/src/hash.rs:71 | different states are written differently |
| Hash.HexIsBaseSixteen | crates/zdc-codegen/src/hash.rs:71 | the digits read in base sixteen, the most significant first, are the state |
| Hash.ChangedByteChangesDigest | crates/zdc-codegen/src/hash.rs:56-72 | contents that differ in one byte, wherever it is, have different digests |
| Hash.PublishedVector | crates/zdc-codegen/src/hash.rs:45-54 | the fold of the byte `a` is the published value |
| Hash.PublishedDigest | crates/zdc-codegen/src/hash.rs:45-72 | the digest of the byte `a` is `af63dc4c8601ec8c` |
| Paths.ResolveInPlace | crates/zdc-codegen/src/assets.rs:340-373 | the segment stack computes the resolution, with every refusal |
| Paths.NormalFormIff | crates/zdc-codegen/src/assets.rs:340-373 | all results in a file are free of empty, `.` and `..` segments exactly when its directory is |
| Paths.RefusedIffClimbs | crates/zdc-codegen/src/assets.rs:359-368 | a path is refused exactly when some prefix of it climbs above the root |
| Climbs.BackIsTakenBackIff | crates/zdc-codegen/src/assets.rs:340-373 | a directory and the `..` behind it can be left out of a specifier, in any file, unless that puts two slashes at its head or behind a colon; there it makes no difference exactly when the longer one was refused |
| Climbs.DoubleSlashIsForeign | crates/zdc-codegen/src/assets.rs:340-373 | `/x/..//c` is a file of the bundle and `//c` is not |
| Climbs.UpFromTheFile | crates/zdc-codegen/src/assets.rs:353-372 | `../` and a path is that path in the directory above the file's own |
| Climbs.UpAndDown | crates/zdc-codegen/src/assets.rs:353-372 | `../img/x.png` in `assets/css/site.css` is `assets/img/x.png` |
| Climbs.ExternalIff | crates/zdc-codegen/src/assets.rs:340-349 | a path is foreign exactly when it is empty, opens with two slashes, has `://` in it, or a colon with no slash before it |
| Paths.ResolvedIsFixedIff | crates/zdc-codegen/src/assets.rs:340-373 | every result of a file, taken as an absolute specifier in any file, gives itself again exactly when the first file's directory is in normal form and has neither a hash sign nor a question mark |
| Paths.HashSignIsCut | crates/zdc-codegen/src/assets.rs:340-373 | a file in a directory with a hash sign, one of whose results is lost when read again |
| Paths.HashedKeepsDirectory | crates/zdc-codegen/src/hash.rs:82-104 | a hashed file is in the same directory, so every specifier resolves in it as before |
| Paths.HashedKeepsExtension | crates/zdc-codegen/src/hash.rs:86-104 | the last extension is kept, after the hash |
| Paths.HashedIsInjective | crates/zdc-codegen/src/hash.rs:86-104 | equal hashed names have equal names and equal hashes, with an extension or without |
| Paths.IsCssIff | crates/zdc-codegen/src/assets.rs:213-217 | a stylesheet is a name that ends in `.css`, in upper or lower case, with a character of the file before the dot |
| Assets.UrlSkips | crates/zdc-codegen/src/assets.rs:290-295 | resuming after a match loses no later one |
| Assets.Scan | crates/zdc-codegen/src/assets.rs:285-310 | the two scans find what every `url(` and every `@import` of the text names, in order |
| Assets.UrlIsFound | crates/zdc-codegen/src/assets.rs:277-295 | what a `url(` anywhere in the text says, quoted or bare and with any white space, is found when no closing parenthesis is in it |
| Assets.UrlIsReadIff | crates/zdc-codegen/src/assets.rs:290-295 | behind a `url(` the specifier is read whole exactly when what is written has no closing parenthesis, inside the quotes or not |
| Assets.ImportIsReadIff | crates/zdc-codegen/src/assets.rs:296-308 | the first string behind an `@import` is read whole exactly when no semicolon comes before its end, between the two or inside |
| Assets.ImportIsFound | crates/zdc-codegen/src/assets.rs:277-308 | so an `@import` of such a string, anywhere in the text, is found |
| Assets.NamedAsWritten | crates/zdc-codegen/src/assets.rs:277-308 | a plain name written `url(…)` or `@import '…'`, behind any text, is found |
| Assets.Bundle.Named | crates/zdc-codegen/src/assets.rs:247-262 | exactly the shipped files some readable stylesheet refers to |
| Assets.Bundle.RenameHashed | crates/zdc-codegen/src/assets.rs:240-275 | exactly the readable stylesheets nothing names get a hashed name; the immutable list is their sorted names |
| Assets.NothingDangles | crates/zdc-codegen/src/assets.rs:223-239 | a specifier that resolved to a shipped file still does, from the stylesheet's new name, and the file is unchanged |
| Assets.ImmutableIsTheMoved | crates/zdc-codegen/src/assets.rs:263-275 | the immutable list is sorted and holds the shipped names of the moved files and no other |
| Assets.MovedNameIs | crates/zdc-codegen/src/assets.rs:263-273 | a moved file is shipped under its name with the digest of its own bytes |
| Assets.ContentsDecideName | crates/zdc-codegen/src/assets.rs:263-273 | a moved file is shipped under another name when one byte of it is another, wherever that stands |
| Assets.PublishedName | crates/zdc-codegen/src/assets.rs:271 | `assets/site.css` with the one byte `a` is `assets/site.af63dc4c8601ec8c.css` |
| Assets.DistinctIffNoClash | crates/zdc-codegen/src/assets.rs:240-275 | no two files go to one place exactly when no new name is a name that is kept |
| Assets.NewNameCanBeTaken | crates/zdc-codegen/src/assets.rs:263-273 | three stylesheets under `assets/`, each the bytes of its text, of which one is renamed onto another |
| Assets.UpperCaseDangles | crates/zdc-codegen/src/assets.rs:285-310 | two stylesheets of which one names the other in upper case, and no shipped file is where that was |
| Literal.ThrowsIff | crates/zdc-codegen/src/evaluate.rs:121-139 | printing a settled value throws exactly when a function or an absent value is anywhere inside |
| Literal.PrintedForms | crates/zdc-codegen/src/evaluate.rs:121-139 | the words, brackets and commas around whatever the parts print as |
| Literal.ReadsBack | crates/zdc-codegen/src/evaluate.rs:121-139 | reading what was printed, before any text, gives the settled value back as an engine builds it, and stops where it ends |
| Literal.TextRoundTrip | crates/zdc-codegen/src/evaluate.rs:135 | a string is read back from its escapes, character by character |
| Decimal.LeadingDigit | crates/zdc-codegen/src/evaluate.rs:135 | a number in decimal has its most significant digit first |
| Decimal.NoLeadingZero | crates/zdc-codegen/src/evaluate.rs:135 | and no zero in front |
| Literal.RoundTripsIff | crates/zdc-codegen/src/evaluate.rs:121-139 | the text evaluates to the settled value, entry order kept, exactly when no record has a member named `__proto__`, names are in the engine's order and no `Map` or `Set` holds a primitive twice |
| Serialiser.PrintsSettled | crates/zdc-codegen/src/evaluate.rs:121-139 | asking each object for its `toJSON` on the way prints what asking at every depth first would settle on |
| Serialiser.SettlesInPlace | crates/zdc-codegen/src/evaluate.rs:107-139 | a value settles on the same shape with each part settled in its place, a record with a `toJSON` on its answer, an overlay on its table or list |
| Serialiser.ThrowsIff | crates/zdc-codegen/src/evaluate.rs:121-139 | printing throws exactly when a function or an absent value is anywhere in what the value settles on |
| Serialiser.RoundTripsIff | crates/zdc-codegen/src/evaluate.rs:121-139 | the text evaluates to what the value settles on exactly when that has no member named `__proto__`, its names in the engine's order and no primitive twice in a `Map` or `Set` |
| Serialiser.AnswersArePrinted | crates/zdc-codegen/src/evaluate.rs:107-124 | a record with a `toJSON` prints as its answer, whatever else is in it |
| Serialiser.SameAnswerTwice | crates/zdc-codegen/src/evaluate.rs:121-139 | a table of two entries whose text evaluates to one |
| Serialiser.FlatIsLastWrites | crates/zdc-codegen/src/intrinsics.rs:457-468 | the flat table has its keys in the order of first write, the table's own first, each with the last value written |
| Serialiser.OverlaysPrintFlat | crates/zdc-codegen/src/evaluate.rs:107-124 | a chain of writes prints, at any depth, as the flat table, and a chain of appended items as the longer list |
| Overlays.MapSet.constructor | crates/zdc-codegen/src/intrinsics.rs:447-456 | one write over a table or over another link |
| Overlays.MapSet.Force | crates/zdc-codegen/src/intrinsics.rs:457-468 | whatever links have been looked at before, the loop gives the table that all writes stand for, remembers it, lets go of what it was over and leaves every other link standing for what it stood for |
| Durations.WrittenReadsBack | crates/zdc-ast/src/lib.rs:503-619 | every finite decimal count of milliseconds is read back from how it is written; a timer takes it exactly within its bounds |
| Durations.UnitsAre | crates/zdc-ast/src/lib.rs:581-619 | the five units and what a count of each comes to in milliseconds |
| Shortest.WrittenIsShortestIff | crates/zdc-ast/src/lib.rs:501-574 | for every decimal count, no text a timer reads as it is shorter than how it is written, exactly when it is out of a timer's bounds or none of its reduced counts of milliseconds, seconds and minutes takes fewer characters |
| Shortest.WrittenIsShortestWhole | crates/zdc-ast/src/lib.rs:501-518 | no whole number of a timer's units is a shorter spelling |
| Shortest.PointMayBeShorter | crates/zdc-ast/src/lib.rs:501-518 | a decimal number of seconds that is shorter |
| Shortest.MinutesMayBeShorter | crates/zdc-ast/src/lib.rs:501-518 | a decimal number of minutes that is shorter |
| Cadence.ListIsTheDivisors | crates/zdc-ast/src/lib.rs:712-732 | the nineteen cadences are exactly those that divide their unit |
| Cadence.ParsesIff | crates/zdc-ast/src/lib.rs:740-784 | a text parses as a cadence exactly when the cadence is listed and the text is how it is written |
| Cadence.CronReads | crates/zdc-ast/src/lib.rs:797-805 | the printed expression has five fields, the ones meant |
| Cadence.CronFiresOnPeriod | crates/zdc-ast/src/lib.rs:792-805 | a listed cadence's expression fires at a minute exactly when it is a multiple of the period, on every calendar |
| Cadence.RateIsPeriod | crates/zdc-ast/src/lib.rs:807-822 | the rate, singular at one and plural past it, reads as the same period |
| Cadence.ScheduleTexts | crates/zdc-ast/src/lib.rs:792-822 | the cron expressions, rates and spellings of the cadences, written out |
| Cadence.EveryDayHasPerDay | crates/zdc-ast/src/lib.rs:824-832 | every window of 1440 minutes has exactly `per_day` firings |
| Cadence.UnevenIffNoCron | crates/zdc-ast/src/lib.rs:749-776 | a whole number of minutes in range is refused as uneven exactly when no choice of minutes, hours and days fires at its multiples |
| Names.Trichotomy | scripts/publish-order.py:114-120 | names are totally ordered |
| Names.LessIff | scripts/publish-order.py:114-120 | a name is less than another exactly when it begins it, or has the lower character where they first differ |
| Names.SortSorts | scripts/publish-order.py:114-120 | sorting orders the names and loses none |
| PublishOrder.Workspace | scripts/publish-order.py:78-105 | the crates no package of which says `publish = false`, each with the packages whose names its dependencies have, development ones left out; refused exactly when one that ships links one that does not, and then that is the one named |
| PublishOrder.Order | scripts/publish-order.py:108-130 | every crate once, dependencies first, by depth and then name; refused exactly when there is a cycle, and the refusal lists, sorted, exactly the crates from which a chain of dependencies leads to one |
| PublishOrder.StuckHasCycle | scripts/publish-order.py:119-127 | crates that each wait for another of them go round in a circle |
| PublishOrder.OrderIsUnique | scripts/publish-order.py:113-118 | two orders by depth and then name are the same, so iteration order has no part |
| PublishOrder.ReadyHasDepth | scripts/publish-order.py:112-118 | a crate that becomes ready after k layers has a longest dependency chain of k |
| Parts.NeutraliseIsExact | crates/zdc-codegen/src/capability.rs:251-284 | no raw markup and no unsafe destination is left, and an event is rewritten exactly when it was one |
| Parts.NeutraliseKeepsTheRest | crates/zdc-codegen/src/capability.rs:251-284 | raw markup becomes text with the same characters, and a refused link or image keeps its kind and title |
| Parts.AcceptedIff | crates/zdc-codegen/src/capability.rs:400-453 | a fence is accepted for a widget exactly when its words are the language's name and that widget's, a widget name the program offers |
| Parts.CanBeNamed | crates/zdc-codegen/src/capability.rs:410-465 | every offered widget name can be written, with any white space |
| Parts.Cut | crates/zdc-codegen/src/capability.rs:347-394 | the loop computes the scan from every stream of events |
| Parts.ScanIsDocumentParts | crates/zdc-codegen/src/capability.rs:347-394 | on a document the scan gives the fences with their joined text and between them the non-blank renderings of the neutralised runs, or the first refusal |
| Parts.SaidJoins | crates/zdc-codegen/src/capability.rs:361-372 | the text of a fence is that of its events, one behind another |
| Parts.IsSomeDocument | crates/zdc-codegen/src/capability.rs:347-394 | every stream whose widget fences are closed in turn is the events of a document |
| Parts.PartsAlternate | crates/zdc-codegen/src/capability.rs:376-394 | no prose next to prose, every widget offered, and a refusal exactly when some fence is refused |
| Parts.WithoutWidgetsIsMarkdown | crates/zdc-codegen/src/capability.rs:210-214 | without a widget fence the result is the `markdown` rendering, or nothing when that is blank |
| BlankOut.BlankOut | scripts/check-vacuous-tests.py:84-141 | the scan computes the masked text |
| BlankOut.ScanString | scripts/check-vacuous-tests.py:118-129 | the end of a string with its escapes, which may be past the end of the text |
| BlankOut.HiddenIs | scripts/check-vacuous-tests.py:95-137 | what is blanked at the head of a text is a line comment to its line end, a block comment to its first closing, a raw string to its quote and hashes, a string to the first quote with an even number of backslashes before it, or one character in quotes, and exactly that |
| BlankOut.VisibleMasks | scripts/check-vacuous-tests.py:79-141 | same length, and every character itself or a space where it was no line break |
| BlankOut.VisibleStartsNothing | scripts/check-vacuous-tests.py:84-141 | no quotation mark, `//` or `/*` is left |
| BlankOut.LeftAloneIff | scripts/check-vacuous-tests.py:84-141 | a text is unchanged exactly when no comment or literal starts anywhere in it |
| BlankOut.BlankingTwice | scripts/check-vacuous-tests.py:84-141 | a second pass changes nothing |
| BlankOut.CommentIsWholeIff | scripts/check-vacuous-tests.py:100-104 | where the scan reaches a block comment, nested as the language nests them, it is blanked whole and no more exactly when its first `*/` is the one that closes it, or ends the text, or there is none |
| BlankOut.SlashStarSlash | scripts/check-vacuous-tests.py:100-104 | `/*/` is taken for a whole comment |
| BlankOut.StarClosesItsOwn | scripts/check-vacuous-tests.py:100-104 | a comment of eight characters of which three are blanked |
| BlankOut.NestedCommentIsCut | scripts/check-vacuous-tests.py:100-104 | a comment in a comment, blanked to the end of the inner one |
| BlankOut.CharacterIsWholeIff | scripts/check-vacuous-tests.py:130-137 | where the scan reaches a character literal it is blanked whole exactly when it is not a `\x` or `\u` escape, and otherwise not at all |
| BlankOut.EscapeStaysVisible | scripts/check-vacuous-tests.py:130-137 | a literal whose braces are left for code |
| Tokens.CutsAsMeantIff | scripts/check-vacuous-tests.py:84-141 | the scan cuts a text of the language's tokens up as they are exactly when no block comment in it has another inside or opens with a slash and no character is a `\x` or `\u` escape |
| Tokens.LeavesTheCodeIff | scripts/check-vacuous-tests.py:84-141 | where its block comments are so, what is left is its code and blanks for all else exactly when no character is such an escape |
| Tokens.EscapeBreaksIt | scripts/check-vacuous-tests.py:84-141 | the first such escape behind tokens that are blanked whole leaves more than the code, whatever follows it |
| Tokens.FreedQuotePairs | scripts/check-vacuous-tests.py:130-137 | two literals of which the second, no escape, is not blanked because the first is one |
| Tokens.CutCommentMayAgree | scripts/check-vacuous-tests.py:100-104 | a comment cut short after which nothing but the code is left all the same |
| Spans.SpanOf | scripts/check-vacuous-tests.py:172-183 | the first closing delimiter that brings the depth to nothing, or the length |
| Spans.FirstCloseIsTheMatch | scripts/check-vacuous-tests.py:172-183 | from an opening delimiter that is the place whose inside is balanced, and no other |
| Scaling.LinesSize | crates/zdc-bench/src/scaling.rs:627-643 | a file's length is that of its lines with their line feeds, plus dropped carriage returns, less a missing line feed |
| Scaling.LinesAreTheCut | crates/zdc-bench/src/scaling.rs:627 | a file is its lines with their ends, each a line feed, both a carriage return and a line feed, or nothing behind the last, and is cut so in one way |
| Scaling.MeasureDuplication | crates/zdc-bench/src/scaling.rs:623-652 | the table of counts gives the total, the distinct bytes, their difference if positive, and the shared prefix |
| Scaling.MostBounds | crates/zdc-bench/src/scaling.rs:629-632 | what is kept of a line is at least what any file has of it |
| Scaling.MostIsReached | crates/zdc-bench/src/scaling.rs:629-632 | and some file has that many |
| Scaling.DuplicationLaw | crates/zdc-bench/src/scaling.rs:635-649 | duplicated bytes are, over lines, the length with its line feed times the sum of counts less the largest, corrected for line ends |
| Scaling.NothingDuplicatedIff | crates/zdc-bench/src/scaling.rs:615-622 | terminated files duplicate nothing exactly when no line is in two of them |
| Scaling.AloneDuplicatesNothingIff | crates/zdc-bench/src/scaling.rs:636-638 | when one file by itself duplicates nothing |
| Scaling.OrderIsIgnored | crates/zdc-bench/src/scaling.rs:623-652 | the order of the files makes no difference |
| Scaling.CopiesAreDuplicated | crates/zdc-bench/src/scaling.rs:623-652 | of k copies of a file all but one are duplicated |
| Scaling.CommonPrefix | crates/zdc-bench/src/scaling.rs:655-675 | the longest run of whole characters all files begin with |
| Scaling.DeepestFold | crates/zdc-bench/src/scaling.rs:836-861 | a depth that folds, next to one that does not or to the bound, in at most fifteen questions |
| Scaling.BudgetIsFound | crates/zdc-bench/src/scaling.rs:850 | where depths fold up to a budget, the answer is the budget |

## Left out

- The arenas of the intermediate representation: expressions, blocks and nodes are unfolded into trees, definitions
  stay in a table. The passes read the arenas and never write them.
- Binder collection, writes, and `bare_getter` in `analysis.rs`: which locals are reactive is an input.
- The tier split, `sites_of` and the type checker: members, call sites and operator targets are inputs.
- `without_branch` clears a clone in place; it is modelled as a function that gives the cleared tree, since the clone
  is never aliased.
- Signals, effects, batching and cleanup around the reconciler: a row is a run of nodes with a render and a dispose
  count. The longest-increasing-subsequence reconciler in `list.js` is not part of this model.
- Parents and the rest of the DOM tree: one sibling list is modelled.
- Reading and walking the asset directory, refusals of escaping links, the icon and the stylesheet links of `discover`:
  a file's bytes and its text, when each can be read, are inputs. The walk makes names in normal form alone, so the
  other side of `NormalFormIff` is about the resolver by itself.
- Bytes and text of one asset are independent inputs: decoding UTF-8 is not part of this model.
- Strings in `$literal` are sequences of Unicode scalar values: lone surrogates, numbers that are not integers of plain
  decimal form, negative zero and objects with a prototype of their own are not part of this model.
- A `toJSON` added to a list, a `Map` or a `Set` by assignment is not part of this model; a record's own and those of
  the links of a list or table under construction are.
- Shortest.WrittenIsShortestWhole: compares spellings with a whole number alone, for which nothing is shorter at any
  count; `Shortest.WrittenIsShortestIff` is the claim over every spelling.
- The chain of appended items is a value with its items in order: what its own flattening remembers is not part of this
  model.
- A source text with an unclosed comment or literal, or an escape the language does not have, is no list of tokens:
  `CutsAsMeantIff` says nothing of it, `HiddenIs` does.
- Rounding: milliseconds are exact decimals, so a spelling whose product is not a double is read exactly.
- `Clock`, its spellings and every diagnostic text.
- The markdown parser and the HTML renderer: events are the input and rendering is a parameter, as is the set of safe
  schemes. The fields of an event that no rule looks at are dropped.
- Parts.Feed: a widget fence opened inside another loses the first, as in the code; the parser never nests them, and
  nothing is proved about such a stream beyond what the scan computes.
- Test discovery and the assertion rules of the vacuous-test script, and the program generators of the benchmarks.
- Hash collisions: two contents that differ in more than one place may have one digest, as with any hash.
