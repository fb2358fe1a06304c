# Verified models of yaac's build and streaming algorithms

Dafny models of seven algorithms of the repository, each proved against what its
documentation promises. `dafny verify dfyconfig.toml` checks the whole project.

**The shrinkwrap layout** (`scripts/write-dist-manifest.ts`). `Lockfile` holds the
lockfile and the ids its references stand for; `NodeModules` the locations of an npm
tree and Node's nearest-first lookup; `ModulePaths` the path strings and the regular
expression that steps out of a directory, proved to be a faithful rendering of
locations. `Placement` is the queue loop as a state machine whose runs are defined for
any number of turns, finished or not. `PlacementProofs` and `PlacementTheorems` show
that nothing is ever shadowed and that a layout succeeds exactly when the lockfile is
complete and no dependency list names one package at two snapshots. `PlacementOrder`
tells who gets the top level and in which order locations are queued, `PlacementErrors`
what the errors say. `PlacementTermination`, `PlacementEnds`, `PlacementFairness`,
`PlacementRepeats` and `PlacementDiverges` are about when the loop ends. `Required` is
the walk that marks packages reached without an optional edge, and why all others may be
skipped. `Shrinkwrap` is `npmPackages` itself.

**The modularity score** (`scripts/modularity.ts`). `Modularity` computes the closure,
the cycles and the score; `BalancedTree` the denominator of NCCD;
`ModularityTheorems` and `Counting` bound CCD by the cycles and tie cycles to DAGs.

**The terminal stream** (`dockerfiles/streamd`). `Batcher`, `BatcherTheorems` and
`BatcherSizes` are the output batcher and its delivery, waiting time, write rate and write
size over all runs; `Framing` is the frame codec and its incremental parser; `Delivery`
joins the two.

**Three smaller protocols.** `CliExternals` finds the packages the CLI loads on every
start, `ApplyEdits` patches a file at unique anchors, `InputHash`, `BuildCache` and
`BuildCacheSafety` are the key and the marker protocol of the cached frontend build.

`Graph` (reachability) and `Text` (strings) are shared.

Results that differ from what one might read in the comments of the source:

- The placement loop does not end on every lockfile. `PlacementDiverges.RingNeverEnds`
  gives a complete, consistent one on which it nests for ever. It ends on every lockfile
  that is *stratified* (`PlacementEnds.StratifiedEnds`), which covers acyclic lockfiles
  and those with one version of each package. On a lockfile no list of which
  names one package at two snapshots, it ends if and only if a wanted snapshot is missing
  or no entry is ever nested inside another of its own snapshot with the same nested
  entries visible around both (`PlacementRepeats.EndsIffNothingRepeats`): on complete
  lockfiles a guard that stops the loop at such a repeat would stop exactly the runs that
  never end. `NpmPackages` is therefore stated
  for inputs on which the loop ends, after some number of turns `n`, and for no others.
- The check after the placement loop can only fail for a dependency list that names one
  package at two snapshots (`PlacementTheorems.LayoutSucceedsIff`). When the root itself
  does so, the loop first forms the path `/node_modules/<name>`, for which
  `NodeModules.Loc.Slashed` stands (`PlacementErrors.RootAsksTwice`).
- A batch stays under the frame cap only while pushes do: up to the cap less what can be
  waiting, which is one byte less than the threshold, or nothing where the window or the
  threshold leaves nothing to wait for (`BatcherSizes.NeverOversizedIff`). The code does
  not bound its pushes.
- A stopped build never looks up to date exactly when emptying a complete `dist` starts
  with the marker or with `index.html`, and no input changes between the hashing and the
  end of the build (`BuildCacheSafety.SafeIff`). That the marker goes first is not needed:
  without the index nothing is reused, and the marker is gone before the index is back.
  An edit while the marker is written does no harm. Neither condition is enforced by the
  script itself.

## Model

| member | source | states |
|---|---|---|
| Lockfile.ParseDepCoherent | scripts/write-dist-manifest.ts:60-69 | the id of a parsed dependency is its snapshot without the peer suffix, so it is a function of the snapshot |
| Lockfile.StripPeersExact | scripts/write-dist-manifest.ts:61 | a reference is cut at the first parenthesis after which no line breaks, and left whole without one |
| Lockfile.StripPeersSuffix | scripts/write-dist-manifest.ts:61 | what stands before a peer suffix is what is left |
| Lockfile.ParsePlainRef | scripts/write-dist-manifest.ts:60-69 | the id, snapshot and optional mark of a version with any peer suffix, listed under its own name |
| Lockfile.ParseAliasRef | scripts/write-dist-manifest.ts:60-69 | the same for an alias, whose reference names the real package, scoped or not |
| Lockfile.ParseDepId | scripts/write-dist-manifest.ts:60-76 | every parsed id holds a name and a version; without an alias they are the dependency's own name and version, and the version is what npm records |
| Lockfile.DepSpecRoundTrip | scripts/write-dist-manifest.ts:71-76 | npm reads the recorded spec back as the locked id if and only if it is not an unaliased version that itself starts with `npm:` |
| Lockfile.SpecExact | scripts/write-dist-manifest.ts:71-76 | the recorded spec is the version alone, or `npm:name@version` where the dependency is listed under another name |
| Lockfile.DepsExact | scripts/write-dist-manifest.ts:87-97 | a package depends on exactly the entries of its snapshot, less the optional ones it declares as optional peers |
| Lockfile.DepsInOrder | scripts/write-dist-manifest.ts:91-96 | dependencies come in the lockfile's order, the optional ones last |
| Lockfile.DepsCoherent | scripts/write-dist-manifest.ts:87-97 | dependencies depend on the snapshot alone, fail exactly for a snapshot the lockfile lacks, and coherence passes on to them |
| NodeModules.FindIsNearest | scripts/write-dist-manifest.ts:107-124 | the location found is the first of the lookups the tree has, and none is found only if it has none |
| NodeModules.FindKept | scripts/write-dist-manifest.ts:124-129 | a new entry changes a lookup only if it carries the name, stands around the dependent and is nearer than what was found |
| ModulePaths.OuterOfRender | scripts/write-dist-manifest.ts:110 | dropping the leftmost match of the regular expression from the path of a location of valid names gives the path of the directory around it |
| ModulePaths.RenderExact | scripts/write-dist-manifest.ts:111-127 | the path of a location, spelled out |
| ModulePaths.RenderInjective | scripts/write-dist-manifest.ts:111-127 | distinct locations of valid names have distinct paths |
| ModulePaths.LookupPaths | scripts/write-dist-manifest.ts:107-114 | the loop over path strings yields the rendered lookups, nearest first, and ends at the top level |
| ModulePaths.FindOnPaths | scripts/write-dist-manifest.ts:124 | looking rendered paths up in the rendered tree finds the rendered location that lookup on locations finds |
| Placement.RunStays | scripts/write-dist-manifest.ts:116-136 | an ended loop changes nothing any more |
| PlacementTheorems.NestingIsNeverGratuitous | scripts/write-dist-manifest.ts:107-136 | after any number of turns each location has been queued once and placed with exactly its entry's dependencies, `seen` is the tree's keys, each nested entry is a dependency of the entry around it, and above that one its name stands for a different snapshot |
| PlacementTheorems.NestedEntryIsNeeded | scripts/write-dist-manifest.ts:107-136 | with a nested entry taken out of the tree of any run, its dependent would find a different snapshot |
| PlacementTheorems.RunIsRooted | scripts/write-dist-manifest.ts:87-136 | the tree of any run holds only snapshots the roots reach, and a missing-snapshot error names one that is reached and absent |
| PlacementTheorems.PlacementNeverShadows | scripts/write-dist-manifest.ts:107-143 | when no reachable list names one package at two snapshots, after every turn each placed location finds each dependency at exactly the wanted snapshot, and the only possible error is a missing snapshot |
| PlacementTheorems.TreeContentsAreExact | scripts/write-dist-manifest.ts:87-136 | a finished tree holds exactly the snapshots the roots reach, each entry under its dependency's name, with its full dependency list placed |
| PlacementOrder.TopLevelIsFirstCome | scripts/write-dist-manifest.ts:123-129 | after any number of turns the top level has exactly the names that placed lists ask for, each at the first dependency of that name, taking the lists in the order in which their locations were placed and each in its own order |
| PlacementOrder.QueuedInOrder | scripts/write-dist-manifest.ts:116-135 | locations are placed and queued, each once, in the order in which the placed lists first ask for their entries, the root first |
| PlacementOrder.TurnPlacesHead | scripts/write-dist-manifest.ts:118-122 | a turn places the head of the queue with its list, and no other location |
| PlacementErrors.TwoVersionsNamed | scripts/write-dist-manifest.ts:128 | the "two versions" error names a package that the root's list or a wanted snapshot's names at two snapshots, and the place beneath that dependent |
| PlacementErrors.RootAsksTwice | scripts/write-dist-manifest.ts:126-129 | a second version that the root itself asks for goes to `/node_modules/<name>` first, where the root does not see it |
| PlacementTheorems.LayoutSucceedsIff | scripts/write-dist-manifest.ts:116-143 | when the loop ends, neither of its throws nor the final check fires if and only if every wanted snapshot exists and no list names one package at two snapshots |
| PlacementEnds.TurnsArePlacements | scripts/write-dist-manifest.ts:118-136 | each turn places one new location, so `n` turns have placed `n` |
| PlacementEnds.StratifiedEnds | scripts/write-dist-manifest.ts:116-136 | the loop ends, within a number of turns fixed by names and ranks, when a rank never rises along dependencies and dependents of one rank agree on every name at which one of them keeps it |
| PlacementEnds.AcyclicEnds | scripts/write-dist-manifest.ts:116-136 | on an acyclic snapshot graph the loop ends |
| PlacementEnds.AcyclicNestsShallow | scripts/write-dist-manifest.ts:116-136 | on an acyclic snapshot graph no location is deeper than there are snapshots |
| PlacementEnds.OneVersionEndsFlat | scripts/write-dist-manifest.ts:116-136 | with one snapshot for each name the loop ends with every entry at the top level, cycles or not |
| PlacementRepeats.FinishedNeverRepeats | scripts/write-dist-manifest.ts:116-143 | in a finished layout no entry is nested inside another of its snapshot with the same nested entries visible around both |
| PlacementRepeats.RepeatNeverLays | scripts/write-dist-manifest.ts:116-143 | a run that shows such a repeat after any turn never becomes a successful layout |
| PlacementRepeats.RunRepeats | scripts/write-dist-manifest.ts:116-136 | a repeat stays for the rest of the run |
| PlacementRepeats.EndsOrRepeats | scripts/write-dist-manifest.ts:116-136 | after a number of turns fixed by names and snapshots the loop has ended or shows a repeat |
| PlacementFairness.QueueIsFair | scripts/write-dist-manifest.ts:118-136 | an item at position `k` of the queue is placed `k` turns later, and no entry is lost meanwhile |
| PlacementFairness.EndlessIsComplete | scripts/write-dist-manifest.ts:116-136 | a loop that never ends comes across every wanted snapshot, so the lockfile has them all |
| PlacementRepeats.EndsIffNothingRepeats | scripts/write-dist-manifest.ts:116-136 | on a consistent lockfile the loop ends if and only if a wanted snapshot is missing or nothing ever repeats; on a complete one, if and only if it has ended by that turn |
| PlacementRepeats.LaysIff | scripts/write-dist-manifest.ts:116-143 | some run succeeds, final check included, if and only if every wanted snapshot exists, no list names one package at two snapshots and nothing ever repeats |
| PlacementDiverges.RingNeverEnds | scripts/write-dist-manifest.ts:120-136 | on the ring of two versions each of two packages no number of turns ends the loop |
| PlacementDiverges.RingIsSound | scripts/write-dist-manifest.ts:120-136 | that lockfile is well named, complete and consistent |
| Required.Marker.Walk | scripts/write-dist-manifest.ts:100-104 | the walk of one dependency adds only what it reaches without optional edges, and all that the added ones lead to; or it reports such a snapshot the lockfile lacks |
| Required.Marker.WalkAll | scripts/write-dist-manifest.ts:103-105 | the same for a list of dependencies |
| Required.Marker.WalkRoots | scripts/write-dist-manifest.ts:99-105 | `required` ends up as exactly the snapshots reached from the roots without an optional edge |
| Required.SkippingOptionalIsSafe | scripts/write-dist-manifest.ts:78-105 | whichever entries marked optional are skipped, each with everything inside it, every remaining needed dependent resolves each non-optional dependency at the same location and snapshot as before |
| Required.NeededSurvives | scripts/write-dist-manifest.ts:78-161 | every needed snapshot is still installed then |
| Shrinkwrap.Resolve | scripts/write-dist-manifest.ts:124 | the first lookup the tree has is what `Find` gives |
| Shrinkwrap.PlaceOne | scripts/write-dist-manifest.ts:123-135 | one turn of the inner loop does what `Place` says, including both throws |
| Shrinkwrap.PlaceQueue | scripts/write-dist-manifest.ts:116-136 | the queue loop computes the run of the state machine |
| Shrinkwrap.CheckPlaced | scripts/write-dist-manifest.ts:137-143 | the final check passes exactly when every placed location sees each of its dependencies, and otherwise names one that is not seen |
| Shrinkwrap.SpecsExact | scripts/write-dist-manifest.ts:152-163 | of a consistent list the recorded specs name exactly the dependencies of their kind, and npm reads them back as the locked ids |
| Shrinkwrap.SpecsRecord | scripts/write-dist-manifest.ts:152-163 | each spec is the version, or `npm:name@version` for a dependency listed under another name |
| Shrinkwrap.EntryDescribes | scripts/write-dist-manifest.ts:147-163 | of an id `name@version`, scoped or not, the entry has that version, and that name exactly when it differs from the directory's; it is marked optional exactly when it is not needed, and it carries the id's integrity and both spec lists |
| Shrinkwrap.WriteEntries | scripts/write-dist-manifest.ts:145-169 | there is one entry for each location exactly when each id has an integrity hash, and an error naming an id without one otherwise |
| Shrinkwrap.NpmPackages | scripts/write-dist-manifest.ts:86-170 | where the loop ends, a lockfile is written if and only if every wanted snapshot exists, no list names one package at two snapshots and every wanted id has an integrity hash; it then describes the finished tree entry by entry, and otherwise the error names what is wrong |
| Modularity.ReachFrom | scripts/modularity.ts:254-266 | the stack search ends with exactly what the start reaches |
| Modularity.Closure | scripts/modularity.ts:252-269 | each node is mapped to exactly what it reaches, itself included |
| Modularity.CyclesOf | scripts/modularity.ts:288-298 | every strongly connected component of two or more nodes is returned exactly once, pairwise disjoint, largest first and among equals in the order of their first nodes |
| Modularity.SortDisjoint | scripts/modularity.ts:297 | sorting by size neither drops nor repeats a group |
| Modularity.SortRanked | scripts/modularity.ts:297 | sorting by size keeps the order of groups of one size |
| Modularity.CountReached | scripts/modularity.ts:313-319 | `cd` is the size of each node's reachable set and `ccd` their sum |
| Modularity.SumPenalty | scripts/modularity.ts:321 | the penalty is the sum of g(g - 1) over the groups |
| Modularity.Score | scripts/modularity.ts:311-332 | the whole score in terms of reachability and components, with CCD divided by n, by the balanced tree's and by n * n, and zeros without nodes |
| ModularityTheorems.CcdPinnedByCycles | scripts/modularity.ts:311-332 | n + penalty <= ccd, 2 ccd <= n(n + 1) + penalty and ccd <= n^2, for distinct nodes with edges among them |
| ModularityTheorems.MutualSize | scripts/modularity.ts:320-321 | the ordered pairs that reach each other number n plus the penalty |
| ModularityTheorems.NoCyclesIffDag | scripts/modularity.ts:288-332 | there are no cycles if and only if the graph without self-edges is acyclic, if and only if CD falls along every edge to another node |
| ModularityTheorems.BalancedTreeScoresOne | scripts/modularity.ts:272-326 | the heap-shaped tree's own CCD is the denominator, so its NCCD is exactly 1 |
| BalancedTree.BalancedTreeCcd | scripts/modularity.ts:271-282 | the in-place loop totals the depths of the nodes, and 1 for no nodes |
| BalancedTree.SizesAreLevels | scripts/modularity.ts:274-280 | the heap subtree sizes add up to the depths |
| BalancedTree.LevelIsLog | scripts/modularity.ts:271-282 | the depth of node j is floor(log2 j) + 1 |
| BalancedTree.ClosedForm | scripts/modularity.ts:271-282 | with 2^k <= n < 2^(k+1) the total is (n + 1)(k + 1) - 2^(k+1) + 1 |
| Framing.BigEndianRoundTrip | dockerfiles/streamd/framing.js:25-27 | a length that fits four bytes is read back as written |
| Framing.ReadBigEndianRoundTrip | dockerfiles/streamd/framing.js:46-47 | bytes read as a length are those written for it |
| Framing.HeaderIsBigEndian | dockerfiles/streamd/framing.js:21-29 | the bytes of an encoded frame: kind, four length bytes from the highest to the lowest, payload; none exactly where kind or length does not fit |
| Framing.BigEndianDigit | dockerfiles/streamd/framing.js:27 | byte `i` of a number written in `k` bytes |
| Framing.AnnouncedIsBigEndian | dockerfiles/streamd/framing.js:46-47 | the length read from a header, byte by byte |
| Framing.FrameParser.constructor | dockerfiles/streamd/framing.js:37-39 | a new parser holds no bytes |
| Framing.FrameParser.Feed | dockerfiles/streamd/framing.js:41-53 | a call returns the complete frames of buffer and chunk and keeps the rest, or throws at an oversized header and keeps it |
| Framing.ParseEncoded | dockerfiles/streamd/framing.js:21-53 | parsing a stream of frames gives those frames and goes on with what follows |
| Framing.ParseReencodes | dockerfiles/streamd/framing.js:21-53 | re-encoding what was parsed followed by the leftover gives back the bytes |
| Framing.FeedAll | dockerfiles/streamd/framing.js:36-53 | a parser fed chunk by chunk is in the state the chunk semantics gives |
| Framing.ChunkingInvariant | dockerfiles/streamd/framing.js:41-53 | buffer, error and frames after any chunks are those of one call on their concatenation |
| Framing.ThrowsIffOversizedHeader | dockerfiles/streamd/framing.js:41-53 | a call throws if and only if the bytes so far hold all five bytes of an oversized header at a frame boundary; otherwise at most `MAX_FRAME_BYTES` + 4 bytes and no complete frame are buffered |
| Framing.ThrowsForGood | dockerfiles/streamd/framing.js:41-53 | after one throw every later call throws |
| Batcher.OutputBatcher.constructor | dockerfiles/streamd/batcher.js:27-32 | a new batcher holds nothing and has never flushed |
| Batcher.OutputBatcher.FlushNow | dockerfiles/streamd/batcher.js:34-45 | disarms the timer and writes all pending bytes in one call, if there are any |
| Batcher.OutputBatcher.Push | dockerfiles/streamd/batcher.js:48-65 | the whole new state of a push, branch by branch |
| Batcher.OutputBatcher.Dispose | dockerfiles/streamd/batcher.js:69-77 | drops pending bytes and timer for good |
| Batcher.RunIsSane | dockerfiles/streamd/batcher.js:27-79 | over any run a timer is armed exactly while bytes are pending, for `lastFlushAt + batchMs`, and the pending bytes stay under the threshold |
| BatcherTheorems.NothingIsLost | dockerfiles/streamd/batcher.js:27-68 | until disposal, bytes written followed by bytes pending are the pushes in order |
| BatcherTheorems.DisposedIsSilent | dockerfiles/streamd/batcher.js:68-77 | after disposal nothing is written |
| BatcherTheorems.NoByteWaitsLong | dockerfiles/streamd/batcher.js:34-65 | with timers at most `slack` late, every byte is written within `batchMs + slack` of its push, or still pending within that time |
| BatcherTheorems.EchoIsImmediate | dockerfiles/streamd/batcher.js:57-62 | a push `batchMs` or more after the last write, or before any, is written at once and alone |
| BatcherTheorems.WriteRate | dockerfiles/streamd/batcher.js:34-67 | any stretch of a run's writes numbers at most 1 + W / batchMs + B / maxBytes plus the calls of `flush` within its span |
| BatcherTheorems.ExplicitAreFlushes | dockerfiles/streamd/batcher.js:66-67 | the explicit writes of any stretch number at most the calls of `flush` within its span |
| BatcherSizes.WritesAreSmall | dockerfiles/streamd/batcher.js:23-65 | a write holds at most one push beyond what can be waiting: one byte less than the threshold, or nothing |
| BatcherSizes.LargestWriteHappens | dockerfiles/streamd/batcher.js:23-65 | some run makes a write of exactly that size |
| BatcherSizes.NeverOversizedIff | dockerfiles/streamd/batcher.js:23-65 | for every window, threshold and bound on pushes, no run writes more than a frame may hold if and only if pushes are at most the cap less what can be waiting |
| BatcherSizes.DefaultsNeverOversized | dockerfiles/streamd/batcher.js:21-27 | with 8 ms, 64 KiB and the cap of 1 MiB that is at most 983041 bytes |
| Delivery.StreamIsParsed | dockerfiles/streamd/streamd.js:296-299 | a client fed any part of the stream in any chunks gets, without error, frames of type 0 with the payloads of the first writes, and of all writes from all of it |
| Delivery.EndToEnd | dockerfiles/streamd/streamd.js:296-300 | what the client has decoded is a prefix of what was pushed, and once the stream has arrived only what is pending is missing |
| Delivery.FlushIsBarrier | dockerfiles/streamd/streamd.js:302-308 | a client that has received everything up to a flush has decoded everything pushed |
| CliExternals.PackageNameExact | scripts/check-cli-externals.ts:53-56 | of an import of a valid package, or of a file in it, the package is named |
| CliExternals.PackageNameParts | scripts/check-cli-externals.ts:53-56 | of any specifier the part before the first slash is named, or before the second if it starts with an `@` |
| CliExternals.Visit | scripts/check-cli-externals.ts:40-48 | one chunk's imports are queued once or recorded, and nothing else |
| CliExternals.StaticExternals | scripts/check-cli-externals.ts:35-51 | exactly the packages that chunks reachable by static imports import statically, with or without cycles among chunks |
| CliExternals.LoadedByImports | scripts/check-cli-externals.ts:41-48 | a chunk loads the packages of its external imports and what the chunks of the others load, dynamic imports left aside |
| ApplyEdits.EditOnce | dockerfiles/agent-patches/apply-edits.js:24-29 | one turn of the edit loop |
| ApplyEdits.Apply | dockerfiles/agent-patches/apply-edits.js:19-33 | the loop computes the fold of the edits and marks the result |
| ApplyEdits.AppliesIffAnchored | dockerfiles/agent-patches/apply-edits.js:24-27 | an edit applies if and only if its anchor is not empty and occurs once, overlaps counted; the error says whether it is missing |
| ApplyEdits.EditsInPlace | dockerfiles/agent-patches/apply-edits.js:28-29 | the text takes the place of the anchor, or comes right before or right after it, and the text around stays |
| ApplyEdits.FirstEditFirst | dockerfiles/agent-patches/apply-edits.js:23-30 | edits apply one after the other, the first of the list first |
| ApplyEdits.MarkedOnce | dockerfiles/agent-patches/apply-edits.js:20-32 | a text with this patch's marker is left alone, any other gets the edits and then the marker comment, spelled out, below its first line or at the top of a single line |
| ApplyEdits.AppliesExactly | dockerfiles/agent-patches/apply-edits.js:14-27 | the patch succeeds if and only if every anchor occurs once in the text at its turn, and otherwise names the first edit whose anchor does not |
| ApplyEdits.SecondRunIsNoOp | dockerfiles/agent-patches/apply-edits.js:11-21 | a second run changes nothing |
| ApplyEdits.FirstLineStays | dockerfiles/agent-patches/apply-edits.js:31-32 | the first line stays first and the marker is the line below it |
| ApplyEdits.InsertionsAreReversible | dockerfiles/agent-patches/apply-edits.js:28-32 | for insertions only, dropping the marker line and undoing them in reverse recovers the source |
| InputHash.SortedUnique | scripts/build-frontend-if-changed.ts:57 | a collection of paths has one sorted arrangement |
| InputHash.AtMostExact | scripts/build-frontend-if-changed.ts:57 | a path comes before those it begins and those with a higher character at the first difference |
| InputHash.HashInputs | scripts/build-frontend-if-changed.ts:56-61 | the loop gives the digest of the text of the sorted paths and content digests |
| InputHash.TextIsLines | scripts/build-frontend-if-changed.ts:57-60 | the text lists the sorted paths, for each its name, the digest of its contents and a NUL behind either |
| InputHash.WalkOrderIsIrrelevant | scripts/build-frontend-if-changed.ts:35-61 | the digested text does not depend on the order of the walk |
| InputHash.TextDeterminesInputs | scripts/build-frontend-if-changed.ts:35-61 | for NUL-free paths and digests one text means one map from paths to contents, up to a collision of the digest on two contents of one path |
| InputHash.KeyDeterminesInputs | scripts/build-frontend-if-changed.ts:40-62 | equal inputs have equal keys, and different inputs with equal keys exhibit a collision of the digest |
| BuildCache.TrimExact | scripts/build-frontend-if-changed.ts:80 | trimming the marker takes off exactly the white space at either end |
| BuildCache.Workspace.BuildIfChanged | scripts/build-frontend-if-changed.ts:78-90 | an undisturbed run skips exactly when the trimmed marker is the current key and the index exists, and else leaves the build with a marker of that key |
| BuildCache.BuildLeavesComplete | scripts/build-frontend-if-changed.ts:78-90 | after it `dist` is the complete output of the inputs, and a second run skips |
| BuildCache.SkippedBuildsAreComplete | scripts/build-frontend-if-changed.ts:10-16 | over any run of builds, edits and stops at any step, a skipped build faces the complete output of the current inputs, if emptying a complete `dist` starts with the marker or the index and no input changes before it is built |
| BuildCacheSafety.MarkerOrIndexMustGoFirst | scripts/build-frontend-if-changed.ts:10-16 | if any other output file may be the first to go, some run from a finished checkout skips with that file missing |
| BuildCacheSafety.InputsMustSettle | scripts/build-frontend-if-changed.ts:78-90 | if an input can change while `dist` is emptied or built, some run from an empty checkout skips with the wrong output |
| BuildCacheSafety.SafeIff | scripts/build-frontend-if-changed.ts:10-90 | for any rule on what emptying may remove when, and any stages in which inputs may change, the protocol is safe if and only if both of the above are ruled out |
| BuildCacheSafety.GuardedForAllBuilds | scripts/build-frontend-if-changed.ts:10-16 | such a rule is safe whatever a build makes if and only if nothing but marker and index may go while both stand |

## Left out

- EndsIffNothingRepeats: is about lockfiles no list of which names one package at two snapshots; with such a list the layout never succeeds (`LaysIff`), and when the loop ends is covered only by `StratifiedEnds` and `EndsOrRepeats`.
- NpmPackages: takes the lockfile as finite maps and the root dependencies as parsed; reading files, YAML and JSON, catalog substitution, the `resolved` URL and the `os`, `cpu` and `libc` fields are left out.
- LookupPaths: names are those npm accepts, plain or scoped; the placement itself is modelled on locations, and `RenderInjective` and `FindOnPaths` carry it over to path strings.
- CheckPlaced: says that some unseen dependency is named, not that it is the first in insertion order; likewise `WriteEntries` for the id without an integrity hash. The order of the written entries is left out.
- CyclesOf: groups are sets, so the alphabetical order inside a group is left out, as is the order in which a node's edges are visited.
- Score: ratios are real numbers, without floating-point rounding; dependency extraction, module names, barrel accounting and printing are left out.
- OutputBatcher.Push: the clock is read once per call and never goes back; a `write` callback that throws or pushes again is left out, and so is `unref`.
- FrameParser.Feed: buffers are byte sequences, without the sharing of `subarray`; JSON payloads are their bytes.
- StaticExternals: reading the metafile and the comparison with the declared dependencies in `main` are left out.
- Apply: file and command-line handling are left out.
- HashInputs: the walk is a list of paths, each once; the digest is any function, and only the results about keys mention its collisions.
- AtMost: orders strings by Unicode scalar value where `Array.sort` orders them by UTF-16 code unit, which can only differ outside the Basic Multilingual Plane; that it is total and transitive is all the results use.
- Workspace.BuildIfChanged: is the undisturbed run as a method; runs that stop or fail at any step are transitions of the state machine in the same module, where `dist` and the inputs are values.
- SkippedBuildsAreComplete: assumes hexadecimal digests and no two of the inputs that occur sharing a key; `SafeIff` shows that its other two conditions are needed wherever two inputs have different outputs, one of them with an index.
- Browser and Electron scripts, provider generation, entry points and configuration hold no algorithm of this kind.
