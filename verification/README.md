# Verification of the forwarder, the policy compiler and its translator

Dafny models of the parts of this repository whose behaviour is hardest to see from the code, with proofs about all
their inputs, runs and schedules. `dafny verify dfyconfig.toml` checks everything.

## What is modelled

**The l2fwd packet forwarder.** `PortMask`, `LcoreLists` and `ForwarderSetup` model start-up: the check of the port map
with 32-bit masks, the destination table and the greedy assignment of ports to lcores, as methods on a class with the
program's arrays. `Forwarding` is the state machine of all lcores running at once on shared counters and TX buffers. An
increment is a load and a later store, so a second writer would lose updates; that there is never one follows from the
involution and the partition established by start-up. `Polling` says what one pass of the loop does for each port. The
NIC is modelled by contract: a full or flushed buffer is emptied, the NIC takes any number of its first packets, and the
error callback counts the others.

**The policy generator.** `Yaml` holds the values, `Merge` the meaning of the overlay merge and its laws, and
`SetValues` the in-place merge itself on heap maps, proved to compute that meaning. `CustomResources` applies it to the
sections of a resource. `PolicySummary` says what the files of one policy amount to and when they are accepted; `Build`
is the main loop, with the annotation maps, the policy template and the built resources as shared heap objects.
`Selectors` and `Strings` cover the placement rule and the check on contradictory rules.

**The translator to the second format.** `MergeKeys` models the collection and injection of merge keys; `KeyMerge` and
`StrategicMerge` compare merging by key with merging by position, for one list and for whole patches, and
`CustomResources` for the sections of a resource. `Selectors` compares the two selectors, `EvaluationIntervals` the two
treatments of evaluation intervals. `Placeholders`, `Rendering` and `Translator` model the line rewriter, the rendering
of manifests for a machine config pool, and the loops around them.

**Two smaller pieces.** `ConnectivityMatrix` models the goroutines, channel and wait groups of the connectivity matrix
builder. `Comments` models the insertion of collected comments into a converted file.

Iteration over a Go map is an arbitrary choice among the keys not yet seen. A panic on a type assertion is a `false`
result.

## Results that differ from what one might expect

- Overlays compose, whatever they are applied to, exactly if the first one has no placeholder in a map the merge can
  descend to (`Merge.ComposesExactly`).
- Applying an overlay twice gives the same value, but the second application avoids a panic exactly for uniform overlays
  (`Merge.OverlayIdempotent`, `Merge.ReapplyingIsSafe`).
- With comma-separated values the check on binding rules accepts rules that match nothing
  (`Selectors.CheckMissesLists`; `Selectors.VerdictRightExactly` says when it is right).
- The translated selector accepts fewer clusters than the placement rule as soon as an excluded key has a value, unless
  the rules are contradictory (`Selectors.TranslationExactly`).
- A translated patch whose keys fit means the same exactly if, wherever the merges descend, it has no null (which keeps
  the source value in one and deletes the field in the other), leaves no placeholder of the source unset, and covers
  every list of maps that has no merge key (`StrategicMerge.DocumentAgrees`).
- What a user gives for `data`, `binaryData` or `stringData` is not in the translated patch
  (`CustomResources.SectionDropped`).
- A pool name can leave or complete the pattern it replaces, as the empty one does (`Rendering.EmptyPoolUnsafe`);
  `Rendering.SafePoolsExactly` says which ones cannot.
- A header comment with a blank line inside puts a line that is no comment into the converted file
  (`Comments.BlankLineStays`).
- If the first file of a policy yields no resource, every further file of that policy is refused
  (part of `PolicySummary.SummarizeExactly`).

## Model

| member | source | states |
|---|---|---|
| ForwarderSetup.Forwarder.CheckPortPairConfig | tools/s2i-dpdk/test/test-app/l2fwd/main.c:537-573 | The bitmask check accepts exactly when every port of every pair is enabled and present and no two pairs share a port; the enabled mask then becomes exactly the ports of the map, and is unchanged on rejection. |
| ForwarderSetup.Forwarder.FillFromPairs | tools/s2i-dpdk/test/test-app/l2fwd/main.c:700-714 | Pairwise disjoint pairs give a table that maps each port to its mate, is an involution on the paired ports and stays inside them. |
| ForwarderSetup.PairsInvolution | tools/s2i-dpdk/test/test-app/l2fwd/main.c:706-714 | Whatever links both ports of every pair to each other is an involution on the paired ports. |
| ForwarderSetup.Forwarder.FillAlternating | tools/s2i-dpdk/test/test-app/l2fwd/main.c:715-734 | Without a port map the `i`-th enabled port forwards to its neighbour in enumeration order; the table is an involution whose only fixed point is the last port of an odd count. |
| ForwarderSetup.NeighboursInvolution | tools/s2i-dpdk/test/test-app/l2fwd/main.c:715-734 | A table that pairs neighbours is an involution on them, with a fixed point exactly at the last of an odd count. |
| ForwarderSetup.Forwarder.AssignLcores | tools/s2i-dpdk/test/test-app/l2fwd/main.c:737-765 | Assignment succeeds exactly when enabled ports <= enabled lcores * quota; the lists concatenated are the enabled ports in order, only enabled lcores are used and none beyond its quota, and the lcore count is ports / quota rounded up. |
| ForwarderSetup.LcoresUsed | tools/s2i-dpdk/test/test-app/l2fwd/main.c:746-765 | In every greedy filling the number of lcores in use is the number of ports divided by the quota, rounded up, and never exceeds the enabled lcores. |
| ForwarderSetup.AssignmentPartitions | tools/s2i-dpdk/test/test-app/l2fwd/main.c:740-765 | Lists that concatenate to the enabled ports are a partition: every enabled port is polled by exactly one lcore, exactly once. |
| LcoreLists.GreedyLength | tools/s2i-dpdk/test/test-app/l2fwd/main.c:746-762 | Every lcore passed is disabled and empty or enabled and full, so the ports assigned are quota times the enabled lcores passed, plus the current list. |
| ForwarderSetup.Forwarder.Start | tools/s2i-dpdk/test/test-app/l2fwd/main.c:684-765 | From the parsed arguments to the launch: exactly when the tables are built; that they form a valid configuration (involution and partition); with a port map each pair is linked, without one the mask stays and neighbouring enabled ports forward to each other. |
| Forwarding.LocalStepInv | tools/s2i-dpdk/test/test-app/l2fwd/main.c:184-199 | Every step of an lcore (load or store of a counter, flush, receive, forward, drain, quit) keeps: what was received is what was handed over, buffered or in hand, in order, with counters behind only by the increments still pending. |
| Forwarding.StepWritesOwn | tools/s2i-dpdk/test/test-app/l2fwd/main.c:246-296 | A step writes only rx cells of ports the lcore polls and tx, dropped and buffer cells of their destinations. |
| Forwarding.StepReadsOwn | tools/s2i-dpdk/test/test-app/l2fwd/main.c:246-296 | A step reads no other cell either: run on memory cut down to those cells it does the same. |
| Forwarding.OwnershipDisjoint | tools/s2i-dpdk/test/test-app/l2fwd/main.c:249-251 | In a valid configuration no two lcores own a common cell. |
| Forwarding.RunsAlone | tools/s2i-dpdk/test/test-app/l2fwd/main.c:238-298 | In any interleaving an lcore ends up as if it had run alone. |
| Forwarding.InterleavingIrrelevant | tools/s2i-dpdk/test/test-app/l2fwd/main.c:238-298 | Two runs in which each lcore does the same steps end in the same state, however they interleave. |
| Forwarding.ConcurrentIsSequential | tools/s2i-dpdk/test/test-app/l2fwd/main.c:238-298 | Any concurrent run ends exactly where the lcores running one after the other would, although each increment is a separate load and store. |
| Forwarding.PacketConservation | tools/s2i-dpdk/test/test-app/l2fwd/main.c:283-296 | In every reachable state, for every enabled port: packets received are those handed over on its destination, those in that buffer and those of the burst in hand, in order; with no increment pending rx = tx + dropped + buffered + burst. |
| Forwarding.DrainedPortsBalance | tools/s2i-dpdk/test/test-app/l2fwd/main.c:246-258 | Right after an lcore's drain pass each of its ports has rx = tx + dropped. |
| Polling.Pass | tools/s2i-dpdk/test/test-app/l2fwd/main.c:238-298 | From the top of the loop, unless told to quit, an lcore is back at the top after a bounded number of steps. Until then it has polled each of its ports once, in order, taken the first packets that had arrived (at most a burst) and put them through the buffer, which is handed over when it holds a burst; if it was time to drain, all buffers were handed over before the first poll, and otherwise nothing was. |
| Polling.QuitStops | tools/s2i-dpdk/test/test-app/l2fwd/main.c:238-239 | Told to quit at the top of the loop, an lcore changes nothing any more. |
| Polling.OwnTrace | tools/s2i-dpdk/test/test-app/l2fwd/main.c:238-298 | In any run of all lcores an lcore sees, after each of its steps, what it would see on its own. |
| Polling.EveryPortServed | tools/s2i-dpdk/test/test-app/l2fwd/main.c:283-296 | So in any interleaving every port of an lcore that keeps taking steps is served: polled once per pass, its packets forwarded, its buffer drained before if it was time. |
| SetValues.SetValues | ztp/policygenerator/policyGen/policyBuilder.go:330-388 | The in-place merge, its two loops in any iteration order: it panics exactly if the overlay does not fit somewhere the merge descends, otherwise the source holds `MergeMaps` of both values, and no object of the overlay is written although parts of it become shared. |
| SetValues.MergeItems | ztp/policygenerator/policyGen/policyBuilder.go:340-367 | The branch for lists of maps, on heap objects: in-place merge by position, then the tail of the overlay. |
| Merge.CompatibleExactly | ztp/policygenerator/policyGen/policyBuilder.go:340-367 | The merge does not panic exactly if at every path it descends to a map meets a map, and a list that starts with a map meets a list, both of maps only; every other source value fits anything. |
| Merge.VisitedLevel | ztp/policygenerator/policyGen/policyBuilder.go:330-388 | At every visited path the result is the merge of what both trees hold there. |
| Merge.OverlayLeafWins | ztp/policygenerator/policyGen/policyBuilder.go:368-385 | A string or scalar of the overlay is at the same path of the result. |
| Merge.LeafProvenance | ztp/policygenerator/policyGen/policyBuilder.go:330-388 | Every string or scalar of the result comes from the same path of one of the two trees. |
| Merge.UntouchedSurvives | ztp/policygenerator/policyGen/policyBuilder.go:332-338 | A source subtree that is no placeholder and that the overlay does not set survives verbatim at every path below. |
| Merge.PlaceholdersCleared | ztp/policygenerator/policyGen/policyBuilder.go:332-338 | At every visited map a placeholder of the result was put there by the overlay; a key is missing exactly when the overlay does not mention it and the source has a placeholder or nothing. |
| Yaml.PlaceholderText | ztp/policygenerator/policyGen/policyBuilder.go:334 | A placeholder is the empty string or a string that starts with a dollar sign. |
| Merge.ListTails | ztp/policygenerator/policyGen/policyBuilder.go:340-367 | Lists of maps keep source items past the overlay and gain overlay items past the source. |
| Merge.OthersReplaced | ztp/policygenerator/policyGen/policyBuilder.go:368-375 | Any other list, string, scalar or null of the source is replaced. |
| Merge.OverlaysCompose | ztp/policygenerator/policyGen/policyBuilder.go:330-388 | merge(merge(s, v1), v2) = merge(s, merge(v1, v2)) when v1 is settled: no placeholder in a map the merge can descend to; that the right side does not panic is proved too. |
| Merge.ComposesExactly | ztp/policygenerator/policyGen/policyBuilder.go:330-388 | The first overlays that compose with every source and every second overlay are exactly the settled ones. |
| Merge.Separated | ztp/policygenerator/policyGen/policyBuilder.go:332-338 | Any other overlay comes with a source and a second overlay, both fitting, for which the law fails. |
| Merge.PlaceholderInFirstOverlayMatters | ztp/policygenerator/policyGen/policyBuilder.go:332-338 | The smallest such input. |
| Merge.OverlayIdempotent | ztp/policygenerator/policyGen/policyBuilder.go:330-388 | merge(merge(s, v), v) = merge(s, v) for every compatible v, and for each such s and v the second application avoids a panic exactly when v is uniform (each list of maps holds maps only). |
| Merge.ReapplyingIsSafe | ztp/policygenerator/policyGen/policyBuilder.go:340-367 | So the overlays that can be applied again to whatever they were first applied to are exactly the uniform ones. |
| MergeKeys.CollectMergeKeys | ztp/tools/pgt2acmpg/packages/fileutils/mergekeys.go:62-75 | The schema walk, in any order, yields exactly one entry for every path through nested properties to an array with a merge strategy and key, and no other. |
| MergeKeys.CollectedExactly | ztp/tools/pgt2acmpg/packages/fileutils/mergekeys.go:68-70 | An entry is in that list exactly if it is the path and key of a property that is an array, merged, with a key. |
| MergeKeys.SplitFieldPath | ztp/tools/pgt2acmpg/packages/fileutils/mergekeys.go:62-75 | Splitting an entry's path gives its field names back exactly when no name holds a dot and the path does not start with an empty name (unless it is the only one). |
| MergeKeys.InjectMergeKeyAtPath | ztp/tools/pgt2acmpg/packages/fileutils/mergekeys.go:103-132 | The injection, with its navigation in patch and source, computes `Inject` on the split path. |
| MergeKeys.InjectByNavigation | ztp/tools/pgt2acmpg/packages/fileutils/mergekeys.go:103-149 | `Inject` changes the list reached by navigation when both sides have items there, and nothing otherwise. |
| MergeKeys.InjectionsCommute | ztp/tools/pgt2acmpg/packages/fileutils/mergekeys.go:89-97 | Two injections into one patch can be done in either order, whatever their paths. |
| MergeKeys.AnyOrder | ztp/tools/pgt2acmpg/packages/fileutils/mergekeys.go:79-100 | All orders of a set of entries give the same patch. |
| MergeKeys.InjectAllIdempotent | ztp/tools/pgt2acmpg/packages/fileutils/mergekeys.go:79-100 | Injecting all entries a second time changes nothing. |
| MergeKeys.InjectMergeKeys | ztp/tools/pgt2acmpg/packages/fileutils/mergekeys.go:79-100 | Every patch gets every injection. |
| MergeKeys.InjectionKeepsPatch | ztp/tools/pgt2acmpg/packages/fileutils/mergekeys.go:118-131 | Every string or scalar of the patch keeps its place and value. |
| MergeKeys.InjectionAddsOnlyKeys | ztp/tools/pgt2acmpg/packages/fileutils/mergekeys.go:118-131 | Whatever is new is the key field of an item of that list, with the value the source has there. |
| KeyMerge.CoveredExactly | ztp/policygenerator/policyGen/policyBuilder.go:330-388 | Merging a patch gives the patch itself exactly when every surviving source key is set and covered, and no list is longer than the patch's. |
| KeyMerge.MergesAgree | ztp/policygenerator/policyGen/policyBuilder.go:330-388 | For all inputs: the generator's merge and a merge that replaces lists and deletes on null agree exactly when, wherever they descend, the source has placeholders only under keys the patch sets, the patch has no null, and lists of maps are covered by the patch. |
| KeyMerge.NullsDisagree | ztp/policygenerator/policyGen/policyBuilder.go:369-375 | The smallest such null: one merge keeps the source value, the other deletes the field. |
| KeyMerge.InjectionPreservesMeaning | ztp/tools/pgt2acmpg/packages/fileutils/mergekeys.go:118-131 | For source items with distinct keys and a patch list whose keys fit, merging the injected list by key gives the items of the positional merge of the original list exactly when the two merges agree at every position. |
| StrategicMerge.InjectAllField | ztp/tools/pgt2acmpg/packages/fileutils/mergekeys.go:79-132 | What all injections together do to one field of a patch: the injections below it, or its own key injected into its items, or nothing. |
| StrategicMerge.CollectedCovers | ztp/tools/pgt2acmpg/packages/fileutils/mergekeys.go:62-75 | For field names that survive splitting, the entries collected from a schema name exactly its merge paths. |
| StrategicMerge.DocumentAgrees | ztp/tools/pgt2acmpg/packages/fileutils/mergekeys.go:79-132 | For whole patches with all injections of a schema, where the keys of keyed lists fit: merging by key there and replacing all other lists gives what the generator's merge of the original patch gives, exactly when the document is alike for both merges: no null, no placeholder left unset, no unkeyed list of maps the patch does not cover. |
| StrategicMerge.TranslatePatches | ztp/tools/pgt2acmpg/main.go:231-250 | Collecting the entries of a schema, in any order, and injecting them into every patch has that effect on each patch whose keys fit. |
| CustomResources.GetCustomResource | ztp/policygenerator/policyGen/policyBuilder.go:232-328 | Building a resource fails exactly without metadata or when a merge does not fit. Name and namespace are those given, else those of the source; labels and annotations hold every text given and the source entries not given except placeholders; each section is merged or created; all other fields stay. |
| CustomResources.MergeMetadata | ztp/policygenerator/policyGen/policyBuilder.go:249-281 | The same for the metadata alone, field by field. |
| CustomResources.MergeSection | ztp/policygenerator/policyGen/policyBuilder.go:283-325 | A section is merged if the source has it, even with nothing given, and is created if only the user has it; no other field changes. |
| CustomResources.TranslatedPatch | ztp/tools/pgt2acmpg/main.go:431-446 | The translator's patch has the metadata, spec and status that are not empty, and nothing else. |
| CustomResources.SectionAgrees | ztp/tools/pgt2acmpg/main.go:431-446 | For spec and status the injected patch, merged by key, gives the section the generator builds exactly when the section is alike for both merges, or is in neither and not given empty. |
| CustomResources.SectionDropped | ztp/tools/pgt2acmpg/main.go:431-446 | Data, binaryData and stringData stay as in the source, which is right exactly when building would not change them. |
| PolicySummary.SettlesExactly | ztp/policygenerator/policyGen/policyBuilder.go:133-169 | Overrides are accepted exactly when the explicit ones are some defaults followed by repeats of one value; the result is the last explicit one, or the default. |
| PolicySummary.WavesExactly | ztp/policygenerator/policyGen/policyHelper.go:168-186 | The wave step succeeds exactly when no two resources carry different string waves; the policy carries that wave, or none. |
| PolicySummary.SummarizeExactly | ztp/policygenerator/policyGen/policyBuilder.go:88-172 | The fold over the files of a policy succeeds exactly when each condition (files read, name length, valid intervals, remediation, both intervals, waves, a resource in the first of several files) holds on its own, and then gives the settled values and the documents of all files in order. |
| PolicySummary.TemplateAt | ztp/policygenerator/policyGen/policyHelper.go:137-154 | In the expected policy each document of each file comes after those before it, with the compliance type its file sets, or else the template's. |
| EvaluationIntervals.ConvertedPolicyAgrees | ztp/tools/pgt2acmpg/main.go:402-430 | The policy converted from the same source files, with its unchecked last-one-wins intervals, puts the same intervals in force as the generator, for every policy the generator accepts. |
| Build.SetPolicyDeployWave | ztp/policygenerator/policyGen/policyHelper.go:168-195 | The policy takes or must match the resource's string wave; on success the shared resource has lost its wave, string or not, and an annotation map that became empty. |
| Build.CreateAcmPolicy | ztp/policygenerator/policyGen/policyBuilder.go:420-453 | Fails exactly on a name beyond 63 characters or clashing waves; the templates refer to the resources, which have lost their waves, with the compliance type the file sets or else the default. |
| Build.AppendAcmPolicy | ztp/policygenerator/policyGen/policyBuilder.go:455-476 | Fails exactly without a previous template or on clashing waves; appends behind what is there, which stays, with the compliance type the file sets or else the default. |
| Build.NewPolicy | ztp/policygenerator/policyGen/policyBuilder.go:88-126 | The first file of a policy: succeeds exactly when `Create` does, with the heap showing its summary. |
| Build.AppendPolicy | ztp/policygenerator/policyGen/policyBuilder.go:127-171 | A further file: succeeds exactly when `Append` does, with the heap showing its summary and policy and template in agreement. |
| Build.WrapStep | ztp/policygenerator/policyGen/policyBuilder.go:73-172 | One file joining its policy through shared references leaves every other policy and all plain resources as they are. |
| Build.BuildFiles | ztp/policygenerator/policyGen/policyBuilder.go:42-174 | The loop over all files: fails exactly at a file that fails; otherwise outputs and heap show what each policy's and each plain file's documents demand. |
| Build.Build | ztp/policygenerator/policyGen/policyBuilder.go:33-200 | Succeeds exactly when names are set, every file is readable, every policy's files are acceptable and, if there is a policy, clusters can be selected and names fit; then exactly the outputs asked for are present. |
| Build.PolicyAsExpected | ztp/policygenerator/policyGen/policyBuilder.go:78-172 | Each policy but the two placement names has the settled overrides, agreeing at policy and template level; the wave of those of its documents that carry one; its documents in file order, each with the compliance type of its file or else the default; and no embedded resource keeps a wave. |
| Build.PlainAsBuilt | ztp/policygenerator/policyGen/policyBuilder.go:52-72 | Unwrapped resources are output as built, waves included; of files with one output name the last counts. |
| Build.PlainNameExactly | ztp/policygenerator/policyGen/policyBuilder.go:55-57 | Several resources of one file go to a name made of the file name without its extension. |
| Build.StemExactly | ztp/policygenerator/policyGen/policyBuilder.go:57 | The extension starts at the last dot of the last path element, if that has one. |
| Build.Place | ztp/policygenerator/policyGen/policyBuilder.go:175-196 | The rule means the binding rules, and the binding lists the subjects collected. |
| Build.SubjectsOnce | ztp/policygenerator/policyGen/policyBuilder.go:125-126 | No policy is listed twice. |
| Build.SeenFirstAt | ztp/policygenerator/policyGen/policyBuilder.go:88-126 | Exactly the policies some file mentions are listed. |
| Build.SubjectsInOrder | ztp/policygenerator/policyGen/policyBuilder.go:125-126 | They are listed in the order in which files first mention them. |
| Build.KeysApart | ztp/policygenerator/policyGen/policyBuilder.go:71-76 | Outputs of plain resources and of policies never overwrite each other, unless the fixed part of one kind of name starts with that of the other. |
| Build.KeysClashExactly | ztp/policygenerator/policyGen/policyBuilder.go:71-76 | In exactly those templates some plain output and some policy would share a name. |
| Build.KubernetesNamesFit | ztp/policygenerator/policyGen/policyBuilder.go:71-76 | A template name without a slash is never one of them. |
| Selectors.CreatePlacementRule | ztp/policygenerator/policyGen/policyHelper.go:79-124 | The expressions are the same for every map iteration order and accept exactly the clusters the rules describe. |
| Selectors.CheckBindingRules | ztp/policygenerator/policyGen/policyHelper.go:65-77 | Rejects exactly when a key is both bound and excluded with the same value or with no value. |
| Selectors.SatisfiableExactly | ztp/policygenerator/policyGen/policyHelper.go:79-124 | Some cluster can match exactly when every key both bound and excluded leaves a value. |
| Selectors.RejectionSound | ztp/policygenerator/policyGen/policyHelper.go:65-77 | Rejected rules match no label assignment. |
| Selectors.CheckDecides | ztp/policygenerator/policyGen/policyHelper.go:65-77 | For comma-free values acceptance means that a matching cluster exists. |
| Selectors.VerdictRightExactly | ztp/policygenerator/policyGen/policyHelper.go:65-77 | In general the verdict is right exactly when accepted rules leave a value for every key both bound and excluded. |
| Selectors.CheckMissesLists | ztp/policygenerator/policyGen/policyHelper.go:65-77 | A concrete pair with a comma that is accepted and matches nothing. |
| Selectors.LabelToSelector | ztp/tools/pgt2acmpg/packages/labels/labels.go:15-45 | The translated selector, for every map iteration order, accepts exactly the described clusters. |
| Selectors.TranslationRefines | ztp/tools/pgt2acmpg/packages/labels/labels.go:15-45 | For named keys and comma-free values every cluster it accepts is accepted by the placement rule. |
| Selectors.TranslationExactly | ztp/tools/pgt2acmpg/packages/labels/labels.go:23-45 | Both accept the same clusters exactly when no excluded key has a value, or the rules are contradictory. |
| Selectors.ExpressionsMeaning | vendor/k8s.io/apimachinery/pkg/labels/selector.go:236-270 | The expressions, with the library's meaning of the four operators, accept exactly the clusters the rules describe. |
| Strings.SortedKeysUnique | ztp/policygenerator/policyGen/policyHelper.go:212-219 | A set of keys has one sorted list, so the enumeration order is lost. |
| Strings.SortKeys | ztp/policygenerator/policyGen/policyHelper.go:212-219 | Collecting the keys in any order and sorting them gives that list. |
| Strings.LessExactly | ztp/policygenerator/policyGen/policyHelper.go:217 | The order is that of the first difference: the shorter string, or the smaller character. |
| Placeholders.ScalarRegex | ztp/tools/pgt2acmpg/packages/fileutils/fileutils.go:36 | The predicate for `key: $value` holds exactly of the lines its regular expression describes. |
| Placeholders.ListItemRegex | ztp/tools/pgt2acmpg/packages/fileutils/fileutils.go:37 | The same for `- $value`. |
| Placeholders.ListItemScalarRegex | ztp/tools/pgt2acmpg/packages/fileutils/fileutils.go:38 | The same for `- key: $value`. |
| Placeholders.BareRegex | ztp/tools/pgt2acmpg/packages/fileutils/fileutils.go:39 | The same for an indented bare `$value`. |
| Placeholders.CommentOutParentKeyIfSoleChild | ztp/tools/pgt2acmpg/packages/fileutils/fileutils.go:82-118 | The two scans: exactly one line changes, the parent, and only if no other child follows. |
| Placeholders.ParentCommentedExactly | ztp/tools/pgt2acmpg/packages/fileutils/fileutils.go:82-118 | For a placeholder in a list or on its own: the closest line before it that is neither blank nor a comment gets a mark for it exactly if it ends in a colon and the first line of content after the placeholder, if any, is indented no deeper. |
| Placeholders.OthersKeepTheirs | ztp/tools/pgt2acmpg/packages/fileutils/fileutils.go:51-69 | Every other line has its own mark or none. |
| Placeholders.IndentExactly | ztp/tools/pgt2acmpg/packages/fileutils/fileutils.go:109-110 | The indentation counts the blanks and tabs in front of anything else. |
| Placeholders.SkippedExactly | ztp/tools/pgt2acmpg/packages/fileutils/fileutils.go:85-88 | Skipped are blank lines and lines with a hash after blanks. |
| Placeholders.ColonExactly | ztp/tools/pgt2acmpg/packages/fileutils/fileutils.go:89-91 | A parent key is a colon with nothing but blanks after it. |
| Placeholders.CommentOutLinesWithPlaceholders | ztp/tools/pgt2acmpg/packages/fileutils/fileutils.go:51-69 | The loop with its writes to earlier lines gives each line its own mark and that of its children: lines only ever gain `# ` prefixes. |
| Placeholders.ParentOnce | ztp/tools/pgt2acmpg/packages/fileutils/fileutils.go:82-118 | Two placeholders never comment out the same parent. |
| Placeholders.CommentedParentHasNoChild | ztp/tools/pgt2acmpg/packages/fileutils/fileutils.go:82-118 | When a parent is commented out, every line of its deeper block is blank or a comment afterwards. |
| Placeholders.NoPlaceholderLeft | ztp/tools/pgt2acmpg/packages/fileutils/fileutils.go:53-69 | No output line matches any of the four patterns. |
| Placeholders.RewriteIdempotent | ztp/tools/pgt2acmpg/packages/fileutils/fileutils.go:45-77 | A second run changes nothing. |
| Placeholders.RewriteTextIdempotent | ztp/tools/pgt2acmpg/packages/fileutils/fileutils.go:45-77 | The same for whole files, through splitting and joining. |
| Rendering.FileSystem.RenderMCPLines | ztp/tools/pgt2acmpg/packages/fileutils/fileutils.go:121-149 | One file rendered: the new name, the new text, and no other file touched. |
| Rendering.RenderedPathExactly | ztp/tools/pgt2acmpg/packages/fileutils/fileutils.go:131-135 | The new name is the old one with the pool in front of `.yaml`, for files that hold the pattern; others keep theirs. |
| Rendering.FirstReplaced | ztp/tools/pgt2acmpg/packages/fileutils/fileutils.go:133 | Replacing takes the first occurrence and goes on behind it. |
| Rendering.NoneReplaced | ztp/tools/pgt2acmpg/packages/fileutils/fileutils.go:132-133 | Without an occurrence it changes nothing. |
| Rendering.NothingLeft | ztp/tools/pgt2acmpg/packages/fileutils/fileutils.go:132-135 | After replacing, no `$mcp` is left, for safe pool names. |
| Rendering.SafePoolsExactly | ztp/tools/pgt2acmpg/packages/fileutils/fileutils.go:132-135 | The pool names for which no text keeps the pattern are exactly those that do not hold it, do not end in a start of it or start with an end of it, and are not inside it. |
| Rendering.EmptyPoolUnsafe | ztp/tools/pgt2acmpg/packages/fileutils/fileutils.go:132-135 | The empty pool name is not one of them: a text in which it leaves the pattern. |
| Rendering.WorkerAndMasterSafe | ztp/tools/pgt2acmpg/packages/fileutils/fileutils.go:120-121 | `worker` and `master` are such names. |
| Rendering.RenderTwice | ztp/tools/pgt2acmpg/packages/fileutils/fileutils.go:121-149 | A rendered file keeps name and text when rendered again exactly when replacing the pattern in it did not leave another. |
| Rendering.RepetitionDropped | ztp/tools/pgt2acmpg/main.go:219-229 | In any sequence of renderings of files that can be replaced for good, whatever their names, only the first rendering of each manifest changes anything. |
| Rendering.RendersOnce | ztp/tools/pgt2acmpg/main.go:219-229 | If no new name clashes with another manifest's, any sequence of renderings leaves every manifest it touches as its own file demands. |
| Rendering.RepetitionIrrelevant | ztp/tools/pgt2acmpg/main.go:219-229 | Then the order does not matter either: two sequences that touch the same manifests end in the same names and files. |
| Rendering.OrderMatters | ztp/tools/pgt2acmpg/main.go:219-229 | With such a clash it does: if the first manifest's new name is the second's file, which holds the pattern, the order decides where the second ends up. |
| Translator.ConvertPolicy | ztp/tools/pgt2acmpg/main.go:402-472 | One policy: its files' manifests in file order and the last explicit intervals; malformed exactly if one of its files has no name. |
| Translator.ConvertPolicies | ztp/tools/pgt2acmpg/main.go:173-193 | Exactly one policy for each name, in strict name order; malformed exactly if any file has no name. |
| Translator.EveryFilePlaced | ztp/tools/pgt2acmpg/main.go:173-193 | Every file becomes a manifest of the policy it names: under its own path if that starts with `source-crs`, below that directory otherwise, with a patch if it has one. |
| Translator.PlacedOnce | ztp/tools/pgt2acmpg/main.go:402-472 | At exactly one place. |
| Translator.OrderKept | ztp/tools/pgt2acmpg/main.go:402-472 | Manifests keep file order within a policy, policies keep name order. |
| Translator.RenderFirst | ztp/tools/pgt2acmpg/main.go:219-229 | The inner loops: manifests rendered before stay as they are, the others are rendered in order; fails exactly at a missing file. |
| Translator.RenderAfterEachPolicy | ztp/tools/pgt2acmpg/main.go:185-229 | Rendering all manifests so far after each policy, whatever the file names, fails exactly when rendering every manifest once would, and otherwise leaves the same names and files. |
| Translator.FirstRendersOnce | ztp/tools/pgt2acmpg/main.go:219-229 | Without clashes of names that is, for every manifest, what its own file demands. |
| ConnectivityMatrix.NextKeepsInv | cnf-tests/testsuites/e2esuite/multinetworkpolicy/reachmatcher.go:374-418 | Every step of main, a producer, the consumer or a channel hand-over keeps the invariant on wait groups, channel and matrix. |
| ConnectivityMatrix.NoDeadlock | cnf-tests/testsuites/e2esuite/multinetworkpolicy/reachmatcher.go:374-418 | Until the builder returns some goroutine can move. |
| ConnectivityMatrix.WaitsExactly | cnf-tests/testsuites/e2esuite/multinetworkpolicy/reachmatcher.go:366-418 | A goroutine with a result waits exactly while the channel is full. |
| ConnectivityMatrix.NextDecreases | cnf-tests/testsuites/e2esuite/multinetworkpolicy/reachmatcher.go:374-418 | Every step decreases a measure, so every schedule ends. |
| ConnectivityMatrix.ExactUnique | cnf-tests/testsuites/e2esuite/multinetworkpolicy/reachmatcher.go:382-389 | There is only one matrix with exactly the entries of the probes that returned without error. |
| ConnectivityMatrix.SequentialExact | cnf-tests/testsuites/e2esuite/multinetworkpolicy/reachmatcher.go:394-413 | The sequential double loop computes it. |
| ConnectivityMatrix.ExactProbes | cnf-tests/testsuites/e2esuite/multinetworkpolicy/reachmatcher.go:382-389 | It holds, for each two pods that are not nil, what the probe between them returned, and nothing else. |
| ConnectivityMatrix.EverySchedule | cnf-tests/testsuites/e2esuite/multinetworkpolicy/reachmatcher.go:366-421 | For every schedule and channel capacity: no panic, and no close or send on a closed channel nor a wait group below zero about to happen; no deadlock, a bound on the steps, and on return the matrix of the sequential double loop, with the value of every probe that returned. |
| Comments.CollectHeader | ztp/tools/siteconfig-converter/convert.go:605-635 | The header's comments, for any map iteration order: exactly the unmapped ones outside nodes that are not blank, each once. |
| Comments.InsertHeader | ztp/tools/siteconfig-converter/convert.go:637-661 | The lines after the first pass. |
| Comments.InsertAtLine | ztp/tools/siteconfig-converter/convert.go:667-713 | One line of the second pass, for any map iteration order: the comments of exactly the fields first mentioned here are put in front of it, and marked as used. |
| Comments.InsertSiteConfigComments | ztp/tools/siteconfig-converter/convert.go:551-716 | The whole insertion as both passes on lines; without collected comments the content stays. |
| Comments.PlacedOnce | ztp/tools/siteconfig-converter/convert.go:681-683 | A field's comment is inserted exactly if there is one and some line mentions the field, and at one line only. |
| Comments.PlacedNotInHeader | ztp/tools/siteconfig-converter/convert.go:605-635 | What is put in front of a field is not in the header as well. |
| Comments.InHeaderExactly | ztp/tools/siteconfig-converter/convert.go:605-635 | The header has exactly the comments with text that belong to no field of the table and whose path mentions no node. |
| Comments.TextSurvives | ztp/tools/siteconfig-converter/convert.go:692-703 | Each inserted comment line, cleaned again, has the text of the line it was made from. |
| Comments.CleanExactly | ztp/tools/siteconfig-converter/convert.go:694-697 | Cleaning finds the text between blanks and behind one hash. |
| Comments.ContainsExactly | ztp/tools/siteconfig-converter/convert.go:674 | A line mentions what stands anywhere in it. |
| Comments.FieldNameExactly | ztp/tools/siteconfig-converter/convert.go:719-725 | The field name is what follows the last dot. |
| Comments.BlockGood | ztp/tools/siteconfig-converter/convert.go:686-706 | Lines inserted in the second pass are whitespace followed by `#`. |
| Comments.WovenErasable | ztp/tools/siteconfig-converter/convert.go:663-713 | Erasing the lines of the second pass gives the lines before it, in order. |
| Comments.ErasableExactly | ztp/tools/siteconfig-converter/convert.go:605-715 | Erasing comment lines from the output gives the original content exactly when there is no header, or the content starts with a separator and every line of every header comment is a comment. |
| Comments.BlankLineStays | ztp/tools/siteconfig-converter/convert.go:647-649 | A comment on the document with a blank line inside is a case in which it does not, for every content and every table of fields. |

## Left out

- ForwarderSetup.Forwarder.Start: does not model the check of the mask against the number of ports, parsing of the
  arguments, or device initialisation; the devices are given in increasing order, as the port iterator yields them.
- Forwarding: MAC rewriting, statistics printing and timers are left out, counters are unbounded, and one call that
  appends to or flushes a buffer is one step, with its counter increments as separate steps.
- SetValues.SetValues: the two trees share no maps at the start, as after decoding; source lists after a merge keep
  their YAML value, whereas in Go a merged list has another element type and a second merge of the same in-memory tree
  would fail a type assertion. The laws in `Merge` are therefore about values.
- MergeKeys.InjectMergeKeyAtPath: the write into nested patch maps is modelled on values, so aliasing between patches
  is not captured.
- StrategicMerge.DocumentAgrees: merging by key is done by an outside tool and is modelled from its rules: fields of
  items are merged as maps, all lists inside items and all lists without a merge key are replaced, and new items go
  behind the existing ones. Where a patch meets a list with a merge key, the source keys are distinct and fit the patch.
- Reading the OpenAPI schema and the source files, YAML decoding and encoding, templates, and running kustomize.
- PolicySummary.SummarizeExactly: the documents of a file are an input; `CustomResources` covers how the user's overlay
  is applied to each resource in it.
- CustomResources.GetCustomResource: the merges are those `SetValues` computes in place, taken as values here; the
  replacement of the pool name in the text and decoding are left out.
- CustomResources.SectionAgrees: says nothing about metadata, of which the generator takes four fields and the
  translator everything the user gives. Both formats start from the same source here; that rendering comments out
  placeholder lines of the translated one is not taken into account.
- Build.Build: templates whose name makes an output of a plain resource and one of a policy clash are excluded; no name
  of a Kubernetes object does. A failure is one result, be it an error or a panic, and what the outputs hold after a
  failure is not stated. Fixed fields of policies, rules and bindings are left out, and so is the cleaning of `.`, `..`
  and double slashes in output names. Which strings are durations is a parameter.
- Selectors.LabelToSelector: validation of label values, the order of the requirements, and printing the selector and
  parsing it again (which splits values at commas) are left out.
- Translator.ConvertPolicy: wave annotations (the last manifest's number wins), the fixed remediation action, patch
  contents, placement files and the cleaning of file paths are left out.
- Translator.RenderAfterEachPolicy: the loops that convert and render are taken one after the other, since converting
  does not read what rendering writes except for wave annotations.
- Rendering.RepetitionIrrelevant: if a new file name is that of another manifest, the order of first renderings
  matters (`Rendering.OrderMatters`); the translator uses one order only.
- Rendering.RepetitionDropped: files in which replacing the pattern leaves another are excluded; there is none for a
  safe pool name, or if no file holds the pattern.
- Placeholders: the regular expressions are predicates on lines, each proved equal to its expression; the regular
  expression engine is left out, and so is file input and output.
- ConnectivityMatrix.EverySchedule: what a probe answers is a parameter; `convertToString`, which dereferences each pod
  it prints, is left out.
- Comments.InsertSiteConfigComments: the table of field names is a parameter, so the results hold for every table;
  collecting the comments from the YAML nodes is left out.
- Cluster access, test suites, report generation, deep copies, manifest filtering, and conversion of single fields.
