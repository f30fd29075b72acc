# Konflux build CLI: a verified model

This project models, in Dafny, the parts of the Konflux build CLI whose correctness is hard to see
from the code, and proves what they promise for every input, every run and every interleaving.

* **The RUN injector** (`Bytes`, `Tokenizer`, `TokenGrammar`, `LogicalLines`, `RunInjector`,
  `InjectionProofs`, `InjectionExactness`, `InjectionExtent`). A Containerfile is rewritten so that every supported RUN
  instruction starts with extra shell text. The place is found in the logical line (continuations
  joined, comments skipped, quotes and escapes respected) and edited in a physical line. Proved: the
  tokenizer is lossless and stable, and its tokens are the words of a grammar of escapes and quotes; the whole-file frame; and, for all byte texts, exactly when the
  output text, split and gathered again, gives the intended logical line over the intended physical
  lines. It does not always: see `InjectionExtent.WideSpaceCommand`.
* **Base images and labels** (`Stages`, `BaseImages`, `Labels`). The worklist over the stage graph
  collects exactly the images that reachable stages use and fails exactly if two uses conflict; the
  final labels are an override chain along the FROM chain; what is inspected was pulled before.
* **Dual-compression push and the build run** (`BuildWorld`, `DualPush`, `BuildPlan`, `BuildRun`). Every external
  step may fail, and a registry update or an external program that reports failure may still have
  taken effect. The output tag is, at every moment, as before or at the finished index; and everything
  acquired during a run is given a release attempt, except in a family of runs that the parameters and
  the replies of the external steps determine beforehand.
* **Process output and retries** (`ProcessOutput`, `Retry`). The two readers, the channel and the
  main goroutine are a state machine whose runs are all interleavings; the backoff delays are related
  to the capped geometric series.
* **Small languages** (`ShellQuote`, `ArrayArgs`, `Glob`, `RpmInput`, `ConfigCache`). Quoting and
  reading back, argument expansion, glob translation, JSON injection, and a cache of deep copies.

`Wrappers` and `Sequences` hold what several modules use. Code that only computes is modelled by
functions. Code that loops or changes state is modelled by methods and classes, whose contracts tie them to a specification function or state the property
outright; the lemmas then prove what the specification means.

## Inputs of the model

* The Containerfile parser's result is a list of nodes (keyword, JSON flag, 1-based start line) and
  the escape token; the heredoc test of a token is an arbitrary predicate.
* A parsed stage has a name, a FROM (an earlier stage, nothing, or an image), a platform and commands.
  All that is assumed is that a stage is built only from an earlier one.
* Outcomes of external programs, of the registry, of reads of the config source and of reads of a
  pipe are arbitrary functions or steps; the theorems hold for all of them.

## Where code and documentation differ

* The retryer's comment says that delays cannot exceed `MaxDelay`; the first delay is not capped, so
  this holds if and only if the base delay is not above the cap (`Retry.DelayCappedIff`), and fails
  for a minute under a cap of ten seconds (`Retry.FirstDelayNotCapped`).
* `createPerArchIndex` is documented to remove the local index on failure, and `cleanup` to undo a
  registration. A registration, a working container or a local index whose creation takes effect but
  reports failure is left behind, and nothing else is: `BuildPlan.LeavesBehind` says before a run
  whether that happens, `BuildRun.Build.Run` proves that it is exact, and `BuildRun.LeftBehind` has a
  run for each of the three.
* A scaled delay is truncated to whole nanoseconds, so delays are the geometric series only under the
  condition of `Retry.DelayGeometricIff`.
* The injector treats white space as UTF-8 characters in physical lines and as single bytes in
  tokens, which is why a command that starts with a wide space and `#` is lost
  (`InjectionExtent.WideSpaceCommand`).
* An exclusion pattern's `*` is documented as any run of characters, but does not cover a newline
  (`Glob.NewlineNotCovered`); all patterns mean what is documented for exactly the paths without one
  (`Glob.GlobExactIff`).
* A newline in the mount path of the prefetch environment becomes a line continuation, so another path
  is sourced (`InjectionExtent.PrefetchSourcesIff`).
* An object with a `packages` array and the type `rpm` counts as an RPM input but is not changed
  itself (`RpmInput.PackagesShadowType`); exactly which objects are configured is
  `RpmInput.RpmConfiguredIff`.

## Model

| member | source | states |
|---|---|---|
| `Bytes.SplitLines` | pkg/common/containerfile_editor/run_injector.go:234-240 | The loop gives the newline-terminated lines of the text, an unterminated rest included. |
| `Bytes.SplitUnsplit` | pkg/common/containerfile_editor/run_injector.go:104-104 | Splitting the rejoined text again gives the stored lines, each broken at the newlines it holds. |
| `Bytes.UnsplitLinesIff` | pkg/common/containerfile_editor/run_injector.go:104-104 | Splitting a text and putting it back together gives the text if and only if it ends in a newline. |
| `Bytes.TrimLeftAppend` | pkg/common/containerfile_editor/run_injector.go:139-139 | Trimming Unicode white space commutes with appending unless the appended bytes complete a cut rune. |
| `Tokenizer.Tokenize` | pkg/common/containerfile_editor/tokenizer.go:13-83 | The state machine (token start, open quote, index with skips) computes the reference tokens, which `TokenGrammar` characterizes without it. |
| `TokenGrammar.TokensAreWords` | pkg/common/containerfile_editor/tokenizer.go:13-83 | Whichever way a line is made of white space and words (plain bytes, escapes with the byte they cover, single- and double-quoted parts, an open end), its tokens are those words at their places. |
| `TokenGrammar.EveryLine` | pkg/common/containerfile_editor/tokenizer.go:13-83 | Every line is made that way; and white space in it belongs to a token if and only if an escape covers it or it stands in quotes. |
| `TokenGrammar.FlaggedRunChoice` | pkg/common/containerfile_editor/run_injector.go:166-188 | For any flag with a quoted part, single or double, the injection goes before the command and not into the quotes. |
| `TokenGrammar.RunWithQuotedFlag` | pkg/common/containerfile_editor/run_injector.go:166-188 | The place in `RUN --mount="type=cache, target=/var/cache" echo hello` is byte 44. |
| `Tokenizer.TokensLossless` | pkg/common/containerfile_editor/tokenizer.go:45-82 | Tokens are ordered, non-empty slices that start with a visible byte after white space or the line start; every byte outside a token is white space. |
| `Tokenizer.TokensStable` | pkg/common/containerfile_editor/tokenizer.go:45-82 | Re-tokenizing the raw tokens joined by single spaces gives the same raw tokens. |
| `Tokenizer.TokensPrefix` | pkg/common/containerfile_editor/tokenizer.go:45-82 | A line that agrees up to the start of the j-th token has the same first j tokens and goes on with nothing open. |
| `Tokenizer.InsertAtToken` | pkg/common/containerfile_editor/run_injector.go:199-199 | Text inserted at a token start leaves the earlier tokens alone; the rest is tokenized as if the insertion began a line. |
| `LogicalLines.ContinuedIff` | pkg/common/containerfile_editor/run_injector.go:210-232 | A line is continued exactly if, without trailing blanks, it ends in an escape that is not preceded by one. |
| `LogicalLines.ContributionIff` | pkg/common/containerfile_editor/run_injector.go:215-232 | A line is continued and contributes `c` if and only if it is `c`, an escape that none precedes, and blanks; any other line contributes itself. |
| `LogicalLines.GetPhysicalLines` | pkg/common/containerfile_editor/run_injector.go:133-153 | The loop gathers the indices of the lines of an instruction, comments skipped. |
| `LogicalLines.GatherIff` | pkg/common/containerfile_editor/run_injector.go:133-153 | Gathered are exactly the lines that are no comments, up to and with the first of them that is not continued, in order. |
| `LogicalLines.JoinToLogicalLine` | pkg/common/containerfile_editor/run_injector.go:156-162 | The loop joins the contributions of those lines. |
| `LogicalLines.GatherJoins` | pkg/common/containerfile_editor/run_injector.go:91-92 | Joining the gathered lines is the logical line of the instruction. |
| `LogicalLines.LocateGathered` | pkg/common/containerfile_editor/run_injector.go:193-208 | Walking the gathered indices with a decreasing offset finds the physical place of a logical offset. |
| `LogicalLines.CutKeeps` | pkg/common/containerfile_editor/run_injector.go:198-200 | Cutting a physical line at a token leaves its continuation to the second part. |
| `LogicalLines.LogicalSame` | pkg/common/containerfile_editor/run_injector.go:133-162 | Lines that agree as far as a run reads have the same logical line and a run of the same length. |
| `LogicalLines.InsertedSplits` | pkg/common/containerfile_editor/run_injector.go:110-116 | A line with the fixed injection inserted splits into the injection's lines, each but the last with an added continuation. |
| `RunInjector.FixInjection` | pkg/common/containerfile_editor/run_injector.go:110-116 | The injection's lines lose backslash continuations and are rejoined with the escape token of the Containerfile. |
| `RunInjector.ChooseMeaning` | pkg/common/containerfile_editor/run_injector.go:173-185 | The first non-flag token after the instruction name decides: a comment is a no-op, a heredoc is unsupported, anything else is the place. |
| `RunInjector.ChooseNothing` | pkg/common/containerfile_editor/run_injector.go:187-187 | With flags only the instruction is a no-op. |
| `RunInjector.DecideMeaning` | pkg/common/containerfile_editor/run_injector.go:82-102 | What is reported or where is injected, for every node, by the first token after the keyword that is no flag. |
| `RunInjector.RunSpellings` | pkg/common/containerfile_editor/run_injector.go:83-83 | The keyword is RUN in any mixture of cases. |
| `RunInjector.FlagIff` | pkg/common/containerfile_editor/run_injector.go:174-174 | A flag is a token that starts with two dashes. |
| `RunInjector.FindInjectionIndex` | pkg/common/containerfile_editor/run_injector.go:166-188 | Returns the start of the chosen token, or -1 and the reason. |
| `RunInjector.ChosenByte` | pkg/common/containerfile_editor/run_injector.go:184-184 | The chosen index is in range, at a visible byte, after white space or at the line start. |
| `RunInjector.InternalInjector.constructor` | pkg/common/containerfile_editor/run_injector.go:58-75 | The injector starts with the lines of the content. |
| `RunInjector.InternalInjector.InjectIntoPhysicalLine` | pkg/common/containerfile_editor/run_injector.go:193-208 | Exactly one physical line changes, by an insertion at the located offset; the panic is unreachable. |
| `RunInjector.InternalInjector.InjectNode` | pkg/common/containerfile_editor/run_injector.go:83-101 | One node's edit and report are those of the decision for it. |
| `RunInjector.InternalInjector.Inject` | pkg/common/containerfile_editor/run_injector.go:79-105 | The in-place loop over the nodes computes the specified edits and reports, and the text is the rejoined lines. |
| `InjectionProofs.InjectionFrame` | pkg/common/containerfile_editor/run_injector.go:79-105 | For nodes that share no physical line, the loop makes exactly the insertions and reports the original lines call for; all other lines are unchanged. |
| `InjectionProofs.FrameStep` | pkg/common/containerfile_editor/run_injector.go:82-102 | An edit for one node does not change the decision for a later one. |
| `InjectionProofs.DeleteInserted` | pkg/common/containerfile_editor/run_injector.go:199-199 | Deleting an inserted text where it was inserted gives back the line. |
| `InjectionProofs.InjectionDeletes` | pkg/common/containerfile_editor/run_injector.go:79-105 | After the whole loop, deleting the injection at its place gives back every edited line. |
| `InjectionProofs.NothingInjected` | pkg/common/containerfile_editor/run_injector.go:79-105 | Any Containerfile with nothing to inject into comes back unchanged if and only if it ends in a newline. |
| `InjectionProofs.RunReplaced` | pkg/common/containerfile_editor/run_injector.go:99-104 | In the output text, an injected run holds its old lines, except that the edited one is replaced by the inserted lines. |
| `InjectionProofs.InjectionKeepsOptions` | pkg/common/containerfile_editor/run_injector.go:23-23 | The tokens before the place, so the RUN options, survive the injection unchanged. |
| `InjectionProofs.ShiftedStart` | pkg/common/containerfile_editor/run_injector.go:99-104 | A line moves down by the added lines of each edited line before it. |
| `InjectionExtent.InjectionExtentExact` | pkg/common/containerfile_editor/run_injector.go:79-232 | For all byte texts: gathering the output again gives the intended logical line from the intended number of lines if and only if no resulting line is a comment and no inner injected line ends in the escape. |
| `InjectionExtent.InjectionEndToEnd` | pkg/common/containerfile_editor/run_injector.go:79-232 | From text to text: after a clean injection, every injected instruction whose old command may begin a line gathers to `logical[..i] + injected lines + logical[i..]` from its shifted start line, with the intended extent. |
| `InjectionExtent.CleanFits` | pkg/common/containerfile_editor/run_injector.go:110-116 | A condition on the injected text alone that makes it fit wherever the old command may begin a line. |
| `InjectionExtent.InsertedExact` | pkg/common/containerfile_editor/run_injector.go:133-162 | The same equivalence for the lines around one insertion, and no gathering of the intended extent is longer than intended. |
| `InjectionExtent.PrefetchExact` | pkg/commands/build.go:1562-1594 | For all texts, an instruction the build injects into comes out as intended if and only if its old command is no comment line by itself. |
| `InjectionExtent.PrefetchSourcesIff` | pkg/commands/build.go:1587-1587 | The injected text sources the given path if and only if that holds no newline. |
| `InjectionExtent.PrefetchEndToEnd` | pkg/commands/build.go:1562-1594 | In every ASCII Containerfile, every instruction that the build injects the prefetch environment into comes out as intended. |
| `InjectionExtent.PrefetchFitsIff` | pkg/commands/build.go:1587-1587 | The build's own injection fits at a token if and only if the old command is no comment line by itself. |
| `InjectionExtent.WideSpaceCommand` | pkg/common/containerfile_editor/run_injector.go:139-143 | A concrete RUN instruction, with either escape token, for which the output is not the instruction with the text in front of its command, since the command became a comment line. |
| `InjectionExactness.InjectionExact` | pkg/common/containerfile_editor/run_injector.go:79-232 | For ASCII texts the logical line alone is as intended if and only if the injection fits behind the text before the token. |
| `InjectionExactness.AsciiMayBeginLine` | pkg/common/containerfile_editor/run_injector.go:177-179 | In an ASCII Containerfile the old command may always begin a line. |
| `InjectionExactness.PrefetchInjectionFits` | pkg/commands/build.go:1587-1587 | The build's injection fits everywhere in ASCII text, and contributes the sourced file and `&&`. |
| `Stages.FromRefsMeaning` | pkg/commands/build.go:2663-2676 | A reference is collected if and only if some command copies or mounts from it and it is not empty. |
| `Stages.GetFromRefsInCommands` | pkg/commands/build.go:2663-2676 | The loops give the references in order. |
| `Stages.FindMatchingStages` | pkg/commands/build.go:2644-2660 | All stages of that name, or else the stage of that index if in bounds. |
| `Stages.MatchingIff` | pkg/commands/build.go:2638-2660 | A stage matches if and only if it has the name, or no stage has it and the reference denotes its index; matches come in increasing order. |
| `Stages.AtoiIff` | pkg/commands/build.go:2655-2655 | An integer is read from exactly its decimal texts, with sign and leading zeros, in the 64-bit range. |
| `Stages.UsesImageIff` | pkg/commands/build.go:2606-2632 | A stage uses the image it is built from, with its platform, and those it copies or mounts from whose reference gives no earlier stage. |
| `Stages.DependsOnIff` | pkg/commands/build.go:2606-2632 | A stage depends on the one it is built from and on the earlier stages that its copies and mounts match. |
| `Stages.DependsBackwards` | pkg/commands/build.go:2614-2620 | Every reference goes to a strictly earlier stage. |
| `Stages.ClosedHolds` | pkg/commands/build.go:2601-2633 | A set that holds the roots and is closed under references holds every reachable stage. |
| `BaseImages.AddImage` | pkg/commands/build.go:2563-2578 | Adds an image once per reference, or names two real uses with different platforms. |
| `BaseImages.Enqueue` | pkg/commands/build.go:2583-2590 | Each stage enters the queue once, and the measure does not grow. |
| `BaseImages.ProcessStage` | pkg/commands/build.go:2602-2632 | After a stage is processed, all it depends on is seen and all it uses is collected. |
| `BaseImages.CollectBaseImages` | pkg/commands/build.go:2555-2636 | Terminates; on success the result is exactly the images used by reachable stages, once each; it fails if and only if two reachable uses of one reference have different platforms. |
| `BaseImages.AllStagesProcessed` | pkg/commands/build.go:2593-2599 | With skip-unused-stages off, the processed stages are exactly those up to the last target. |
| `BaseImages.SkippingNeedsLess` | pkg/commands/build.go:2591-2599 | With it on, the images are a subset, and a conflict is also one with it off. |
| `Labels.GetStageLabels` | pkg/commands/build.go:2342-2356 | For every key the last value of the stage's LABEL instructions. |
| `Labels.StageLabelIff` | pkg/commands/build.go:2342-2356 | A stage has a label value if and only if some LABEL instruction gives it and none later gives the key. |
| `Labels.CollectChain` | pkg/commands/build.go:2314-2323 | The FROM-chain walk terminates, as stage indexes strictly decrease, and visits the whole chain. |
| `Labels.ProcessUntilBaseStage` | pkg/commands/build.go:2308-2340 | The base image of the chain, and for every key the value of the nearest stage that gives one. |
| `Labels.ChainLinks` | pkg/commands/build.go:2314-2323 | Each stage of the chain is built from the next, the last from none. |
| `Labels.ChainLabelIff` | pkg/commands/build.go:2334-2337 | The label of a chain is that of the first of its stages that has one. |
| `Labels.DetermineFinalLabels` | pkg/commands/build.go:2260-2303 | Every key has the buildah version, else the last user label, else the nearest stage's label, else the base image's; it fails exactly if the base image is inspected and cannot be. |
| `Labels.OverrideChain` | pkg/commands/build.go:2286-2300 | The precedence of the four sources of a label, spelled out. |
| `Labels.InspectedIff` | pkg/commands/build.go:2265-2284 | Inspected is the image at the end of the FROM chain, if labels are inherited, it is not scratch and it is pullable. |
| `Labels.AddUserLabels` | pkg/commands/build.go:2290-2293 | User labels override, the last one of a key wins. |
| `Labels.CutMeaning` | pkg/commands/build.go:2291-2291 | A user label is cut at its first `=`; without one it is all key. |
| `Labels.AtLeastMeaning` | pkg/commands/build.go:2431-2437 | The version test orders versions by their first difference, a version before its extensions. |
| `Labels.TargetsAre` | pkg/commands/build.go:2428-2443 | Without a target the last stage is built, else all matches from buildah 1.44.0 on and the first before. |
| `Labels.PrePullBaseImages` | pkg/commands/build.go:2423-2465 | The targets are all matching stages from buildah 1.44.0 on, and the first one before; on success exactly the needed pullable images were pulled; a missing target, a conflict and a failed pull are told apart. |
| `Labels.PullableIff` | pkg/commands/build.go:2369-2381 | Pullable is a non-empty reference with one of two transports or with none of the six others. |
| `Labels.SplitMeaning` | pkg/commands/build.go:2388-2405 | The two parts make up the reference; the transport is empty if and only if none of the eight is a prefix. |
| `Labels.InspectedIsUsed` | pkg/commands/build.go:2308-2340 | The image at the end of the FROM chain is used by a reachable stage under either setting. |
| `Labels.PullThenLabel` | pkg/commands/build.go:833-848 | Without a target, the base image whose labels are inspected was pulled earlier in the run. |
| `BuildWorld.World.SetTag` | pkg/commands/build.go:2957-2967 | A registry update moves at most the one tag, and may have moved it although it reports failure. |
| `BuildWorld.World.Request` | pkg/commands/build.go:2820-2823 | An external program may acquire although it reports failure. |
| `BuildWorld.World.ManifestCreate` | pkg/commands/build.go:3024-3032 | Fails on an existing name; otherwise it may create the index although it reports failure. |
| `DualPush.OnlyZstdMarked` | pkg/commands/build.go:3060-3071 | Annotating the zstd digest gives the finished index, in which only the zstd entry is marked if and only if the variants have distinct digests. |
| `DualPush.TemporaryIsNotOutput` | pkg/commands/build.go:3000-3000 | The two temporary tags are never the output tag. |
| `DualPush.OutputTagSafe` | pkg/commands/build.go:2994-2996 | In an allowed state the output tag is as before or at the finished index. |
| `DualPush.Pusher.PushDualVariants` | pkg/commands/build.go:2997-3018 | In every state only the two temporary tags have moved, each to its own variant; it succeeds if and only if both pushes do, with the gzip digest first. |
| `DualPush.Pusher.CreatePerArchIndex` | pkg/commands/build.go:3023-3075 | Succeeds if and only if the name is free and its four steps work, with the index [gzip, zstd] and zstd marked; otherwise the index is left behind if and only if its creation took effect but reported failure. |
| `DualPush.Pusher.PushIndex` | pkg/commands/build.go:2954-2987 | Only destinations move, to the finished index; on success all of them did. |
| `DualPush.Pusher.PushImageDual` | pkg/commands/build.go:2925-2992 | In every state of every run the output tag is as before or at the index of the gzip image, marked only if equal to zstd, and the marked zstd image; success, exactly if the name is free and all steps work, means all destinations point to it and both digests are reported; if the index was not created without failure only temporary tags ever moved; a created index is removed once, and left behind exactly if the fourth step took effect but reported failure. |
| `DualPush.Pusher.PushSingle` | pkg/commands/build.go:2857-2884 | Succeeds if and only if all its steps work; only destinations move; then each additional tag points to the image as compressed by default and the output tag, if none of them, to the reported image. |
| `DualPush.HandledReleased` | pkg/commands/build.go:3033-3039 | What happened to the local index is settled if and only if its creation did not report failure after taking effect. |
| `BuildRun.Build.EnsureTempWorkdirExists` | pkg/commands/build.go:716-726 | A workdir is made on demand by one step, at most one, and recorded; success means it exists. |
| `BuildRun.Build.EnsureContainerfileCopied` | pkg/commands/build.go:728-758 | On success the Containerfile copy exists, and the account of acquired and recorded resources stays in order. |
| `BuildRun.Build.CopyPrefetchDir` | pkg/commands/build.go:1392-1409 | The prefetch copy is recorded as soon as it exists, also if copying fails. |
| `BuildRun.Build.IntegrateWithPrefetch` | pkg/commands/build.go:1303-1369 | Gets to the planned point if and only if all its steps work, and keeps the account. |
| `BuildRun.Build.IntegrateWithRHSM` | pkg/commands/build.go:1707-1736 | A registration is recorded if and only if it reports success; the account holds a late acquisition afterwards if and only if reading the key worked and the registration took effect but reported failure. |
| `BuildRun.Build.BuildImage` | pkg/commands/build.go:2687-2774 | The working directory is given back on every path, and failing to give it back fails the build. |
| `BuildRun.Build.RunSyftScans` | pkg/commands/build.go:2776-2850 | The working container is removed on every path after its creation reported success, a failing removal is ignored, and it is left behind if and only if its creation took effect but reported failure. |
| `BuildRun.Build.PushImage` | pkg/commands/build.go:2857-2884 | Succeeds exactly if the push at hand does; the account gains what a dual push does with the local index; and after success the tags point to exactly what was to be pushed, with or without dual compression. |
| `BuildRun.Build.Cleanup` | pkg/commands/build.go:662-676 | Everything recorded is given a release attempt. |
| `BuildRun.Build.Run` | pkg/commands/build.go:787-914 | Succeeds if and only if `Succeeds` holds before the run; everything acquired is given a later release attempt if and only if `LeavesBehind` does not, and a run that leaves something behind fails; at most one workdir is made; a local index is created and removed once, left behind, or not made; after a successful push, with or without dual compression, every tag points to its image or index. |
| `BuildRun.SettledIff` | pkg/commands/build.go:662-676 | In a settled account all acquisitions are released if and only if none was reported as a failure. |
| `BuildRun.LeftBehind` | pkg/commands/build.go:787-914 | Three concrete runs that leave the registration, the working container and the local index behind. |
| `BuildPlan.LeavesByStage` | pkg/commands/build.go:787-914 | What is left behind depends on how far a run gets: at most one thing, the registration, the container or the index. |
| `BuildPlan.HonestLeavesNothing` | pkg/commands/build.go:787-914 | If no external step takes effect while reporting failure, nothing is left behind. |
| `BuildPlan.PrepareSplit` | pkg/commands/build.go:795-831 | The preparations work if and only if each of their stages does, at the planned step numbers. |
| `BuildPlan.AllTheSteps` | pkg/commands/build.go:787-914 | With everything asked for, the preparations are sixteen steps and the build and the scans fourteen. |
| `ProcessOutput.StepKeeps` | pkg/cliwrappers/cli_executor.go:73-115 | Every step keeps the invariant: buffers are what was taken, and results in flight are those of finished readers. |
| `ProcessOutput.EveryInterleaving` | pkg/cliwrappers/cli_executor.go:104-115 | In every reachable state `Wait` ran only after both readers finished, a send is never blocked, and a reader that finished without error has its whole stream. |
| `ProcessOutput.ReturnedOutput` | pkg/cliwrappers/cli_executor.go:114-118 | A read error is reported if and only if a reader failed; without one both outputs are complete. |
| `ProcessOutput.CompleteOutput` | pkg/cliwrappers/cli_executor.go:79-95 | If no copy fails, both outputs are complete wherever the line scanner gives up. |
| `ProcessOutput.RunsAreBounded` | pkg/cliwrappers/cli_executor.go:73-115 | Every run is finite, bounded by the bytes of the streams. |
| `ProcessOutput.NeverStuck` | pkg/cliwrappers/cli_executor.go:104-115 | As long as `Wait` has not run, some step without a failure is possible. |
| `ProcessOutput.MaximalRunsReturn` | pkg/cliwrappers/cli_executor.go:114-118 | A run that cannot be continued has returned from `Wait`. |
| `Retry.Retryer.constructor` | pkg/cliwrappers/cli_retryer.go:36-44 | The defaults. |
| `Retry.Retryer.WithImageRegistryPreset` | pkg/cliwrappers/cli_retryer.go:155-161 | Sets the registry settings and nothing else. |
| `Retry.Retryer.MatchesStopError` | pkg/cliwrappers/cli_retryer.go:66-71 | True if and only if some stop expression matches an output. |
| `Retry.Retryer.Run` | pkg/cliwrappers/cli_retryer.go:48-89 | Between one and MaxAttempts calls, all but the last failed without a stop condition, the last one's result is returned, and the sleeps between them are the backoff delays; without attempts there is no call. |
| `Retry.TruncateMeaning` | pkg/cliwrappers/cli_retryer.go:81-81 | A scaled delay is cut to the whole number next to it on the side of zero. |
| `Retry.DelayGrows` | pkg/cliwrappers/cli_retryer.go:81-84 | With a factor of at least one and a base not above the cap, delays never shrink. |
| `Retry.DelayCappedIff` | pkg/cliwrappers/cli_retryer.go:16-21 | For every factor: no delay exceeds the cap if and only if the base delay does not, and all delays but the first never do. |
| `Retry.FirstDelayNotCapped` | pkg/cliwrappers/cli_retryer.go:57-85 | Concrete settings whose first sleep exceeds the cap. |
| `Retry.DelayUpperBound` | pkg/cliwrappers/cli_retryer.go:81-84 | A delay is at most `base * factor^i`, for any such factor. |
| `Retry.DelayGeometricIff` | pkg/cliwrappers/cli_retryer.go:81-84 | The delays are `min(base * factor^i, cap)` if and only if each power below the cap is a whole number of nanoseconds. |
| `Retry.DelayExact` | pkg/cliwrappers/cli_retryer.go:81-84 | For whole factors they always are. |
| `Retry.FractionsAreTruncated` | pkg/cliwrappers/cli_retryer.go:81-81 | A concrete fractional factor for which they are not. |
| `Retry.RegistryTotal` | pkg/cliwrappers/cli_retryer.go:155-161 | The nine delays of the registry preset sum to 495 seconds. |
| `Retry.RegistrySleepsAtMost` | pkg/cliwrappers/cli_retryer.go:155-161 | Any first delays of the preset, fewer than ten, sum to at most that. |
| `Retry.RegistryRun` | pkg/cliwrappers/cli_retryer.go:48-89 | A run with the preset makes one to ten calls, returns the result of the last and sleeps at most 495 seconds in all. |
| `ShellQuote.ShellJoin` | pkg/cliwrappers/shell_quote.go:15-22 | The array loop gives the quoted words joined by spaces. |
| `ShellQuote.QuotedAsNeeded` | pkg/cliwrappers/shell_quote.go:8-10 | An argument is left as it is if and only if it is not empty and holds letters, digits and the ten listed characters only. |
| `ShellQuote.ReadArgument` | pkg/cliwrappers/shell_quote.go:26-31 | A quoted argument is read back as one word with its text, whatever follows. |
| `ShellQuote.JoinRoundTrip` | pkg/cliwrappers/shell_quote.go:10-31 | Reading the joined line gives back exactly the words, for all byte strings. |
| `ShellQuote.JoinInjective` | pkg/cliwrappers/shell_quote.go:15-22 | No two commands have the same joined form. |
| `ArrayArgs.MultiFlags` | pkg/common/array_arg.go:46-61 | The array flags of the command named by the arguments before the first dash. |
| `ArrayArgs.CutAtEquals` | pkg/common/array_arg.go:74-75 | An assignment is cut at its first equals sign. |
| `ArrayArgs.CommandNamed` | pkg/common/array_arg.go:46-61 | The command `image build` is found by its words joined with single spaces, and no other command takes its flags. |
| `ArrayArgs.ExpandGroup` | pkg/common/array_arg.go:92-105 | The inner loop repeats the flag before each value up to the next dash. |
| `ArrayArgs.ExpandArrayParameters` | pkg/common/array_arg.go:43-110 | The nested loops write out the meaning of the command line, one value per flag. |
| `ArrayArgs.ExpansionKeepsMeaning` | pkg/common/array_arg.go:35-110 | Read with one value per flag, the output means what was written: the values of each flag in order, other arguments in order, everything from the sentinel verbatim. |
| `ArrayArgs.NothingLost` | pkg/common/array_arg.go:63-109 | The meaning carries every value and every other argument, in their order. |
| `ArrayArgs.SentinelVerbatim` | pkg/common/array_arg.go:66-70 | What precedes the sentinel is expanded on its own and the rest is copied. |
| `ArrayArgs.ExpansionIdempotent` | pkg/common/array_arg.go:63-109 | Expanding twice changes nothing if and only if no `--array=value` before the sentinel has a value that starts with a dash. |
| `ArrayArgs.SameCommand` | pkg/common/array_arg.go:46-54 | The output names the same command, so it has the same array flags. |
| `Glob.PathPatternToRegexp` | pkg/common/symlink.go:111-129 | The builder loop gives the anchored translation of the pattern. |
| `Glob.TranslationReads` | pkg/common/symlink.go:111-129 | Reading the generated text gives the pattern's items: literals, any character, any run. |
| `Glob.MatchesIffGlob` | pkg/common/symlink.go:108-110 | These items match a path if and only if the glob does, with wildcards that exclude newlines. |
| `Glob.TranslationPreservesMeaning` | pkg/common/symlink.go:108-129 | For newline-free paths the generated text matches if and only if the documented glob does. |
| `Glob.TranslationOnlyNarrows` | pkg/common/symlink.go:108-129 | For any path a match is a match of the documented glob. |
| `Glob.NewlineNotCovered` | pkg/common/symlink.go:109-110 | A path with a newline that the documented glob matches and the expression does not. |
| `Glob.GlobExactIff` | pkg/common/symlink.go:108-110 | All patterns mean what is documented for a path if and only if it holds no newline. |
| `Glob.CompileExcludePatterns` | pkg/common/symlink.go:75-92 | Fails if and only if some trimmed pattern is absolute; otherwise excludes exactly what some non-empty trimmed pattern matches, for every path with wildcards that exclude newlines, and as documented for newline-free paths. |
| `Glob.TrimMeaning` | pkg/common/symlink.go:78-78 | Trimming takes white space off both ends and leaves none there. |
| `Glob.SpacesAgree` | pkg/common/containerfile_editor/run_injector.go:139-139 | White space is the same in characters, in UTF-8 text and, for the first 256 characters, in bytes. |
| `Glob.SymlinkPathExcluded` | pkg/common/symlink.go:94-106 | True if and only if the path has a relative form and some compiled pattern matches it. |
| `RpmInput.InjectSummaryInSBOMField` | pkg/commands/prefetch_dependencies/utils.go:89-114 | The recursive loops apply the summary flag at every RPM leaf and nowhere else. |
| `RpmInput.InjectSSLOptions` | pkg/commands/prefetch_dependencies/utils.go:117-148 | The recursive loops apply the ssl options at every RPM leaf and nowhere else. |
| `RpmInput.ContainsRpmIff` | pkg/commands/prefetch_dependencies/utils.go:32-51 | True if and only if some visited object has the type `rpm`. |
| `RpmInput.RewriteAt` | pkg/commands/prefetch_dependencies/utils.go:89-148 | An injection keeps the shape: the node at a path is the injected old node. |
| `RpmInput.RewriteUnchangedIff` | pkg/commands/prefetch_dependencies/utils.go:89-148 | A tree is unchanged if and only if the injection has nothing to do at any RPM leaf. |
| `RpmInput.InjectionsKeepContainsRpm` | pkg/commands/prefetch_dependencies/utils.go:32-148 | Both injections keep the answer of `containsRPM`, and leave a tree without RPM as it is. |
| `RpmInput.InjectionsIdempotent` | pkg/commands/prefetch_dependencies/utils.go:89-148 | Both injections are idempotent, and they commute. |
| `RpmInput.SummaryAtEveryNode` | pkg/commands/prefetch_dependencies/utils.go:107-111 | At every RPM leaf the summary flag is set and all else kept; other nodes keep their own fields. |
| `RpmInput.SslAtEveryNode` | pkg/commands/prefetch_dependencies/utils.go:135-145 | At every RPM leaf the ssl keys are set; an existing `options.ssl` keeps its other keys and siblings, other options are replaced. |
| `RpmInput.PackagesShadowType` | pkg/commands/prefetch_dependencies/utils.go:99-105 | An RPM object with an empty `packages` array counts as RPM and is not changed. |
| `RpmInput.RpmConfiguredIff` | pkg/commands/prefetch_dependencies/utils.go:98-145 | A visited RPM object has the flag, or the ssl keys, afterwards if and only if it has no `packages` array or had them before. |
| `RpmInput.InjectRPMInput` | pkg/commands/prefetch_dependencies/utils.go:54-86 | Uses the last key file and the last other file; fails exactly if one is missing, and then still returns the tree with summaries. |
| `RpmInput.EveryRpmIsConfigured` | pkg/commands/prefetch_dependencies/utils.go:54-86 | After success every RPM leaf has the flag, the key file as `client_key`, the other file as `client_cert` and the fixed `ca_bundle`. |
| `RpmInput.RpmExample` | pkg/commands/prefetch_dependencies/utils.go:88-148 | The injections into a plain RPM object, alone and in a `packages` array, spelled out. |
| `RpmInput.KeyFileIff` | pkg/commands/prefetch_dependencies/utils.go:68-72 | A key file is one whose name ends in `-key.pem`. |
| `ConfigCache.NewCacheProxyConfig` | pkg/config/cache_proxy.go:16-31 | Allowed if unset or true; an unreadable setting is reported and reads as false. |
| `ConfigCache.NewHermetoProxyConfig` | pkg/config/hermeto_proxy.go:21-40 | Allowed only if true; an unreadable setting is reported and reads as false. |
| `ConfigCache.ParseBoolExamples` | pkg/config/cache_proxy.go:28-28 | The spellings that read as true and as false, and some that do not read. |
| `ConfigCache.NewKonfluxConfig` | pkg/config/konflux_config.go:56-72 | The parse of the raw settings, field by field, in new objects, whatever parts are unreadable. |
| `ConfigCache.KonfluxConfig.DeepCopy` | pkg/config/konflux_config.go:74-85 | An equal config of which every mutable object is new. |
| `ConfigCache.Cache.ResetConfigCache` | pkg/config/konflux_config.go:32-34 | The cache is empty and owns nothing. |
| `ConfigCache.Cache.GetKonfluxConfig` | pkg/config/konflux_config.go:36-51 | The self-call terminates; the result is that of the immutable cache and consists of new objects apart from the cached ones; the two errors tell a missing reader from a failed read. |
| `ConfigCache.Session` | pkg/config/konflux_config.go:30-85 | Over any sequence of gets, resets and mutations of handed out objects, callers see exactly what the immutable reference shows and never reach a cached object. |
| `ConfigCache.BetweenResets` | pkg/config/konflux_config.go:36-51 | Between resets a filled cache never changes and the source is read successfully at most once. |
| `ConfigCache.GetShowsLastFill` | pkg/config/konflux_config.go:36-51 | A successful get shows the parse of what the last attempt read; a get fails only if the cache is empty and its own attempt fails. |
| `ConfigCache.SameUntilReset` | pkg/config/konflux_config.go:36-51 | After a successful get all gets show the same config until the next reset. |

## Left out

- InjectionExtent.InjectionEndToEnd: assumes that gathered runs share no line and that the old command may begin a line; the second holds in every ASCII file, and the exact condition for all files is that of InjectionExtentExact.
- InjectionExactness.InjectionExact: is about ASCII text, because with other bytes a skipped comment can leave the same text by reading into the next instruction; for all bytes the extent is compared too, in InjectionExtentExact.
- InjectionExtent.PrefetchEndToEnd: is the ASCII case of InjectionExtent.PrefetchExact, which holds for all texts.
- InjectionExtent.PrefetchExact: is about mount paths without a newline; for others a different path is sourced (InjectionExtent.PrefetchSourcesIff), and the general condition is that of InjectionExtent.InjectionExtentExact.
- InjectionExtent.PrefetchFitsIff: the same.
- InjectionExactness.PrefetchInjectionFits: the same.
- Equality of the gathered lines with the line joining of buildkit's own parser is not claimed; gathering stops at an empty line inside a continuation.
- The keyword test upper-cases ASCII letters only.
- Parsing by libraries (Containerfiles, image references, package URLs, CSV, JSON text, regular expressions) is an input of the model.
- DualPush.Pusher.PushImageDual: the output reference is taken apart into a repository and a tag, and a digest is a function of the compression format.
- BuildWorld.World.Acquire: directories are made and changed by system calls, which are taken to have no effect if they fail.
- BuildRun.Build.Run: buildprobe and the builder content scan, whose errors are only logged, are not steps of the run.
- ProcessOutput: the streams are finite; a process that never closes its outputs is not modelled, nor is the path without logging.
- Retry.Retryer.Run: durations are unbounded integers and factors are reals, so overflow and floating-point rounding are not modelled.
- ShellQuote.JoinRoundTrip: a first word that a shell would take as an assignment or a reserved word is read as an ordinary word.
- ArrayArgs.ExpansionKeepsMeaning: array flags start with a dash, differ from the sentinel and hold no equals sign, as registered names do; the registration itself is not modelled.
- Glob: text is a sequence of characters, so invalid UTF-8 in patterns is not modelled.
- RpmInput.InjectSummaryInSBOMField: works on values; that the caller's tree is updated in place is not captured.
- RpmInput.InjectSSLOptions: works on values; that the trees are updated in place and that all objects without ssl options come to share one ssl map is not captured.
- Argument building of the buildah, git, skopeo, oras, syft and hermeto wrappers, file copying and permissions, symlink walking and path resolution, namespaces, mounts, the Kubernetes and INI readers, parameter registration, logging and the commands themselves are not part of this model: plumbing or I/O with easy claims.
