# Verification of neo-rs tooling and state logic

A Dafny model of the parts of neo-rs whose correctness rests on more than one
function: the text-element counter behind `StdLib.strLen`, the bounded VM
profiler and the replay aggregator, the continuous state-root validator, the
Merkle Patricia trie, and the decoders, rewriters, searches and verdicts of the
validation scripts. Each module models the code named in the table below and
proves what that code is for, over all inputs, all runs and all reachable states.

`dafny verify dfyconfig.toml` checks the whole project.

## Modules

| modules | model |
|---|---|
| `GraphemeRules`, `GraphemeScanner`, `GraphemeConcat`, `GraphemeProbe`, `GraphemeTable` | Unicode Standard Annex 29, section 3.1.1, rules GB1 to GB999 without GB9c; the cluster scanner, the classifier by probing and the range table |
| `ExecutionProfile`, `ExecutionSummary`, `ExecutionSnapshot`, `ExecutionOrder` | the execution profile collector: a class with its counters, a closed summary of every trace, and the order of events and of the hash map |
| `CheckpointStages`, `RootValidator` | the validation loop with RPC failures, pauses, interrupts, crashes, published statuses and the resume file |
| `Trie`, `TrieMap`, `TrieUnique`, `TrieProof`, `TrieRows`, `TrieStore`, `TrieFind`, `StateTrie` | insertion, removal, lookup, enumeration and proofs of the state trie, and the bytes that are hashed and stored |
| `Numerals`, `Base58`, `StackItems` | Base58Check, variable-length integers, stack integers and account records |
| `ConfigLines`, `ConfigRewrite`, `ConfigLaws`, `ConfigText` | the line-based configuration rewriter |
| `Divergence` | exponential probing and binary search for the first differing block |
| `BoundedTables`, `SyncProfile`, `SyncProfileLaws` | aggregation of VM profiles under capacities |
| `RateSummary`, `ReplayVerdict`, `CheckpointPlan` | rate summaries, the replay status and the checkpoint planner |
| `Sequences`, `Wrappers` | sums, distinct elements, sorted permutations; optional values |

Where the source updates things step by step the model does too: loops are
methods with invariants, objects are classes, and each is tied to a function of
its inputs about which the laws are proved. Randomness, clocks, the network and
the file system are parameters. Integers are unbounded except where a counter of
the source saturates or wraps, which is written out.

Three expectations turned out not to hold for all inputs. One would expect a
rewritten configuration to stay as it is when it is rewritten again, but a
replacement key that is not a bare key is appended by every run
(`ConfigLaws.DashedKeyGrows`, `ConfigLaws.IdempotentIff`). The divergence search
takes a missing reference root at the top of its range for a difference and can
then name a block whose roots agree (`Divergence.SilentReference`);
`Divergence.FindDivergence` states exactly when a report is right. The validator
holds roots at the current stage heights, but a run that hits the mismatch limit
or is interrupted publishes a newer last block with the roots of the last recorded
batch (`RootValidator.AbortLeavesOldRoots`). They are at current heights if and only
if none moved away (`RootValidator.Validate`, `CheckpointStages.HeldAreCurrentIff`);
what is marked as verified agreed in every case.

## Model

| member | source | states |
|---|---|---|
| `GraphemeScanner.MachineCount` | tools/gen_dotnet_graphemes/Program.cs:483-495 | repeated first-cluster scanning returns the number of text elements that the declarative boundary rules give, for every sequence of break classes; 0 exactly on empty input |
| `GraphemeScanner.FirstClusterLen` | neo-native-contracts/src/text/dotnet_text_segmentation.rs:96-187 | the scanner, which keeps one class of state, stops exactly at the first boundary of the rules, which look back an unbounded distance |
| `GraphemeScanner.ScanCore` | tools/gen_dotnet_graphemes/Program.cs:523-569 | the Hangul, emoji-chain and regional-indicator loop stays inside one cluster and leaves only attaching scalars to be taken |
| `GraphemeScanner.NextCluster` | tools/gen_dotnet_graphemes/Program.cs:488-493 | the first boundary of the rest of the text is the next boundary of the whole text, so cutting the text loses no context |
| `GraphemeRules.SuffixIndependence` | tools/gen_dotnet_graphemes/Program.cs:497-574 | behind any boundary the rules give the same boundaries whether or not the text before it is seen |
| `GraphemeRules.NoBridgeAtBoundary` | tools/gen_dotnet_graphemes/Program.cs:552-564 | no cluster starts inside a pictograph, Extend*, ZWJ chain |
| `GraphemeRules.EvenAtBoundary` | tools/gen_dotnet_graphemes/Program.cs:565-568 | an even number of regional indicators ends right before any boundary that is followed by one |
| `GraphemeRules.ElementsWithinScalars` | tools/gen_dotnet_graphemes/Program.cs:483-495 | there are at most as many text elements as scalars, and at least one if there is any scalar |
| `GraphemeConcat.ConcatElements` | tools/gen_dotnet_graphemes/Program.cs:497-574 | exact law of concatenation: the elements of `s + t` are those of `s` plus those of `t` minus a loss of 0, 1 or 2 that is read off the join |
| `GraphemeConcat.ConcatBounds` | tools/gen_dotnet_graphemes/Program.cs:497-574 | concatenation loses between 0 and 2 elements |
| `GraphemeConcat.ConcatBoundsAreTight` | tools/gen_dotnet_graphemes/Program.cs:497-574 | losses of 0, 1 and 2 all occur |
| `GraphemeConcat.ControlSeparates` | tools/gen_dotnet_graphemes/Program.cs:518-521 | a control scalar between two texts counts as one element and lets no context across |
| `GraphemeProbe.ClassifyRecovers` | tools/gen_dotnet_graphemes/Program.cs:354-404 | if the probe characters have their documented classes and counts follow the rules, the behavioural fingerprint of every code point gives back its class |
| `GraphemeProbe.OutcomesByRules` | tools/gen_dotnet_graphemes/Program.cs:367-402 | what each probe string counts to, for every class of the probed code point |
| `GraphemeTable.BuildRuns` | tools/gen_dotnet_graphemes/Program.cs:254-267 | the emitted runs are sorted, disjoint, maximal, never of class Other and agree with the probed table everywhere |
| `GraphemeTable.RunsAreCanonical` | tools/gen_dotnet_graphemes/Program.cs:254-267 | a table has only one such list of runs |
| `GraphemeTable.RunsAreLossless` | tools/gen_dotnet_graphemes/Program.cs:285-286 | equal runs come from equal tables |
| `GraphemeTable.PartitionPoint` | neo-native-contracts/src/text/dotnet_text_segmentation.rs:54-54 | binary search over the runs finds the first run that does not end before the code point |
| `GraphemeTable.BreakClass` | neo-native-contracts/src/text/dotnet_text_segmentation.rs:51-77 | lookup in the runs returns the class of the probed table for every code point, Other where no run covers it |
| `GraphemeTable.StrLen` | neo-native-contracts/src/text/dotnet_text_segmentation.rs:81-90 | end to end: runs built from a table and the scanner together count the text elements of the rules |
| `ExecutionProfile.Collector.constructor` | neo-vm/src/execution_profile.rs:463-472 | a new collector is in the initial state |
| `ExecutionProfile.Collector.RecordOpcode` | neo-vm/src/execution_profile.rs:475-491 | recording an opcode is one step of the specification; nothing else changes |
| `ExecutionProfile.Collector.RecordContextLoad` | neo-vm/src/execution_profile.rs:493-511 | recording a context load is one step of the specification, with the capacity of 64 scripts |
| `ExecutionSummary.RunIsSummary` | neo-vm/src/execution_profile.rs:474-511 | after any trace shorter than 2^64 the state is a closed summary of the trace: the first 64 distinct keys loaded, each with its own counts, the first 32 distinct offsets and overflow counters |
| `ExecutionSummary.RecordLoadSummary` | neo-vm/src/execution_profile.rs:228-245 | one more load of a script extends the summary of its offsets by one |
| `ExecutionSummary.ScriptsWithinCapacity` | neo-vm/src/execution_profile.rs:504-510 | the retained scripts are exactly the retained keys, at most 64 |
| `ExecutionSummary.EntryLoadsConserved` | neo-vm/src/execution_profile.rs:228-245 | every load of a script is in one of its entries or in its entry overflow |
| `ExecutionSummary.InstructionsConserved` | neo-vm/src/execution_profile.rs:475-491 | instructions of the retained scripts plus the overflow counter are all instructions |
| `ExecutionSummary.LoadsConserved` | neo-vm/src/execution_profile.rs:493-511 | loads of the retained scripts plus the overflow counter are all context loads |
| `ExecutionSummary.OpcodeCountsConserved` | neo-vm/src/execution_profile.rs:374-379 | the opcode counters add up to the number of instructions |
| `ExecutionSnapshot.EntryOrder` | neo-vm/src/execution_profile.rs:528-533 | the entry comparator is a strict order |
| `ExecutionSnapshot.ScriptOrder` | neo-vm/src/execution_profile.rs:544-550 | the script comparator is a strict order, and of two scripts with different keys one comes first |
| `ExecutionSnapshot.LexIff` | neo-vm/src/execution_profile.rs:548-548 | hashes are compared lexicographically: the first difference decides |
| `ExecutionSnapshot.SortEntries` | neo-vm/src/execution_profile.rs:527-533 | sorting entries keeps exactly the entries and orders them |
| `ExecutionSnapshot.Snapshot` | neo-vm/src/execution_profile.rs:522-560 | whatever order the hash map is walked in, the result is a snapshot of the state |
| `ExecutionSnapshot.SnapshotUnique` | neo-vm/src/execution_profile.rs:522-560 | a state has only one snapshot |
| `ExecutionSnapshot.SnapshotDescends` | neo-vm/src/execution_profile.rs:528-550 | along a snapshot instructions never grow, ties go by hash and then by length; along the entries of a script loads never grow and ties go by offset |
| `ExecutionSnapshot.ReachableEntriesDistinct` | neo-vm/src/execution_profile.rs:228-245 | the entries of a script have distinct offsets in every reachable state |
| `ExecutionSnapshot.SnapshotKeys` | neo-vm/src/execution_profile.rs:522-560 | the snapshot lists each retained script once |
| `ExecutionSnapshot.SnapshotConserves` | neo-vm/src/execution_profile.rs:374-379 | instructions and loads are conserved in the snapshot of every run |
| `ExecutionSnapshot.SnapshotEntries` | neo-vm/src/execution_profile.rs:527-541 | the entry loads in a snapshot and the entry overflow add up to the loads of the script |
| `ExecutionOrder.SnapshotIgnoresOrder` | neo-vm/src/execution_profile.rs:583-604 | two traces of the same events, within the bounds and with each script loaded before its opcodes, have the same snapshot |
| `CheckpointStages.RetainStageRoots` | scripts/continuous_stateroot_status.py:131-148 | the roots held afterwards are those at the current stage heights, the matched ones preferred |
| `CheckpointStages.RetainedIsSound` | scripts/continuous_stateroot_status.py:131-148 | at most three roots are held, each of a block that agreed; a retained base root stays |
| `CheckpointStages.RetainingKeeps` | scripts/continuous-stateroot-validation.py:804-811 | base and latest root are held exactly when their blocks agreed, whether or not the height is already non-negative |
| `CheckpointStages.VerifiedStagesAgreed` | scripts/continuous_stateroot_status.py:101-166 | for any held roots of blocks that agreed: a stage is marked as verified exactly if a root is held at its height, then with that root, and every root held at a current height is shown |
| `CheckpointStages.StagesAre` | scripts/continuous_stateroot_status.py:101-120 | base, mid and latest are named so and stand at the start or 0, halfway rounded down and at the last block; none before the base is validated |
| `CheckpointStages.EndsAreVerified` | scripts/continuous_stateroot_status.py:101-166 | at a loop head base and latest are marked as verified exactly if they agreed |
| `CheckpointStages.HeldAreCurrentIff` | scripts/continuous_stateroot_status.py:101-148 | roots that were at the stage heights of one block are at those of a later one if and only if no held mid or latest height moved away |
| `RootValidator.CompareBatch` | scripts/continuous-stateroot-validation.py:695-788 | the comparison loop compares consecutive blocks with both roots present and ends at the first missing root, at the mismatch limit, at an interrupt or after the last block |
| `RootValidator.AgreedMeans` | scripts/continuous-stateroot-validation.py:746-750 | the roots collected in a batch are those of exactly the compared blocks with equal roots |
| `RootValidator.BatchIsTallied` | scripts/continuous-stateroot-validation.py:744-772 | compared, matched and mismatched totals stay equal to what the log of comparisons says, whichever way the batch ends |
| `RootValidator.BatchKeepsRoots` | scripts/continuous-stateroot-validation.py:804-811 | after a recorded batch the retained roots are at the current heights, include base and latest exactly when those agreed, and are at most three |
| `RootValidator.HeldStayBacked` | scripts/continuous-stateroot-validation.py:774-795 | the roots held before a batch stay roots of agreeing blocks whatever the batch compares, also where it is never recorded |
| `RootValidator.AbortLeavesOldRoots` | scripts/continuous-stateroot-validation.py:774-795 | an input on which the run that hits the mismatch limit holds a root that is at no current stage height |
| `RootValidator.PublishTruthful` | scripts/continuous-stateroot-validation.py:776-795 | a published status has the totals of the blocks from the start to its last block, and each stage it marks as verified is one of those blocks, compared with equal roots |
| `RootValidator.HeadVerified` | scripts/continuous-stateroot-validation.py:816-844 | a status published at a loop head marks base and latest as verified exactly if the comparisons so far had equal roots there |
| `RootValidator.ExtendRun` | scripts/continuous-stateroot-validation.py:674-813 | one batch, for every way it ends: totals match the log and every held root is of an agreeing block; the loop-head invariant is back unless the limit or an interrupt cut it short, and then the roots are the old ones |
| `RootValidator.RecordBatch` | scripts/continuous-stateroot-validation.py:772-844 | the batch and the status written behind it, truthful for every ending; it is paused exactly if the batch ended early, else a pass or a failure by the mismatches so far |
| `RootValidator.ContinuePass` | scripts/continuous-stateroot-validation.py:604-844 | with a height known: complete exactly if the target is behind, waiting exactly if nothing is available yet, else one batch up to the height, the batch size or the target, whichever comes first |
| `RootValidator.OnePass` | scripts/continuous-stateroot-validation.py:552-873 | one pass, for any answers: the first height that a one-shot run sees fixes its target, RPC errors and missing heights change nothing else, a pause keeps the invariant, an abort or interrupt still publishes a truthful status, and otherwise the kind of status is decided by what stopped the pass |
| `RootValidator.Validate` | scripts/continuous-stateroot-validation.py:508-873 | one run over any answers, interrupts and crashes: the target is the requested end or, for a one-shot run, the first height seen if that is lower, and a complete run compared every block up to it; totals equal the blocks from start to last; every status published, those of abort and interrupt included, marks only agreeing blocks as verified, and those of finished passes mark base and latest whenever they agreed and name what stopped the pass; held roots are at current heights at every loop head and at abort or interrupt if and only if none moved away; the resume value never passes a block that was not compared |
| `RootValidator.RunSessions` | scripts/continuous-stateroot-validation.py:329-342 | any number of runs over one resume file, each dying anywhere: every block from the origin up to the resume value was compared with both roots present; the origin is at most one above the resume value and is the explicit start of the last run that had one and wrote the file, else behind the initial value; a run writes only if it was offered a block |
| `Numerals.ConvertBack` | scripts/neo_storage_tools.py:22-32 | changing the base and back gives the same digits, leading zeros included |
| `Numerals.NumeralOfValue` | scripts/neo_storage_tools.py:29-31 | a numeral without leading zeros is determined by its value |
| `Base58.AlphabetAscends` | scripts/neo_storage_tools.py:15-15 | the alphabet has 58 characters in ascending order, hence no duplicates |
| `Base58.AlphabetIs` | scripts/neo_storage_tools.py:15-15 | the alphabet is the digits and letters without 0, O, I and l |
| `Base58.ShortestBytes` | scripts/neo_storage_tools.py:31-31 | the width computed from the bit length gives the shortest byte string of the number |
| `Base58.DecodeDigits` | scripts/neo_storage_tools.py:22-32 | before the checksum: the digit loop inverts Base58 encoding, and refuses exactly the strings that are no encoding |
| `Base58.EncodeIsInjective` | scripts/neo_storage_tools.py:22-32 | different byte strings have different encodings |
| `Base58.EncodeIsOnto` | scripts/neo_storage_tools.py:22-32 | every string over the alphabet encodes some byte string |
| `Base58.Base58CheckDecode` | scripts/neo_storage_tools.py:22-39 | for any hash function: a payload is returned if and only if the string is the encoding of that payload and its checksum, so each payload has exactly one accepted string |
| `Base58.AddressToScriptHash` | scripts/neo_storage_tools.py:42-53 | an account is returned if and only if the address encodes the version byte and its twenty bytes |
| `StackItems.SignedRoundTrip` | scripts/neo_storage_tools.py:85-94 | every integer is read back from each of its two's-complement forms, minimal or sign-extended |
| `StackItems.BytesOfSigned` | scripts/neo_storage_tools.py:93-93 | bytes that read as an integer are its two's-complement form at their width |
| `StackItems.SomeWidthFits` | scripts/neo_storage_tools.py:85-94 | every integer has such a form |
| `StackItems.ReadVarInt` | scripts/neo_storage_tools.py:62-77 | a successful read ends within the data and behind where it began |
| `StackItems.ReadVarIntIff` | scripts/neo_storage_tools.py:62-77 | reading gives a number exactly where an encoding of it stands, in any of the four widths |
| `StackItems.DecodeStackInteger` | scripts/neo_storage_tools.py:85-94 | a successful read ends within the data |
| `StackItems.DecodesItem` | scripts/neo_storage_tools.py:85-94 | an integer item is decoded to its value and its end |
| `StackItems.ItemDecoded` | scripts/neo_storage_tools.py:85-94 | whatever is decoded is an integer item |
| `StackItems.BalanceRoundTrip` | scripts/neo_storage_tools.py:97-109 | every balance is returned from every record of it: any width, any length prefix, any further fields, any trailing bytes |
| `StackItems.BalanceOnlyFromRecords` | scripts/neo_storage_tools.py:97-109 | a non-empty value that decodes is a record of the balance returned |
| `StackItems.BalanceIff` | scripts/neo_storage_tools.py:97-109 | a balance is returned if and only if there is no record or an empty one and it is 0, or the bytes are a record of it |
| `ConfigLines.HeaderIff` | scripts/prepare-clean-stateroot-validation.py:41-41 | a line is a section header with a given name if and only if it is that name in brackets with only space around |
| `ConfigLines.SettingIff` | scripts/prepare-clean-stateroot-validation.py:42-42 | a line is a setting with a given indent and key if and only if it is space, a bare key, space, an equals sign and anything |
| `ConfigLines.EmittedReadsBack` | scripts/prepare-clean-stateroot-validation.py:42-66 | a written line with a bare key reads back as the same setting, with its value behind the equals sign |
| `ConfigLines.ClassifiedKeysAreBare` | scripts/prepare-clean-stateroot-validation.py:42-42 | keys recognised in a text are bare |
| `ConfigRewrite.AppendMissing` | scripts/prepare-clean-stateroot-validation.py:44-48 | the keys of a section that were not seen are appended in dictionary order and marked |
| `ConfigRewrite.RewriteLine` | scripts/prepare-clean-stateroot-validation.py:50-69 | one turn of the loop, for headers, replaced and removed settings and all other lines |
| `ConfigRewrite.RewriteLines` | scripts/prepare-clean-stateroot-validation.py:36-72 | the loop computes the specified rewriting |
| `ConfigLaws.RewrittenStays` | scripts/prepare-clean-stateroot-validation.py:36-72 | rewriting rewritten lines changes nothing if the written keys are bare, repeated section headers and removed keys included |
| `ConfigLaws.LinesOfOutput` | scripts/prepare-clean-stateroot-validation.py:50-71 | all other lines survive in order; the settings of replaced keys are exactly those the rewriter writes |
| `ConfigLaws.RewriteIsCorrect` | scripts/prepare-clean-stateroot-validation.py:36-72 | in the output every setting of a replaced key reads back with exactly the value of the dictionary, removed keys are gone, every key with a value is set in every section the text visits, and all other lines stay in order |
| `ConfigLaws.IdempotentIff` | scripts/prepare-clean-stateroot-validation.py:36-72 | unless a written line reads as a header or as a key to be removed, rewriting twice is rewriting once if and only if the keys written into the visited sections are bare |
| `ConfigLaws.OutputRemains` | scripts/prepare-clean-stateroot-validation.py:50-69 | unless a written line reads so, rewritten lines hold no setting that another rewriting would remove |
| `ConfigLaws.BareIsHarmless` | scripts/prepare-clean-stateroot-validation.py:41-42 | lines written for bare keys never read so, whatever keys are to be removed |
| `ConfigLaws.DashedKeyGrows` | scripts/prepare-clean-stateroot-validation.py:44-48 | a dashed key is an input on which rewriting is not idempotent |
| `ConfigLaws.RemovedKeyHidesAnother` | scripts/prepare-clean-stateroot-validation.py:44-62 | a written line that reads as a key to be removed can leave rewriting idempotent although its key is not bare |
| `ConfigLaws.RemovedKeyReorders` | scripts/prepare-clean-stateroot-validation.py:44-62 | with one more key it is not idempotent: each run removes that line and appends it at the end |
| `ConfigText.SplitJoined` | scripts/prepare-clean-stateroot-validation.py:37-37 | splitting a joined text gives back its lines |
| `ConfigText.SplitAtBreak` | scripts/prepare-clean-stateroot-validation.py:37-37 | a text is cut at each of the break characters, at a carriage return and newline only once, and nowhere else |
| `ConfigText.RewriteTextIdempotent` | scripts/prepare-clean-stateroot-validation.py:36-72 | rewriting a whole text twice is rewriting it once |
| `Divergence.BinarySearch` | scripts/find-stateroot-divergence.py:147-204 | any block returned below the upper end differs while its predecessor agrees, even with roots missing; the upper end is returned rightly exactly when it differs; it fails only where the middle of an interval was missing locally and none of the next four blocks was returned by both nodes, or where the reference failed twice; with all roots available it never fails and takes a logarithmic number of rounds |
| `Divergence.Nearby` | scripts/find-stateroot-divergence.py:162-180 | the fallback takes the nearest of the next four blocks up to the upper end that both nodes return, and reports its comparison; it finds none exactly if they return none |
| `Divergence.Probe` | scripts/find-stateroot-divergence.py:366-394 | probing hands over an agreeing lower end; the upper end differs if and only if the top differs or a lower probe did; with all roots available the upper end is at most twice the lower one |
| `Divergence.HighestAvailable` | scripts/find-stateroot-divergence.py:339-355 | backing off ends at the highest of the last hundred blocks that the local node returns, or finds that it returns none |
| `Divergence.FindDivergence` | scripts/find-stateroot-divergence.py:276-402 | every outcome by its exact condition: unreachable, different at genesis, no divergence, or a search below the top, which is the requested block or else the highest available one; it fails only where roots could not be got; any report is right if and only if the roots at the top differ or a block below the top is named; a report is confirmed exactly if the reference answers for the top, and then right; if both nodes answer everything the diverging block is found |
| `Divergence.SilentReference` | scripts/find-stateroot-divergence.py:332-362 | nodes that agree everywhere, with a reference that is silent at the top, make the search report the top |
| `Divergence.DivergingBlockIsFirst` | scripts/find-stateroot-divergence.py:147-153 | if divergence is permanent, the diverging block is the first one |
| `BoundedTables.TableHolds` | scripts/mainnet_sync_profile.py:189-212 | a bounded table holds exactly the first distinct keys, in order, each with what its own events build up |
| `BoundedTables.TableConserves` | scripts/mainnet_sync_profile.py:189-227 | what the slots hold and what was turned away add up to all that came in |
| `SyncProfile.CountLoads` | scripts/mainnet_sync_profile.py:220-227 | the loop over entry loads counts into at most 128 entries and sends the rest to the overflow |
| `SyncProfile.CountAllConserves` | scripts/mainnet_sync_profile.py:220-227 | no load is lost and the capacity is kept |
| `SyncProfile.Aggregator.constructor` | scripts/mainnet_sync_profile.py:140-161 | a new aggregate is empty |
| `SyncProfile.Aggregator.MergeReport` | scripts/mainnet_sync_profile.py:189-227 | one reported script is entered into its slot or into the overflow counters |
| `SyncProfile.Aggregator.MergeContext` | scripts/mainnet_sync_profile.py:234-281 | one logical context is entered into its script, creating it if there is room, or into the overflow counter |
| `SyncProfile.Aggregator.Merge` | scripts/mainnet_sync_profile.py:164-288 | one transaction adds its totals, labels and malformed counts, its scripts and contexts in order, and the instructions it left unreported |
| `SyncProfileLaws.ScriptsAreExact` | scripts/mainnet_sync_profile.py:189-281 | after any records the scripts are the first 16384 distinct ones seen, each holding what was reported for it alone |
| `SyncProfileLaws.InstructionsConserved` | scripts/mainnet_sync_profile.py:164-288 | profiled instructions are at most what the scripts and the three overflow counters account for; equal if and only if no record reports more than it profiled; the difference is exactly that excess |
| `SyncProfileLaws.LoadsConserved` | scripts/mainnet_sync_profile.py:189-281 | context loads and logical-context loads are conserved across the scripts and the overflow counters |
| `SyncProfileLaws.ScriptTotals` | scripts/mainnet_sync_profile.py:212-227 | each number of a retained script, entry and logical-context loads included, is the sum of what was reported for it over all records, within 128 entries and 256 logical contexts |
| `SyncProfileLaws.EntriesAreExact` | scripts/mainnet_sync_profile.py:220-281 | the entries of a retained script are its first 128 distinct offsets, each with the loads of that offset, and likewise for its first 256 distinct logical contexts |
| `SyncProfileLaws.LoadsOfKey` | scripts/mainnet_sync_profile.py:222-227 | what is counted for one offset or context is the sum of its own loads |
| `SyncProfileLaws.PlainTotals` | scripts/mainnet_sync_profile.py:168-232 | the totals that every record adds to, malformed counts included, are the sums over the records |
| `SyncProfileLaws.LabelsAreExact` | scripts/mainnet_sync_profile.py:464-471 | the labels counted are the first 64 distinct ones, each with the number of records that carry it |
| `RateSummary.AdjacentIntervals` | scripts/run-bounded-mainnet-replay.py:964-990 | the adjacent-sample loop computes its specification, malformed and foreign entries included |
| `RateSummary.AdjacentIsNeighbours` | scripts/run-bounded-mainnet-replay.py:964-990 | the adjacent summary lists exactly the advances between neighbouring readings, each with the time between them |
| `RateSummary.PlateauIntervals` | scripts/mainnet_replay_proofs.py:264-298 | the plateau loop computes its specification |
| `RateSummary.SameAdvances` | scripts/mainnet_replay_proofs.py:264-298 | with strictly growing time both summaries list the same advances, and no plateau rate exceeds the adjacent one |
| `RateSummary.AdvancesAddUp` | scripts/run-bounded-mainnet-replay.py:964-990 | with heights that never fall both lists add up to the climb, and the plateau times add up to the time of the last advance |
| `ReplayVerdict.FetchReferences` | scripts/run-bounded-mainnet-replay.py:339-385 | the comparison succeeds if and only if there is a reference and every one returned the local root |
| `ReplayVerdict.ReplayReport.constructor` | scripts/run-bounded-mainnet-replay.py:1514-1514 | a report starts without a fast-sync import |
| `ReplayVerdict.ReplayReport.ApplyMeasurement` | scripts/mainnet_replay_proofs.py:88-130 | a rate outside the band lowers the status |
| `ReplayVerdict.ReplayReport.Recover` | scripts/run-bounded-mainnet-replay.py:634-639 | a tentative status is raised by an import proof |
| `ReplayVerdict.ReplayReport.AttachFastSync` | scripts/run-bounded-mainnet-replay.py:533-563 | fast-sync only: a success without a readable sidecar is withdrawn, a measured rate outside the band lowers the status, an import proof raises a tentative one |
| `ReplayVerdict.ReplayReport.AttachChainAcc` | scripts/run-bounded-mainnet-replay.py:646-667 | chain import only: an import proof raises a tentative status, otherwise its rate is applied |
| `ReplayVerdict.ReplayReport.AttachPostProbe` | scripts/run-bounded-mainnet-replay.py:485-530 | a success is withdrawn if a required height or reference check fails, heights first |
| `ReplayVerdict.ReplayReport.Judge` | scripts/run-bounded-mainnet-replay.py:1514-1528 | the final status is the verdict about which the lemmas below speak |
| `ReplayVerdict.HardFailuresStay` | scripts/run-bounded-mainnet-replay.py:485-667 | timeout, process exit, repairable failure and too fast are absorbing |
| `ReplayVerdict.UpgradedIff` | scripts/run-bounded-mainnet-replay.py:604-667 | a status other than success ends as success if and only if it is tentative, the fields of the import show transaction blocks, an end at or above the target and a rate at or above the floor, for fast-sync also the floor flag, and the required checks pass |
| `ReplayVerdict.KeptIff` | scripts/run-bounded-mainnet-replay.py:485-563 | a success is kept if and only if fast-sync delivered a sidecar whose rate, that of the transaction blocks or else the average, lies within the band or is below the floor of an import that proves itself, and the required checks pass |
| `ReplayVerdict.AcceptedSpeedIsInBand` | scripts/mainnet_replay_proofs.py:88-162 | with a positive floor, an acceptable speed is one within the band |
| `ReplayVerdict.NotUpgradedIs` | scripts/run-bounded-mainnet-replay.py:604-667 | a report that is not upgraded keeps its status, except that unproven work becomes too slow exactly if its rate is below the floor |
| `ReplayVerdict.WithdrawnAs` | scripts/run-bounded-mainnet-replay.py:533-563 | a success that is withdrawn before the checks names a missing or unreadable sidecar, a rate below the floor or one above the ceiling |
| `ReplayVerdict.ChecksLowerSuccess` | scripts/run-bounded-mainnet-replay.py:512-528 | the checks change nothing but a success, and then name the first check that failed |
| `ReplayVerdict.RecoverTwice` | scripts/run-bounded-mainnet-replay.py:512-512 | recovering once more before the checks changes nothing |
| `ReplayVerdict.SuccessIsVerified` | scripts/run-bounded-mainnet-replay.py:399-530 | success with a database and both checks required means equal heights and every reference returning exactly the local root |
| `CheckpointPlan.BuildPlan` | scripts/maintain-stateroot-checkpoints.py:397-677 | every action is determined by its stage and the directory; ready if and only if the stages are complete, none is blocked or deferred and three checkpoints are usable; without complete stages it waits or stops |
| `CheckpointPlan.CompleteIff` | scripts/maintain-stateroot-checkpoints.py:330-346 | stages are complete if and only if their names are exactly base, mid and latest |
| `CheckpointPlan.ActionsAre` | scripts/maintain-stateroot-checkpoints.py:287-327 | a checkpoint is created for a stage if and only if its path does not exist, its height is the durable, the validated and a reference-checked one, and no earlier stage has it; deferred and blocked by the other cases |
| `CheckpointPlan.CreatesAtMostOne` | scripts/maintain-stateroot-checkpoints.py:287-327 | at most one checkpoint is created, at a path that does not exist and at the current durable height |
| `CheckpointPlan.ProjectedCount` | scripts/maintain-stateroot-checkpoints.py:581-588 | the projected count is the current one, or one more exactly if the plan creates a checkpoint |
| `CheckpointPlan.ExecutePlan` | scripts/maintain-stateroot-checkpoints.py:784-852 | execution fails exactly if a creation fails; a waiting plan is upgraded exactly if something was created, three checkpoints are usable and nothing is blocked or deferred |
| `CheckpointPlan.Maintain` | scripts/maintain-stateroot-checkpoints.py:784-852 | whatever is reported ready has complete stages, none blocked or deferred, and three checkpoints usable when planned or when executed; the reported count is three or more exactly if nothing was executed or three are usable afterwards |
| `TrieMap.PutGet` | neo-trie/src/mpt/trie/mutation.rs:174-373 | after an insertion the new value is found at its path and the old values everywhere else |
| `TrieMap.PutCanonical` | neo-trie/src/mpt/trie/mutation.rs:174-373 | insertion keeps the canonical form: no empty or chained extensions, no branch with fewer than two children |
| `TrieMap.SplitGet` | neo-trie/src/mpt/trie/mutation.rs:244-303 | splitting an extension keeps all of its paths and adds one |
| `TrieMap.DeleteGet` | neo-trie/src/mpt/trie/mutation.rs:375-573 | removal reports whether the path was there; afterwards it is gone and all others are as before |
| `TrieMap.DeleteCanonical` | neo-trie/src/mpt/trie/mutation.rs:375-573 | removal keeps the canonical form by merging extensions and collapsing branches |
| `TrieMap.CollapseGet` | neo-trie/src/mpt/trie/mutation.rs:492-555 | giving up a branch with one child changes no lookup |
| `TrieUnique.CanonicalUnique` | neo-trie/src/mpt/trie/mutation.rs:174-573 | canonical tries with the same contents are the same trie |
| `TrieUnique.Replayed` | neo-trie/src/mpt/trie/mutation.rs:174-573 | every trie reached by insertions and removals is canonical |
| `TrieUnique.ReplayedHolds` | neo-trie/src/mpt/trie/lookup.rs:131-179 | it holds exactly what the last change of each path left |
| `TrieUnique.HistoryIndependent` | neo-trie/src/mpt/trie/mutation.rs:174-573 | two histories give the same trie, and so the same state root, if and only if they leave the same contents |
| `TrieProof.RootHashBinds` | neo-trie/src/mpt/node.rs:267-279 | tries with the same root hash are equal unless two of their rows collide |
| `TrieProof.ProofIsSound` | neo-trie/src/mpt/trie/proof.rs:34-75 | no set of rows verifies to anything but what the trie holds, unless a row of it collides with a row of the trie |
| `TrieProof.ProofIsComplete` | neo-trie/src/mpt/trie/proof.rs:77-128 | a proof exists exactly for the paths that are there and verifies to their value, also among further rows |
| `TrieRows.RowBytesInjective` | neo-trie/src/mpt/node.rs:708-746 | rows with the same bytes are the same row |
| `TrieRows.RootHashBindsBytes` | neo-trie/src/mpt/node.rs:267-279 | for any hash function over bytes: tries with the same root hash are equal unless the bytes of two of their rows collide |
| `TrieRows.ProofIsSoundOnBytes` | neo-trie/src/mpt/trie/proof.rs:34-75 | no rows verify to anything but what the trie holds unless their bytes collide with those of its rows |
| `TrieRows.WidthFor` | neo-io/src/core/var_int.rs:55-68 | the width of a length prefix holds the length and is the shortest that does |
| `TrieStore.RowRead` | neo-trie/src/mpt/node.rs:754-780 | the bytes of a row are read back as the row, and refused exactly if a key or value exceeds its limit |
| `TrieStore.PersistedReads` | neo-trie/src/mpt/node.rs:780-873 | a row with its reference count is read back as both |
| `TrieStore.PersistedLength` | neo-trie/src/mpt/node.rs:423-465 | the check of persisted bytes succeeds if and only if they are a row within the limits and a positive 32-bit reference count, in shortest widths and with nothing behind, and then gives the length of the row |
| `TrieStore.ValidatePersisted` | neo-trie/src/mpt/node.rs:399-408 | persisted bytes are accepted if and only if they are such a row and its bytes have the expected hash |
| `TrieFind.TraverseLists` | neo-trie/src/mpt/trie/lookup.rs:247-352 | a traversal lists exactly the entries behind `from`, in key order |
| `TrieFind.SeekFinds` | neo-trie/src/mpt/trie/lookup.rs:180-241 | the subtrie sought holds exactly the paths that begin with the prefix |
| `TrieFind.FindLists` | neo-trie/src/mpt/trie/lookup.rs:75-129 | a search lists exactly the entries under the prefix behind `from`, in key order, and is refused exactly if `from` lacks the prefix |
| `TrieFind.PagesJoin` | neo-trie/src/mpt/trie/lookup.rs:50-66 | resuming behind the last entry of a page yields exactly the remaining entries: none skipped, none repeated |
| `StateTrie.NibblesInjective` | neo-trie/src/mpt/trie/lookup.rs:405-418 | different keys have different nibble paths |
| `StateTrie.StateTrie.constructor` | neo-trie/src/mpt/trie/mod.rs:80-107 | a new trie is canonical and empty |
| `StateTrie.StateTrie.Fetch` | neo-trie/src/mpt/trie/lookup.rs:15-22 | lookup of a byte key, refused exactly for empty and overlong keys |
| `StateTrie.StateTrie.Update` | neo-trie/src/mpt/trie/mutation.rs:14-52 | an accepted update changes the value of its key and of no other, a refused one changes nothing |
| `StateTrie.StateTrie.Erase` | neo-trie/src/mpt/trie/mutation.rs:55-84 | erasing reports whether the key was there and leaves the root as it is if not |

## Left out

- JSON-RPC, HTTP, retries inside a request, thread pools, subprocesses, PID files and log tailing: their results are inputs of the models.
- Float rounding, timestamps, printed text and human-readable reasons: rates are reals and only the decision behind each reason is kept.
- Reflection cross-check, fixture generation and source printing of the grapheme generator: foreign runtime behaviour and text output.
- Log parsing, window derivation and the final ranking in `scripts/mainnet_sync_profile.py`: records enter as parsed.
- `add_recent`, error counts, rates and time stamps in the validator's status: bookkeeping for display.
- Base64, the comma splitting of reference URLs and the formatting of TOML values: values enter decoded and formatted.
- The averages and extremes of the rate summaries: they follow from the lists of advances.
- The restore probe inside checkpoint execution: it enters as whether it succeeds for a height.
- The node cache, reference counts, deferred finalization and copy-on-write sharing of the trie: nodes are values and a hash-only node stands for the node it resolves to.
- dBFT consensus, the VM itself, native contracts, the mempool and the state packs: not modelled.
- Divergence.BinarySearch: rounds in which the fallback leaves the interval as it is are limited by a parameter, because the original then need not end; the contract says when such rounds occur.
- TrieProof.ProofIsSound: verification is stated to any finite depth, because with a colliding hash the rows of a proof may refer to each other in a circle.
- TrieFind.FindLists: the limit on the length of a prefix and the conversion of paths back to bytes are not part of it; stopping after a number of entries is taking that many from the front.
- ConfigLaws.RewrittenStays: asks that the written keys of the visited sections are bare; `ConfigLaws.IdempotentIff` shows that this is needed, `ConfigLaws.RemovedKeyHidesAnother` why not in every case.
- ConfigLaws.IdempotentIff: leaves out dictionaries with a key whose written line reads as a header or as a key to be removed; there the place of that key decides, as `ConfigLaws.RemovedKeyHidesAnother` and `ConfigLaws.RemovedKeyReorders` show.
- ConfigText.RewriteTextIdempotent: asks in addition that formatted values contain no line break, which formatting guarantees.
- ExecutionSummary.RunIsSummary: stated for traces shorter than 2^64 events, beyond which counters saturate or wrap.
- Divergence.FindDivergence: a reference that never answers for the top makes it report the top as diverging; the contract states exactly when a report is right.
- ExecutionSnapshot.Snapshot: the stack counters and the reference-count maximum are not part of it, atomics that only count.
- StateTrie.StateTrie.constructor: opens the empty trie only; opening at a stored root hash needs the node store, which is not modelled.
- RootValidator.Validate: an interrupt hits before a height is seen, between two comparisons or between the steps that record the batch; one between the assignments that record a single comparison is not modelled.
- TrieRows.RootHashBindsBytes: asks that keys and values are shorter than 2^64 bytes, which their length prefix can hold; the hash function is a parameter.
