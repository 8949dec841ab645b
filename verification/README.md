# Counter bookkeeping of the Score-P/UCX plugin

This project models, in Dafny, the bookkeeping of the Score-P metric plugin for UCX: how it turns the tree of UCX
statistics objects into a flat list of counters and keeps the values in it up to date, how it reads aggregate sums and
NIC counters, how it names, registers, renames and stores metrics, and how the ranks of an MPI job agree on the counters
in the legacy mode. It proves properties of that model for all trees, lists, runs and interleavings.

The objects whose methods change state in place are classes (`CounterList` and its records, `UcxSampling`, `Disk`,
`ScorepPlugin`); each method is tied by its `ensures` to a step function or a specification function, and the lemmas
about whole runs speak of those. The protocol among the ranks is a state machine. A `char` stands for a byte, and a
`CString` for the bytes before a terminating NUL.

| file | what it models |
|---|---|
| `CStrings.dfy` | C strings and `snprintf` truncation |
| `NumberText.dfy` | printed numbers, and what `strtoull` and `std::stoull` read |
| `PluginTypes.dfy` | integer types, the counter record, the counters list |
| `StatsTree.dfy`, `ObjectNumbers.dfy` | the statistics tree, its preorder flattening, the object numbers in names |
| `ScanSpec.dfy` | what a scan makes of the list, in both modes |
| `LegacyRuns.dfy` | the legacy sampling mode over whole runs |
| `Dispatch.dfy` | the aggregate-sum snapshot and the dispatch of counter ids |
| `NicRuns.dfy`, `NicNames.dfy` | NIC reads decimated by 128, grouping of NIC counters by name |
| `UcxSampling.dfy` | the sampling object |
| `NameSerializer.dfy`, `NameFile.dfy` | the NUL-separated buffer and the newline-separated file of names |
| `MetricSpec.dfy` | `split` and `parse_metric` |
| `Enumeration.dfy` | the legacy enumeration among the ranks (sections 5.3 and 5.4 of MPI-3.1) |
| `Registration.dfy`, `Renaming.dfy` | registration and renaming over repeated calls and runs |
| `RegistrationRaces.dfy` | the registration of one job, as interleaved steps of its ranks |
| `MetricIds.dfy` | which registered names are accepted as metrics, and the ids they get |
| `ScorepPlugin.dfy` | the plugin object |

## Where the code does something else than one would expect

Each of these is stated exactly, as an if-and-only-if or with the input that shows it.

- Object numbers are preorder ranks exactly when no node with a later sibling has grandchildren
  (`ObjectNumbers.NumberedByRankIffShallow`): a recursive scan reports its direct children only. So two nodes can share
  a number (`ObjectNumbers.GrandchildMisnumbersSibling`).
- A refresh answered with no sums is reported as a failure, yet the value handed out is the old one and not the 0
  assigned just before (`Dispatch.ReadOfHeldSnapshot`). After it no read refreshes any more; only a registration that
  has to ask the library does (`Dispatch.RefreshesOfRun`).
- Counter ids are dispatched by the number of sums in the snapshot held at each read, not by the number of names
  registered, and the first read of every sweep takes a new snapshot. Over any number of sweeps all reads are of the
  id's own counter exactly when the first sweep finds sums and every sweep's own snapshot has as many sums as there are
  UCX names, or more and there are no NIC metrics; or, without UCX names, when the first sweep finds no sums
  (`ScorepPlugin.RegisteredSweepsReadTheirOwnIff`). A snapshot that matches when the metrics are registered is not
  enough (`Dispatch.OneSumLessSendsIdAway`). The recipe of the repository's README.md for NIC counters, with UCX
  collection off, fails this as soon as the library delivers a sum (`ScorepPlugin.NicOnlyReadsUcxSums`).
- A legacy list built from one tree may be updated from another. That is harmless exactly when the other tree's
  flattening begins with that of the first (`ScanSpec.ChangedTreeHarmlessIff`); a node that comes up in front shifts all
  values (`ScanSpec.EarlierNodeShifts`).
- A rank that looks for the names file while rank 0 is still adding to it registers a part of the list. All ranks of a
  job that starts without a file have one list exactly when each looked before the first name was there and is answered
  the same, or after all were there and fit (`RegistrationRaces.OneListIff`, `RegistrationRaces.RankReadsAFront`); they
  never look in between when initialising MPI waits for all (`RegistrationRaces.OneListWhenSynchronised`).
- Rank 0 adds its list once more to a names file that is there and cannot be read (`Registration.FileIsFixedPointIff`).
- The ids of the registered names are their positions only if all names are accepted as metrics. The names the library
  answers are, exactly when none has an `@` but at its very end (`ScorepPlugin.RegisteredIdsArePositionsIff`); the names
  that come back from the file are, exactly when the file gives the list back (`MetricIds.ReadBackAcceptedIff`).
- The NIC metrics are registered under the device's own first names, not under the aggregate names. The two lists are
  equal exactly when some front of the device's names is free of digits and colons, has no name twice, and has all
  filtered names of the device in it (`NicNames.RegisteredAreAggregateIff`); two counters that differ in a digit are
  enough to fail it (`NicNames.RegisteredAreNotAggregate`).
- A pointer to the rename function given as hexadecimal text is accepted exactly when the text does not begin with a
  letter, because the same text is read as a decimal too (`MetricSpec.PointerAcceptedIff`,
  `MetricSpec.PointerRejected`).
- The names file gives a list back exactly when every name has at most 510 bytes and no newline
  (`NameFile.RoundTripIffFits`).
- The repository's README.md limits `UCX@N` to N counters. Registration never looks at N: it keeps within N exactly when
  there happen to be no more UCX names and kinds of NIC counters (`ScorepPlugin.LimitKeptByRegistrationIff`), and for
  every N there is an answer of the library that breaks it (`ScorepPlugin.LimitIgnored`). The legacy enumeration keeps
  the limit exactly when N is not 1 or there is at most one counter (`Enumeration.LimitKeptIff`,
  `Enumeration.LimitOfOneExceeded`).
- Nine digits of an index are printed into a temporary name, so such names collide from index 1000000000 on
  (`Renaming.SameTemporaryNameIff`, `Renaming.TemporaryNamesCollide`).

## Model

| member | source | states |
|---|---|---|
| StatsTree.NodeByIndex | src/ucx_sampling.cpp:144-158 | a path names a node by child indices, level by level, and a place a counter by its index in the node |
| StatsTree.PlacesAreCounters | src/ucx_sampling.cpp:144-198 | every entry of the preorder flattening is a counter below the root, with that counter's value |
| StatsTree.EveryCounterHasAPlace | src/ucx_sampling.cpp:144-198 | every counter below the root is in the flattening |
| StatsTree.PlacesInPreorder | src/ucx_sampling.cpp:144-198 | the flattening is strictly in preorder, so it has no counter twice |
| StatsTree.SameShapeSamePlaces | src/ucx_sampling.cpp:144-198 | trees of one shape have their counters in the same places |
| ScanSpec.NamesInPreorder | src/ucx_sampling.cpp:151-168 | each counter is named after its node's object number, the class names on the path to it and its own name, truncated as the buffers are |
| ScanSpec.RecordNameIsJoined | src/ucx_sampling.cpp:151-168 | the three truncations amount to one: a record's name is the first 511 bytes of `ucx`, `object`, the object number, `cnt`, the class names on the path and the counter's name, joined by dashes |
| ScanSpec.RecordNameReadsBack | src/ucx_sampling.cpp:151-168 | a name that fits, of parts without dashes, splits into these parts, and its third part reads as the object number |
| ScanSpec.ObjectNumberReadsBack | src/ucx_sampling.cpp:154-155 | the digits behind `ucx-object-` read as the object number, and after a dash comes as much of the prefix as 511 bytes hold |
| ScanSpec.RecordNumberReadsBack | src/ucx_sampling.cpp:154-168 | from every record's name the object number reads back, whatever is cut off |
| ScanSpec.ObjectNamesEqualIff | src/ucx_sampling.cpp:154-155 | names made from one prefix are equal if and only if their object numbers are, and different numbers never give one name |
| ScanSpec.BuiltInPreorder | src/ucx_sampling.cpp:158-188 | an initialising scan of an empty list yields the preorder flattening, record i with its place's name and value, id i (as 32 bits) and previous value 2^64-1 |
| ScanSpec.UpdateWritesFlattening | src/ucx_sampling.cpp:174-188 | an updating scan writes exactly the first min(list size, number of counters) values, each into its own slot; nothing else changes and the cursor stops there |
| ScanSpec.OverwriteInTwo | src/ucx_sampling.cpp:174-201 | overwriting in two goes equals overwriting in one even when the first go runs off the list, which is why leaving one level only is enough |
| ScanSpec.ScanStop | src/ucx_sampling.cpp:174-178 | a level left at a node without room has filled the list already |
| ScanSpec.CompletedNodesMeaning | src/ucx_sampling.cpp:174-201 | an updating scan counts the nodes before the first one whose own counters are more than the slots left |
| ScanSpec.RescanReadsTheSameCounter | src/ucx_sampling.cpp:204-227 | after building from one tree and updating from a tree of the same shape, each slot has the value of the counter it was created for |
| ScanSpec.ReadsItsCounterIff | src/ucx_sampling.cpp:174-188 | a slot gets its own counter's value from every tree of a later shape if and only if both flattenings have the same place there |
| ScanSpec.ChangedTreeHarmlessIff | src/ucx_sampling.cpp:174-188 | all slots do if and only if the later flattening begins with the earlier one |
| ScanSpec.EarlierNodeShifts | src/ucx_sampling.cpp:174-188 | a node with c counters that comes up in front of the others makes every slot from c on hold the value that was c slots before |
| ObjectNumbers.RankIsPreorderPosition | src/ucx_sampling.cpp:190-197 | the rank used for comparison is the node's position in the preorder listing of the nodes |
| ObjectNumbers.PathsAreNodes | src/ucx_sampling.cpp:190-197 | every entry of that listing is a node whose rank is its position |
| ObjectNumbers.ObjectNumberAtMostRank | src/ucx_sampling.cpp:190-197 | the object number never exceeds the preorder rank |
| ObjectNumbers.ObjectNumberIncreasesDownwards | src/ucx_sampling.cpp:190-197 | it strictly increases along every path from the root |
| ObjectNumbers.ObjectNumberIncreasesSideways | src/ucx_sampling.cpp:190-197 | it strictly increases along the children of every node |
| ObjectNumbers.NumberedByRankIffShallow | src/ucx_sampling.cpp:190-201 | all object numbers are preorder ranks if and only if no node with a later sibling has grandchildren |
| ObjectNumbers.Misnumbered | src/ucx_sampling.cpp:190-201 | otherwise some node has an object number below its rank |
| ObjectNumbers.GrandchildMisnumbersSibling | src/ucx_sampling.cpp:190-201 | of two siblings, the first with a grandchild, the second one gets the grandchild's number |
| ObjectNumbers.TwoLevelsAreShallow | src/ucx_sampling.cpp:190-201 | trees of at most two levels below the root are numbered by rank |
| UcxSampling.UcxSampling.ScanOwnCounters | src/ucx_sampling.cpp:158-188 | the loop over one node's counters: appends their records, or overwrites as many values as have slots and tells when it ran out |
| UcxSampling.UcxSampling.ScanNode | src/ucx_sampling.cpp:151-197 | one round of the loop over the children: list and cursor after the node and everything below it |
| UcxSampling.UcxSampling.RecursiveScanCountersList | src/ucx_sampling.cpp:127-202 | list, cursor and returned object count of the whole recursive scan, in both modes |
| UcxSampling.UcxSampling.ScanCountersList | src/ucx_sampling.cpp:204-227 | only the head of the statistics list is scanned, and of it only what is below it |
| LegacyRuns.DetectionIff | src/ucx_sampling.cpp:294-313 | the list gets built if and only if some call number 0, 256, 512, ... is answered with a counter; the flag is set if and only if the list is non-empty |
| LegacyRuns.AttemptsWhileUndetected | src/ucx_sampling.cpp:294-313 | n calls without success make exactly ceil(n/256) scan attempts, also when the 64-bit call counter wraps |
| LegacyRuns.OutcomeOfCall | src/ucx_sampling.cpp:275-315 | what every call hands out: the slot's value, fresh for index 0, with the previous one; zeros beyond the list; before detection nothing, or that it has just happened |
| LegacyRuns.SteadyState | src/ucx_sampling.cpp:275-292 | once set the flag stays set, with length, names and ids of the list fixed |
| LegacyRuns.ReadingsChained | src/ucx_sampling.cpp:281-284 | in every run each reading of a slot carries the value of the reading before, the first one 2^64-1 |
| LegacyRuns.DeltasTelescope | src/ucx_sampling.cpp:281-284 | the differences of a slot's readings add up, in 64-bit arithmetic, to the last value plus 1 |
| LegacyRuns.SweepReadsOneScan | src/ucx_sampling.cpp:275-284 | a read of index 0 and the reads of other slots after it return the values of that one scan |
| UcxSampling.UcxSampling.StatisticsCurrentValueGet | src/ucx_sampling.cpp:261-316 | one legacy read is one step of the run model, and leaves the out-parameters alone when it has no reading |
| Dispatch.HoldsLatest | src/ucx_sampling.cpp:318-338 | after every run of reads and registrations the live part of the 64-entry array is the snapshot taken last |
| Dispatch.ReadOfHeldSnapshot | src/scorep_plugin_ucx.h:192-209 | what each id reads: a component of the held snapshot, of the fresh one for id 0, the old value after an empty refresh, or a NIC counter |
| Dispatch.OutcomeOfRead | src/scorep_plugin_ucx.h:156-211 | the outcome of a read of any id, before MPI is up, at the first read that finds it up, and later, and the snapshot held after it; a negative id asks for a NIC counter modulo 2^32 |
| Dispatch.SweepReadsOneSnapshot | src/scorep_plugin_ucx.h:192-209 | after a read of id 0, and with any reads of other ids, NIC counters included, and registrations from the file in between, the ids of the snapshot return components of the one snapshot taken there |
| Dispatch.RefreshesOfRun | src/scorep_plugin_ucx.h:159-198 | over every run of reads and registrations: the first read that finds MPI up and every registration that asks refresh; a read of id 0 does if and only if sums came with one of those and with every occasion since |
| Dispatch.SweepReadsItsOwnIff | src/scorep_plugin_ucx.h:192-209 | a sweep through all registered ids, from any state, reads each its own counter if and only if MPI is up, id 0 finds sums, and the snapshot it takes has as many as there are UCX names, or more and no NIC counter; without UCX names, if and only if it finds none |
| Dispatch.SweepsReadTheirOwnIff | src/scorep_plugin_ucx.h:192-209 | the same over any number of sweeps: the first one finds sums and the snapshot of every one matches |
| Dispatch.OneSumLessSendsIdAway | src/scorep_plugin_ucx.h:192-209 | two names and two sums held, and one sum less at the next refresh: id 1 reads a NIC counter |
| UcxSampling.UcxSampling.StatsAggregate | src/ucx_sampling.cpp:324 | the library fills the front of the array and leaves the rest |
| UcxSampling.UcxSampling.AggregateCounterGet | src/ucx_sampling.cpp:318-338 | index 0 refreshes; the value is the array's, and the result is false only for an empty refresh |
| NicRuns.RoundsCounted | src/ucx_sampling.cpp:387-392 | after any run of reads and groupings the device was queried (n + 127) / 128 times for the n reads of index 0, and once for each grouping; the counter is n modulo 2^32 |
| NicRuns.DataOfLatestQuery | src/ucx_sampling.cpp:362-398 | the data in use is the device's answer at the latest query: a grouping, or a round whose number is a multiple of 128 |
| NicRuns.LatestQuery | src/ucx_sampling.cpp:379-398 | once there was a round or a grouping there is a latest query, and no later multiple of 128 |
| NicRuns.ReadIsAtMost127RoundsOld | src/scorep_plugin_ucx_config.h:14 | every read returns the device's answer at the latest query, with at most 127 rounds since |
| NicRuns.NothingWithoutDevice | src/ucx_sampling.cpp:382-397 | without a device every read is 0 and nothing changes |
| UcxSampling.UcxSampling.NicCountersUpdate | src/ucx_sampling.cpp:362-377 | queries an initialised device and reports the length of its table, else 0 |
| UcxSampling.UcxSampling.NicCounterValueGet | src/ucx_sampling.cpp:379-398 | one NIC read is one step of the run model |
| NicNames.Filter | src/ucx_sampling.cpp:409-420 | the result has no digit and no colon, is no longer than the name, and is NUL-free if the name is |
| NicNames.UnchangedIffClean | src/ucx_sampling.cpp:409-420 | filtering leaves alone exactly the names without digit and colon |
| NicNames.FilterCons | src/ucx_sampling.cpp:409-420 | the first character is left out if it is a digit or a colon, and else kept in front |
| NicNames.FilterKeepsTheRest | src/ucx_sampling.cpp:409-420 | filtering distributes over concatenation: what is kept stays in order |
| NicNames.FilteredIff | src/ucx_sampling.cpp:412 | exactly the decimal digits and the colon are filtered |
| NicNames.NumbersAreFilteredOut | src/ucx_sampling.cpp:409-420 | a front, any printed number and a back filter to what the front and the back do |
| NicNames.NumberedCountersShareSlot | src/ucx_sampling.cpp:458-481 | counters whose names differ in a number only are mapped to one slot, or none of them has one |
| NicNames.FirstOccurrencesMeaning | src/ucx_sampling.cpp:458-481 | the grouped names are distinct, are the same names, and are ordered by first occurrence |
| NicNames.AggregateStep | src/ucx_sampling.cpp:466-475 | one more counter adds its filtered name if it is new and fewer than 1024 are live |
| NicNames.AggregateNamesDistinct | src/ucx_sampling.cpp:466-475 | at most 1024 names, pairwise distinct, all filtered |
| NicNames.SharedSlotIffSameName | src/ucx_sampling.cpp:466-478 | two counters with a slot share it if and only if their filtered names are equal; a counter has none if and only if its name is not among the first 1024 |
| NicNames.MappingUnique | src/ucx_sampling.cpp:446-486 | the mapping depends on the device's names alone, so a rerun over stale arrays gives the same |
| NicNames.RegisteredAreAggregateIff | src/scorep_plugin_ucx.cpp:298-308 | the names registered for NIC counters are the aggregate names if and only if some front of the device's names needs no filtering, has no name twice and holds all filtered names, as far as 1024 go |
| NicNames.RegisteredAreNotAggregate | src/scorep_plugin_ucx.cpp:298-308 | two counters whose names differ in one digit fail it |
| NicNames.AggregateNamesCount | src/ucx_sampling.cpp:483-485 | the number returned is that of the different filtered names, up to 1024 |
| UcxSampling.UcxSampling.AggregateNameFind | src/ucx_sampling.cpp:422-439 | finds the slot of a name among the live ones, or gives the unsigned value of -1 |
| UcxSampling.UcxSampling.AggregateCounter | src/ucx_sampling.cpp:460-480 | one round of the grouping loop, with what it leaves alone in both arrays |
| UcxSampling.UcxSampling.NicCountersAggregate | src/ucx_sampling.cpp:446-486 | live names are the first 1024 distinct filtered names, the mapping is theirs, all other entries stay; one grouping step of the NIC's run model |
| PluginTypes.CounterList.PushBack | src/ucx_sampling.cpp:160-172 | appends a fresh record, the others unchanged |
| PluginTypes.CounterList.SetValue | src/ucx_sampling.cpp:179 | replaces one value and nothing else |
| PluginTypes.CounterList.Read | src/ucx_sampling.cpp:281-284 | hands out value and previous value and remembers the value |
| PluginTypes.CounterList.MarkRenamed | src/scorep_plugin_ucx.cpp:401 | sets one flag and nothing else |
| NameSerializer.SerializedSize | src/scorep_plugin_ucx.cpp:92-95 | the size pass computes the length of what the copying pass writes |
| NameSerializer.DeserializeSerialize | src/scorep_plugin_ucx.cpp:104-109 | splitting the buffer at its NULs gives the names back, empty ones included |
| NameSerializer.SerializeInjective | src/scorep_plugin_ucx.cpp:104-109 | different lists have different buffers |
| NameSerializer.SerializeDeserialize | src/scorep_plugin_ucx.cpp:104-109 | every buffer that ends with its last NUL is the serialisation of the names in it |
| ScorepPlugin.ScorepPlugin.StrCpy | src/scorep_plugin_ucx.cpp:106 | copies a string and its terminator, and nothing before the offset changes |
| ScorepPlugin.ScorepPlugin.MetricsNamesSerialize | src/scorep_plugin_ucx.cpp:80-113 | the buffer has exactly the computed size and is filled with the serialised names |
| NameFile.PiecesMakeTheName | src/scorep_plugin_ucx.cpp:423-440 | a name of length L is cut into (L + 511) / 511 pieces that concatenate to it, all but the last of 511 bytes |
| NameFile.LineComesBackInPieces | src/scorep_plugin_ucx.cpp:423-440 | a written name without newline is read back as that many such pieces |
| NameFile.ReadBack | src/scorep_plugin_ucx.cpp:406-448 | a file of names without newlines is read back as the pieces of each name, in order |
| NameFile.RoundTripIffFits | src/scorep_plugin_ucx.cpp:406-448 | a list is read back as written if and only if every name has at most 510 bytes and no newline |
| NameFile.NamesComeBackNoLonger | src/scorep_plugin_ucx.cpp:419-448 | what is read back is never longer in all than the names that were written |
| NameFile.LinesReadSeparately | src/scorep_plugin_ucx.cpp:428-440 | what follows a newline is read as if it stood alone |
| NameFile.Disk.AddName | src/scorep_plugin_ucx.cpp:406-417 | appends the name and a newline if the file can be opened |
| NameFile.Disk.GetLine | src/scorep_plugin_ucx.cpp:428 | one `fgets` into 512 bytes: stops at 511 bytes, at the end of the text or after the first newline, and nowhere else |
| NameFile.Disk.ReadCountersList | src/scorep_plugin_ucx.cpp:419-448 | the reading loop terminates and yields the stripped lines, and tells whether there is a file that could be opened |
| MetricSpec.TokensFreeOfDelimiter | src/utils.cpp:20-30 | no token contains the delimiter |
| MetricSpec.JoinSplit | src/utils.cpp:20-30 | joining the tokens gives the input, less one delimiter at its end |
| MetricSpec.SplitJoin | src/utils.cpp:20-30 | splitting joined tokens gives them back, less one empty token at the end |
| MetricSpec.TwoTokensIff | src/utils.cpp:36-39 | the arity check passes if and only if there is one delimiter, not last, or two of which the second is last |
| MetricSpec.GetLine | src/utils.cpp:26 | one `getline`: fails at the end of the text, else extracts the next token |
| MetricSpec.SplitTokens | src/utils.cpp:20-30 | the loop collects exactly the tokens |
| MetricSpec.ParseMetric | src/utils.cpp:33-43 | rejects exactly the specifications of wrong arity, without a number or with one out of range, and otherwise yields event, number and pointer |
| MetricSpec.ParseMeaning | src/utils.cpp:33-43 | there is exactly one way to read a specification: event before the `@`, argument after it |
| MetricSpec.PointerAcceptedIff | src/utils.cpp:41-42 | an address as hexadecimal text is accepted, as that pointer, if and only if it does not begin with a letter; with `0x` it always is |
| MetricSpec.PointerRejected | src/utils.cpp:41-42 | address 10 is printed as a letter and is rejected |
| NumberText.ReadsDecimal | src/utils.cpp:42 | a printed decimal is read as itself, and is out of range from 2^64 on |
| NumberText.ReadsHexadecimal | src/utils.cpp:41 | a printed hexadecimal, with or without `0x` or `0X`, is read as itself, and as 2^64-1 from 2^64 on |
| NumberText.ReadsSigned | src/utils.cpp:42 | blanks and a sign in front are skipped, and a minus sign negates modulo 2^64 |
| NumberText.ReadsNothing | src/utils.cpp:41-42 | a text that starts with anything else is no number, and 0 as a pointer |
| NumberText.CapitalDigits | src/utils.cpp:41 | the letters among the hexadecimal digits may be capital |
| NumberText.HexadecimalAsDecimalIff | src/utils.cpp:41-42 | hexadecimal text read as a decimal is a number if and only if it begins with a decimal digit |
| Enumeration.StepKeepsInvariant | src/scorep_plugin_ucx.cpp:127-174 | every step of every rank keeps what is known of all ranks: collectives issued, data held, messages posted |
| Enumeration.Progress | src/scorep_plugin_ucx.cpp:127-167 | as long as a rank has not finished, some rank can take a step, whether or not broadcasts synchronise |
| Enumeration.EveryRunFinishes | src/scorep_plugin_ucx.cpp:127-178 | in every interleaving of N ranks a run is stuck exactly when all have finished, after exactly 10 N + 1 steps |
| Enumeration.SameCollectives | src/scorep_plugin_ucx.cpp:134-166 | at every point the ranks have issued the same collectives with the same arguments, as far as each has come; no message is refused |
| Enumeration.BarrierWaitsForRead | src/scorep_plugin_ucx.cpp:131-152 | no rank passes the barrier before rank 0 has read its list |
| Enumeration.AllRanksAgree | src/scorep_plugin_ucx.cpp:138-174 | all ranks end with the same capped counter count and a buffer that decodes to rank 0's names |
| Enumeration.CountOfFinishedRun | src/scorep_plugin_ucx.cpp:170-174 | that count is at most the number of names, at most the limit unless that is 1, and one of the two |
| Enumeration.CollectivesOfFinishedRun | src/scorep_plugin_ucx.cpp:134-166 | every rank has issued one barrier and three broadcasts from rank 0: two numbers, and the names with a terminator each |
| Enumeration.LimitKeptIff | src/scorep_plugin_ucx.cpp:170-174 | in every finished run a rank's count is within the user's limit if and only if the limit is not 1 or rank 0 read at most one name |
| Enumeration.CanFinish | src/scorep_plugin_ucx.cpp:127-178 | from every reachable state there is a way on to the end |
| Enumeration.LimitOfOneExceeded | src/scorep_plugin_ucx.cpp:170-174 | for two names or more, a finished run in which every rank exceeds the limit 1 |
| ScorepPlugin.ScorepPlugin.EnumerateLegacyRoot | src/scorep_plugin_ucx.cpp:127-174 | what rank 0 reads and puts into its broadcasts, and that it keeps the lesser one of count and limit, the limit 1 being none |
| ScorepPlugin.RanksHoldTheNamesOfTheTree | src/scorep_plugin_ucx.cpp:127-174 | from tree to ranks, for any read that attempts a scan: every rank ends with the capped number of counters below the root of rank 0's tree and a buffer that holds exactly their names in preorder |
| Registration.RegisterOutcome | src/scorep_plugin_ucx.cpp:216-289 | a registration that reads the file changes nothing and has its names; any other has the answered ones, in order, as metric, class and counter name between underscores, and none but rank 0 touches the file |
| Registration.AddNamesWrites | src/scorep_plugin_ucx.cpp:273-288 | the names that reach the file are written behind what is in it, a line each; none leave it as it is, there or not |
| Registration.AllOpenedKeepsAll | src/scorep_plugin_ucx.cpp:406-417 | when the file could be opened each time, all answered names reach it in order |
| Registration.KeptAreShorter | src/scorep_plugin_ucx.cpp:406-417 | and else the names that reach it are shorter in all |
| Registration.FileOnlyGrows | src/scorep_plugin_ucx.cpp:216-289 | over any registrations a file that is there only grows at its end, by the names of those of rank 0 that could not read it; who can read it registers what is in it then |
| Registration.FileIsFixedPointIff | src/scorep_plugin_ucx.cpp:216-289 | it stays as it is if and only if none of those has a name to add, and then all that can read it register the same list |
| Registration.RunsShareOneList | src/scorep_plugin_ucx.cpp:213-289 | from no file: the first registration that writes a name makes the file; after it whoever can read registers the list in it, whatever the API would answer, and only those of rank 0 that cannot read write again |
| Registration.LaterListsEqualIffFits | src/scorep_plugin_ucx.cpp:213-289 | a later list equals the first one: if nobody added to the file, if and only if it could be opened for each name and all names are within its limits; if it could be opened for each, if and only if moreover nobody added; if all that was written is within the limits, if and only if just the first list was written |
| RegistrationRaces.RunToldFromSchedule | src/scorep_plugin_ucx.cpp:214-289 | at every point of every interleaving, the file holds what rank 0 has gone through, and each rank's state follows from its own steps and from how far rank 0 was when it looked |
| RegistrationRaces.FinishedRank | src/scorep_plugin_ucx.cpp:214-289 | a finished rank has registered what a registration in one go would from the file as it was when the rank looked |
| RegistrationRaces.FileOfJob | src/scorep_plugin_ucx.cpp:273-288 | whatever the interleaving, the job leaves the file of rank 0 alone |
| RegistrationRaces.FrontReadsAsAllIff | src/scorep_plugin_ucx.cpp:406-448 | a front of the list read back is the list if and only if it is all of it, every name got there, and all fit |
| RegistrationRaces.OneListIff | src/scorep_plugin_ucx.cpp:214-289 | in a job that started without a file, a rank has rank 0's list if and only if it found no name, or could not read, and is answered the same; or found all, and they fit |
| RegistrationRaces.OneListFromFile | src/scorep_plugin_ucx.cpp:216-265 | in a job that started with a file that rank 0 can read, all that can read have the list in it |
| RegistrationRaces.OneListWhenSynchronised | src/scorep_plugin_ucx.cpp:219-225 | when initialising MPI waits for all ranks, each registers as from the file before the job |
| RegistrationRaces.NeverStuck | src/scorep_plugin_ucx.cpp:214-289 | a run can go on as long as a rank has not finished |
| RegistrationRaces.StepsBounded | src/scorep_plugin_ucx.cpp:214-289 | and each rank takes at most two steps and one for each name, or a single one if it reads the file |
| RegistrationRaces.RankReadsAFront | src/scorep_plugin_ucx.cpp:273-288 | a rank that looks after the first name was written registers that name alone |
| MetricIds.IdsArePositionsIff | src/scorep_plugin_ucx.cpp:329-348 | the ids of a list of metrics are 0, 1, 2, ... if and only if all are `UCX` specifications and fit 31 bits, or it is a single one that can be parsed |
| MetricIds.LongerNameAcceptedIff | src/utils.cpp:33-43 | a specification with something added to it is one again if and only if it has no `@` at its end and the addition has none but at its end |
| MetricIds.AnsweredAcceptedIff | src/scorep_plugin_ucx.cpp:273-288 | the names of the library's answer are all accepted if and only if no class or counter name has an `@` but at the very end |
| MetricIds.ReadBackAcceptedIff | src/scorep_plugin_ucx.cpp:254-265 | accepted names that come back from the file are all accepted again if and only if all are within the file's limits |
| MetricIds.ReadBackIdsArePositionsIff | src/scorep_plugin_ucx.cpp:329-348 | so their ids are their positions if and only if the file gives the list back |
| ScorepPlugin.ScorepPlugin.RegisterUcx | src/scorep_plugin_ucx.cpp:214-289 | one registration does with the file, the names, MPI and the snapshot what the run model says |
| ScorepPlugin.ScorepPlugin.AddAnswered | src/scorep_plugin_ucx.cpp:272-287 | the answered names, each of which rank 0 adds to the file |
| ScorepPlugin.ScorepPlugin.RegisterNic | src/scorep_plugin_ucx.cpp:298-309 | registers the device's first names, as many as there are aggregate names |
| ScorepPlugin.ScorepPlugin.RegisterMetrics | src/scorep_plugin_ucx.cpp:213-311 | the UCX names, then the NIC names, each part if enabled; one registration step of the snapshot's run model and one grouping step of the NIC's |
| ScorepPlugin.ScorepPlugin.GetMetricProperties | src/scorep_plugin_ucx.cpp:181-326 | throws exactly on specifications that cannot be parsed; registers for `UCX`; stores the rename function for its two names; otherwise does nothing |
| ScorepPlugin.LimitKeptByRegistrationIff | src/scorep_plugin_ucx.cpp:205-312 | the number of metrics registered is that of the UCX names and of the kinds of NIC counters, so within a limit if and only if those are |
| ScorepPlugin.LimitIgnored | src/scorep_plugin_ucx.cpp:205-289 | for every N there is an answer on which `UCX@N` registers more than N metrics |
| ScorepPlugin.RegisteredNameAt | src/scorep_plugin_ucx.cpp:251-309 | the name at each position is that of the counter its id stands for: the UCX names of file or answer first, then the device's names in order |
| ScorepPlugin.RegisteredSweepsReadTheirOwnIff | src/scorep_plugin_ucx.h:159-209 | after a registration, over any number of sweeps every read is of the id's own counter if and only if the first sweep finds MPI up and sums, and every sweep's snapshot matches the names registered; without UCX names, if and only if the first sweep finds no sums. An id's own counter is the one that the name at its position is of |
| ScorepPlugin.ScorepPlugin.AddMetric | src/scorep_plugin_ucx.cpp:329-348 | one metric takes one step of the id counter, or is thrown back |
| ScorepPlugin.RegisteredIdsArePositionsIff | src/scorep_plugin_ucx.cpp:205-348 | the names registered from the library and the device get their positions as ids if and only if their specification does not end in `@` and no name has one but at its very end |
| ScorepPlugin.NicOnlyReadsUcxSums | src/scorep_plugin_ucx.h:192-209 | with UCX collection off and a non-empty snapshot the first NIC id reads a UCX sum |
| ScorepPlugin.ScorepPlugin.CurrentValueGet | src/scorep_plugin_ucx.h:143-212 | one read initialises lazily and dispatches as the run models say, with 0 before MPI is up |
| Renaming.TemporaryNameText | include/plugin_types.h:30-39 | a temporary name is the metric, an underscore, the template of 22 characters and 39 underscores, and the digits of the index, or of a tenth of it from 10^9 on |
| Renaming.SameTemporaryNameIff | include/plugin_types.h:35-39 | two temporary names of a metric are equal if and only if nine printed digits do not tell the indices apart |
| Renaming.TemporaryNamesDistinct | include/plugin_types.h:35-39 | they are distinct for indices below 10^9 |
| Renaming.TemporaryNamesCollide | include/plugin_types.h:35-39 | indices 10^8 and 10^9 get the same name |
| Renaming.StepLogsOnce | src/scorep_plugin_ucx.cpp:381-404 | a pass renames exactly the counters not yet renamed, in order, and marks them; without the callback it changes nothing |
| Renaming.LoggedByPass | src/scorep_plugin_ucx.cpp:365-403 | a pass asks to rename each counter not renamed yet from its temporary name to its own, for the metric, with 0 as the number |
| Renaming.RenamedExactlyOnce | src/scorep_plugin_ucx.cpp:381-404 | over any passes, list growth and value updates, log entry i renames counter i, and the marked counters are those in the log |
| Renaming.LoggedNamesDistinct | include/plugin_types.h:35-39 | the log's temporary names for one metric are pairwise distinct below index 10^9 |
| Renaming.RenamedExactlyOnceFromStart | src/scorep_plugin_ucx.cpp:381-404 | after a pass with the callback set the log has each counter of the list once, in ascending order, under temporary names that differ below index 10^9 |
| ScorepPlugin.ScorepPlugin.MetricRename | src/scorep_plugin_ucx.cpp:365-378 | one call of the rename function, with the temporary and the new name |
| ScorepPlugin.ScorepPlugin.CounterRename | src/scorep_plugin_ucx.cpp:397-402 | one round: renames the counter if it was not renamed yet, and marks it |
| ScorepPlugin.ScorepPlugin.CountersScorepUpdate | src/scorep_plugin_ucx.cpp:381-404 | one pass is one step of the run model, and nothing when the callback is not set |
| NumberText.DecimalInjective | include/plugin_types.h:37 | different indices are printed differently |
| CStrings.Fit | src/ucx_sampling.cpp:152-155 | `snprintf` keeps the longest prefix that fits the buffer with its NUL |

## Left out

- UCX, ethtool and MPI themselves: their answers are inputs. The aggregate API is taken to return at most the 64 sums it has room for and to write only those, and the device's table to keep its length.
- The wait for statistics packets (src/ucx_sampling.cpp:241-242): it is taken to end.
- UcxSampling.UcxSampling.ScanCountersList: requires a non-empty statistics list, because the code takes the head of the list without looking; the methods that read the list require it only when they scan.
- UcxSampling.UcxSampling.AggregateCounterGet: requires an index inside the array of 64 sums, which the code reads unchecked; its callers pass no other.
- RegistrationRaces.RunToldFromSchedule: a rank reads the file in one step, and rank 0 appends one name in one step.
- RegistrationRaces.OneListIff: a file that is there at the start and that rank 0 cannot read is covered by `RegistrationRaces.FinishedRank`, which gives each rank's list, and not by this condition.
- ScorepPlugin.ScorepPlugin.AddMetric: the id counter is static in the code and a field here, since there is one plugin object.
- UcxSampling.UcxSampling.RecursiveScanCountersList: the cursor and the object number are unbounded numbers here; 64 bits are enough for every tree that fits into memory. The 32-bit id is truncated as in the code.
- UcxSampling.UcxSampling.NicCounterValueGet: requires an index inside the device's table, which the code reads unchecked.
- UcxSampling.UcxSampling.NicCountersAggregate: requires at most 10240 counters of an initialised device, the size of the mapping, which the code does not check; the registering methods require it only when NIC counters are collected.
- Sums of NIC counters: the code builds names and a mapping, and no sums.
- Renaming.RenamedExactlyOnce: requires fewer than 2^32 counters, the range of the loop's index.
- Enumeration.AllRanksAgree: the count of a broadcast is an unbounded number here; MPI declares it as an `int`, so it speaks of the program only as long as the names take less than 2^31 bytes.
- The result of `current_value_get`, which its callers ignore and which is not set on every path.
- The number of counter names that the aggregate API reported or the file held (`m_aggrgt_sum_counter_names_size`): it is stored and never used for a decision.
- `to_lower`, which has no caller in the repository. Neither have `ucx_statistics_enumerate_legacy` and `ucx_counters_scorep_update`, which are modelled as they stand.
- Names containing NUL, failing allocations (an empty list asks `malloc` for 0 bytes), freeing memory, threads within one process.
- The constructor's environment variables, debug output, benchmark ticks and `get_info`.
