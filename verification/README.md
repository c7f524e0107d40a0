# A verified model of the P4Runtime agent

This project models the P4Runtime agent of the T4P4S switch and proves what it guarantees. The agent
keeps a map from P4 object ids to names, saves the pipeline configuration a controller pushes, turns
table inserts into control messages for the switch, reads counters and forwards digests. The switch
side is C code that a Python script generates from the table descriptions.

| file | models |
|---|---|
| `Parking.dfy` | linear probing without wrap-around as a parking function: closed forms for the taken slots and the number of losses |
| `IdMapSpec.dfy`, `IdMapTheorems.dfy`, `Buckets.dfy`, `IdMap.dfy` | the id map: its meaning over every history of adds, the theorems, and the array that is updated in place |
| `Messages.dfy` | the messages as plain data |
| `DigestMap.dfy` | the ordered digest map |
| `ConfigFile.dfy` | the temporary file with its cursor and the read-back in chunks |
| `DeviceSpec.dfy`, `DeviceMgr.dfy` | the agent as a state machine, and as an object whose methods are proved to take exactly those steps |
| `Runs.dfy`, `RunTheorems.dfy`, `RequestTheorems.dfy` | every run of the agent, and single requests |
| `Generator.dfy`, `GeneratorTheorems.dfy`, `Dispatcher.dfy` | the code generator, its output on a small machine and on arrays, and the generated dispatcher |
| `EndToEnd.dfy`, `Example.dfy` | from a write request to the call into the switch, for all requests and on concrete data |
| `Uint128.dfy`, `Uint128Print.dfy` | 128-bit arithmetic on two words, and its printing |
| `Basics.dfy` | options, fixed-width integers, byte strings |

Conventions. `None` in `DeviceSpec`, `Runs`, `Generator` and `Dispatcher` stands for undefined behaviour
of the original (a null pointer that is dereferenced, an access outside an array). The methods of
`DeviceMgr` require that it does not occur; the run theorems are about every run in which it did not
occur. `RunIsHistory` says from the history of requests alone when a run is free of it, and
`PushDefinedIff`, `InsertDefinedIff`, `ReadAnswers`, `IndexlessReadDefinedIff`, `IndexedRead`, `GeneratedDefinedIff` and `InsertOutcome` give the
exact condition for single operations. A run is any finite sequence of handled requests, each taken as one step.

Where the code departs from what one would expect of it, the model follows the code, a lemma states
the exact condition under which the expectation holds, and where useful another one names an input:

- A second push does not replace the meaning of an id, and an id whose first add found no slot never gets one:
  an id means what the current P4Info says exactly when that was added under it first and found a slot then
  (`AgreementIff`, `PushTakesHoldIff`, `SecondPushIgnored`, `FullBucket`). Pushing the same configuration again
  uses up new slots until adds fail (`RepushCapacity`, `RepushEventuallyFails`).
- A lookup of an id that was never added is not bounded by its bucket of four slots (`ProbeBound`,
  `LookupRunsOn`).
- A match of an unimplemented kind does not fail an insert when an exact or LPM match follows
  (`TableWriteOkIff`, `UnimplementedMatchMasked`).
- An insert that is accepted and called back need not be one the generated code can take: with a match missing or
  of another kind, or with a value that is too short, it reads memory that is not there (`InsertOutcome`,
  `RunInsertOutcome`, `MissingMatchCrashes`). Surplus matches do no harm.
- Nor need it reach the switch: the generated code drops it for an unknown table, an unknown action or a table
  of a kind without calls (the same two), and an action with a dotted name is always dropped
  (`DottedActionNeverReaches`).
- The field id of a match plays no role in the generated code, only its position does: a request with its
  matches in another order is taken with the values in the wrong fields (`SwappedSeparatedIff`,
  `SwappedMatchesMisplaced`).
- The depth of a mixed exact and LPM key counts exact fields in bytes (`DepthIsBitsIff`,
  `MixedDepthWrong`).
- Special key elements do not enter the key, and neither do bytes beyond the width of a field
  (`RequestsSeparatedIff`, `SpecialsDoNotSeparate`).
- VERIFY has the full effect of a commit and COMMIT has none (`PushActions`).
- Every stream that arbitrates for the right device is answered as master, so there is one master only if
  one stream alone ever does (`ToldMasterIff`, `SingleMasterIff`, `TwoMasters`).
- The digest write of any update type activates, and only the first name of an id is ever activated
  (`DigestSentExactlyWhenDue`).
- A counter index that is not negative is taken modulo 2^32 (`IndexedRead`).
- Printing a 128-bit number is canonical for exactly some stream formats (`CanonicalIffPlain`).

## Model

| member | source | states |
|---|---|---|
| Parking.Conservation | utils/map.c:24-43 | every add either takes one new slot or is lost |
| Parking.Occupancy | utils/map.c:24-43 | a slot is full exactly when some interval ending there was asked for at least as often as it has slots |
| Parking.LostIsLargestExcess | utils/map.c:24-43 | the number of failed adds is the largest excess of demand over room in a suffix of the table |
| Parking.Capacity | utils/map.c:24-43 | no add fails if and only if no suffix is asked for more slots than it has |
| Parking.OrderIndependence | utils/map.c:24-43 | reordering the adds changes neither the full slots nor the number of failures |
| IdMapSpec.FreeSlot | utils/map.c:26-30 | the slot an add takes is the first free one at or after the home |
| IdMapSpec.FindFrom | utils/map.c:8-20 | a lookup finds the first entry of the key that no free slot precedes |
| IdMapSpec.FindArg | utils/map.c:63-71 | an argument lookup finds the first argument with the id, and nothing only if none has it |
| IdMapTheorems.MapIsParking | utils/map.c:24-43 | the 4096-slot map with homes (key % 1024) * 4 is such a table |
| IdMapTheorems.MapCapacity | utils/map.c:24-43 | exact capacity of the map for every sequence of adds |
| IdMapTheorems.MapOccupancy | utils/map.c:24-43 | closed form of which slots of the map are full |
| IdMapTheorems.MapOrderIndependence | utils/map.c:24-43 | permuting the adds keeps full slots and failures |
| IdMapTheorems.AddSucceedsIff | utils/map.c:24-43 | an add succeeds exactly when some slot from its home on ends no interval that is asked for as often as it has slots |
| IdMapTheorems.AddsKeepReachable | utils/map.c:24-43 | every slot between the home of an entry and its own slot is full |
| IdMapTheorems.ResolveIsStable | utils/map.c:8-43 | no later add changes what an id resolves to |
| IdMapTheorems.FirstWriteWins | utils/map.c:8-43 | an id resolves to its earliest successful add, and to nothing exactly when there was none |
| IdMapTheorems.FailureIsFinal | utils/map.c:24-43 | once an add of a key failed all later adds of it fail |
| IdMapTheorems.FirstAddDecides | utils/map.c:8-43 | what an id resolves to is always the first element ever added under it |
| IdMapTheorems.EstablishedIff | utils/map.c:8-43 | an id resolves to an element exactly when that was added under it first and found a slot, whatever else failed |
| IdMapTheorems.FirstFoundIff | utils/map.c:24-43 | whether the first add of an id found a slot, from the ids added before it |
| IdMapTheorems.WithoutFailures | utils/map.c:8-43 | without failed adds every id resolves to the first element added under it |
| Buckets.BucketBound | utils/map.h:8-10 | with at most four adds per residue every add succeeds and every bucket is filled from its start by its own residue |
| Buckets.ProbeBound | utils/map.c:8-20 | added ids cost at most four probes; when exactly another one costs more than five, from the history of adds |
| Buckets.LookupRunsOn | utils/map.c:8-20 | a concrete history and key for which a lookup costs more than five probes |
| IdMap.IdMap.InitMap | utils/map.c:46-51 | leaves the empty map |
| IdMap.IdMap.GetElement | utils/map.c:8-20 | returns the element the lookup specification names, null when there is none |
| IdMap.IdMap.AddElement | utils/map.c:24-43 | adds at the first free slot and returns that element, or null and no change |
| IdMap.Element.PushArg | server/device_mgr.c:554-557 | appends one argument to an element |
| IdMap.Element.GetArgument | utils/map.c:63-71 | returns the first argument with the id |
| ConfigFile.ConfigFile.ChangeConfig | server/device_mgr.c:30-48 | the saved bytes become those of the configuration, or none without a temporary file |
| ConfigFile.ConfigFile.ReadConfig | server/device_mgr.c:50-80 | the chunks and the remainder append exactly the saved bytes, for any length and on every repetition |
| ConfigFile.TmpFile.Read | server/device_mgr.c:68-72 | a read of one item delivers the bytes at the cursor or reports a short file |
| DigestMap.LessIff | server/device_mgr.h:20-20 | the order of the map is the lexicographic order of names |
| DigestMap.FromDigestsIsDeclared | server/device_mgr.c:578-583 | after a push the map is sorted by name and holds the last declaration of every name, inactive |
| DigestMap.LeadingIsFirst | server/device_mgr.c:482-488 | the entry an activation picks is the one whose name is smallest among those of its id |
| DigestMap.ActivateAt | server/device_mgr.c:482-488 | what an activation does to each entry of the map |
| DeviceMgr.DeviceMgr.SetPipelineConfig | server/device_mgr.c:528-590 | takes exactly the set step of the state machine |
| DeviceMgr.DeviceMgr.AddTables | server/device_mgr.c:544-560 | loads the tables up to the first one that finds no slot |
| DeviceMgr.DeviceMgr.AddActions | server/device_mgr.c:561-572 | loads every action with its parameters |
| DeviceMgr.DeviceMgr.AddCounters | server/device_mgr.c:573-577 | adds every counter and ignores failures |
| DeviceMgr.DeviceMgr.GetPipelineConfig | server/device_mgr.c:592-613 | answers as the specification says and changes nothing but the file cursor |
| DeviceMgr.DeviceMgr.MatchRules | server/device_mgr.c:178-222 | the rules and the status of the loop over the matches |
| DeviceMgr.DeviceMgr.BuildMessage | server/device_mgr.c:147-252 | the status of an insert and the control message it builds |
| DeviceMgr.DeviceMgr.TableInsert | server/device_mgr.c:147-259 | calls back once with that message exactly when the status is OK |
| DeviceMgr.DeviceMgr.TableWrite | server/device_mgr.c:277-301 | status and effects by update type |
| DeviceMgr.DeviceMgr.ActivateDigest | server/device_mgr.c:480-489 | activates the first digest with the id and no other |
| DeviceMgr.DeviceMgr.Write | server/device_mgr.c:456-499 | takes exactly the write step, behind the gate of the handler |
| DeviceMgr.DeviceMgr.CounterRead | server/device_mgr.c:344-385 | appends the entries the specification names |
| DeviceMgr.DeviceMgr.ReadAll | server/device_mgr.c:516-524 | collects entries until an entity fails |
| DeviceMgr.DeviceMgr.Read | server/pi_server.cc:106-119 | refuses before the first push and otherwise answers OK with the entries |
| DeviceMgr.DeviceMgr.OnStream | server/pi_server.cc:153-186 | one stream message: the current stream, the reply and the status |
| DeviceMgr.DeviceMgr.StreamChannel | server/pi_server.cc:147-189 | all messages of a stream until one ends it |
| DeviceMgr.DeviceMgr.SendDigest | server/device_mgr.c:627-661 | writes a digest to the current stream exactly if its entry is active |
| Runs.LoadIsAdds | server/device_mgr.c:543-577 | loading a P4Info is a sequence of adds to the map |
| Runs.BatchActivates | server/device_mgr.c:467-496 | the activation of every digest after a batch |
| Runs.RunFollows | server/device_mgr.c:456-613 | in every run the whole state, device id and stream included, is the one the history of requests determines |
| Runs.StepIsHistory | server/device_mgr.c:456-661 | whether a step is defined and what it does to the outside, from the history |
| Runs.RunIsHistory | server/device_mgr.c:147-661 | the history alone determines whether a run is defined and, in order, every callback and every write to a stream |
| RunTheorems.SetGetAgreement | server/device_mgr.c:528-613 | every get answers with the latest accepted push, by response type, and is refused before the first |
| RunTheorems.GateOpensWithPush | server/pi_server.cc:93-145 | requests are refused for want of a configuration exactly until the first accepted push |
| RunTheorems.WriteAnswers | server/device_mgr.c:456-499 | the status of every write: refused before the first push, UNIMPLEMENTED for an atomicity other than CONTINUE_ON_ERROR, otherwise OK whatever its updates do |
| RunTheorems.ReadAnswers | server/pi_server.cc:106-119 | the answer of every read: after the first push OK with exactly the entries of the longest prefix of entities that succeed, and when exactly it is undefined |
| RunTheorems.StreamFollows | server/pi_server.cc:121-165 | the device id is the latest one set, and the stream that of the latest arbitration matching it |
| RunTheorems.DigestSentExactlyWhenDue | server/device_mgr.c:480-489 | a digest is sent if and only if the latest push declares it, leading its id, and that id was written since; under which id and to which stream |
| RunTheorems.PushSilencesDigests | server/device_mgr.c:578-583 | after an accepted push the agent sends no digest under any name |
| RunTheorems.ToldMasterIff | server/pi_server.cc:66-88 | over every run, a stream is told it is master if and only if it arbitrated with the device id of that time |
| RunTheorems.SingleMasterIff | server/pi_server.cc:153-165 | at most one stream is told so exactly when all such arbitrations came from one stream |
| RunTheorems.NoCallbackBeforePush | server/pi_server.cc:93-104 | the switch is never called before the first accepted push |
| RunTheorems.BindingsAreDeclared | server/device_mgr.c:543-577 | what a P4Info binds, field by field and in order: tables with match fields, actions with parameters, counters |
| RunTheorems.IdsAreStable | server/device_mgr.c:537-577 | once an id resolves, no later request changes it |
| RunTheorems.RunFirstWriteWins | server/device_mgr.c:543-577 | in every run an id resolves to its earliest successful add |
| RunTheorems.RunCapacity | server/device_mgr.c:543-577 | when exactly no add has failed in a run, from the bindings pushed |
| RunTheorems.AgreementIff | server/device_mgr.c:537-577 | in every run, failed adds included, when exactly the id map agrees with the current P4Info |
| RunTheorems.AgreesIffMeansDeclared | server/device_mgr.c:543-577 | agreement in terms of the message: every id resolves to its declared name and its declared fields or parameters |
| RunTheorems.AgreementWithoutFailures | server/device_mgr.c:537-577 | the corollary while no add has failed: when exactly, from the bindings pushed |
| RunTheorems.AgreementOverRuns | server/device_mgr.c:537-577 | it agrees in every reachable state while no id changes meaning and no add fails |
| RunTheorems.PushTakesHoldIff | server/device_mgr.c:543-577 | for every defined push, on any map, when exactly it takes hold, from the adds before it and those it attempts |
| RunTheorems.PushTakesHoldWithoutFailures | server/device_mgr.c:543-577 | the corollary for a push without failed adds: when exactly, judged by what the ids resolve to before it |
| RunTheorems.SecondPushIgnored | server/device_mgr.c:544-551 | a concrete pair of tables of which the second is never visible |
| RunTheorems.FullBucket | utils/map.c:24-43 | concrete adds of which one fails and the id still resolves, and another fails and its id never does |
| RunTheorems.TablesDefinedIff | server/device_mgr.c:544-560 | when exactly the tables of a push load without undefined behaviour |
| RunTheorems.ActionsDefinedIff | server/device_mgr.c:561-572 | when exactly the actions of a push do |
| RunTheorems.PushDefinedIff | server/device_mgr.c:543-577 | when exactly a push as a whole does |
| RunTheorems.OneTableDefinedIff | utils/map.h:13-25 | the limits of an element: at most ten arguments, with names of at most 49 characters |
| RunTheorems.PushLoads | server/device_mgr.c:543-577 | a push whose arguments fit and whose adds all succeed goes through and binds everything it declares |
| RunTheorems.FirstPushIsFaithful | server/device_mgr.c:543-577 | after a first push with distinct ids every id resolves to its declared name and arguments |
| RunTheorems.FirstPushOnFields | server/device_mgr.c:543-577 | the same on the fields of the message: id, name and match fields, parameters or nothing, for every table, action and counter |
| RunTheorems.FirstPushFindsArguments | server/device_mgr.c:552-571 | every match field and parameter whose id is not declared twice is then found with its declared name and bit width |
| RunTheorems.ArgumentsResolve | utils/map.c:63-71 | arguments with distinct ids are found under their ids |
| RunTheorems.RepushCapacity | server/device_mgr.c:543-577 | how often exactly the same configuration can be pushed |
| RunTheorems.RepushEventuallyFails | server/device_mgr.c:543-577 | not for ever |
| RequestTheorems.PushActions | server/device_mgr.c:532-589 | which actions have the same effect and which have none |
| RequestTheorems.RuleRoundTrip | server/device_mgr.c:91-123 | kind, value, mask and prefix length of an implemented match can be read back from its rule, under the declared name and bit width |
| RequestTheorems.MatchStatusIff | server/device_mgr.c:184-221 | when exactly unimplemented matches leave the status OK |
| RequestTheorems.CallbackIffOk | server/device_mgr.c:254-301 | the callback fires once exactly when the status of the table write is OK |
| RequestTheorems.TableWriteOkIff | server/device_mgr.c:228-301 | when exactly a table write is OK |
| RequestTheorems.TableWriteErrors | server/device_mgr.c:230-301 | which error a table write answers, exactly when |
| RequestTheorems.TypeParamInHostOrder | server/device_mgr.c:125-145 | the two-byte parameter called type ends up in host order, the others as sent |
| RequestTheorems.UnimplementedMatchMasked | server/device_mgr.c:147-256 | a concrete insert that is OK and whose message lacks the unimplemented match |
| RequestTheorems.RulesFollowMatches | server/device_mgr.c:178-222 | rule i comes from the i-th implemented match, and there are no others |
| RequestTheorems.ParamsFollow | server/device_mgr.c:125-145 | parameter i of the message carries declared name, declared bit width and value of parameter i of the request |
| RequestTheorems.InsertDefinedIff | server/device_mgr.c:171-246 | when exactly an insert is free of undefined behaviour, from what the map declares |
| RequestTheorems.OtherUpdatesQuiet | server/device_mgr.c:467-496 | only table inserts can be undefined or call back, and only digest entries touch the digests |
| RequestTheorems.BatchesCompose | server/device_mgr.c:456-499 | writing a + b is writing a then b, in state, effects, status and definedness |
| RequestTheorems.BatchCallbacks | server/device_mgr.c:456-499 | a batch calls back once per table write that is OK and does nothing else outside |
| RequestTheorems.ReadLongestPrefix | server/device_mgr.c:501-524 | the response is the concatenation of the counter reads over the longest prefix of entities that succeed, an entity that is no counter ends it, and when exactly the read is undefined |
| RequestTheorems.CounterRefusedIff | server/device_mgr.c:344-359 | a counter read is refused exactly when neither lookup delivers a counter, and undefined for an id that does not resolve |
| RequestTheorems.IndexlessRead | server/device_mgr.c:376-382 | one entry per index, in order, with the values of that index, also when one kind has no cells |
| RequestTheorems.IndexlessReadDefinedIff | server/device_mgr.c:333-342 | when exactly such a read stays inside the cells, for any numbers of byte and packet cells |
| RequestTheorems.IndexedRead | server/device_mgr.c:360-372 | a read with an index uses it modulo 2^32, defined exactly when that is a cell of every kind there is; a negative one is UNKNOWN |
| RequestTheorems.StreamServed | server/pi_server.cc:151-188 | a stream is served up to its first arbitration for another device, each earlier one answered |
| RequestTheorems.TwoMasters | server/pi_server.cc:66-88 | the witness: two streams are both told they are master |
| Generator.WidthIsLeast | t4p4s_mod/src/hardware_indep/controlplane.c.py:50-55 | the byte width of a field is the least that holds its bits, and none for a special or a field of variable width |
| Generator.NamesSeparate | t4p4s_mod/src/hardware_indep/controlplane.c.py:72-82 | fields of one name are told apart by their headers, and fields of one header by their names |
| Generator.NamesAreInjective | t4p4s_mod/src/hardware_indep/controlplane.c.py:72-82 | where header names have no underscore, different fields have different C names |
| Generator.GeneratorFailsIff | t4p4s_mod/src/hardware_indep/controlplane.c.py:15-21 | generation fails exactly on an element of an unknown match type, specials included |
| Generator.SortIsPartition | t4p4s_mod/src/hardware_indep/controlplane.c.py:15-21 | the stable sort puts exact, then LPM, then ternary elements, each in table order |
| Generator.EmitCopies | t4p4s_mod/src/hardware_indep/controlplane.c.py:92-105 | the loop emits the copies of the sorted fields and its byte index ends at their total width |
| Generator.EmitPrefix | t4p4s_mod/src/hardware_indep/controlplane.c.py:107-117 | the loop emits the prefix length statements of the exact and LPM fields |
| Generator.EmitAdd | t4p4s_mod/src/hardware_indep/controlplane.c.py:85-124 | the emission yields the specified program, or fails exactly on an unknown match type |
| Generator.ReverseKey | t4p4s_mod/src/hardware_indep/controlplane.c.py:118-120 | the two loops reverse the key in place whatever the shared buffer held |
| Generator.Execute | t4p4s_mod/src/hardware_indep/controlplane.c.py:85-124 | the emitted code on arrays does what it does on sequences |
| GeneratorTheorems.CopiesRun | t4p4s_mod/src/hardware_indep/controlplane.c.py:92-105 | the copies fill the key contiguously and stay inside it exactly when the widths fit |
| GeneratorTheorems.PrefixRun | t4p4s_mod/src/hardware_indep/controlplane.c.py:108-117 | the prefix counter ends at the sum, modulo 256 |
| GeneratorTheorems.ReverseTwice | t4p4s_mod/src/hardware_indep/controlplane.c.py:119-120 | reversing twice is the identity |
| GeneratorTheorems.SortedConcat | t4p4s_mod/src/hardware_indep/controlplane.c.py:92-105 | the sorted concatenation is the exact, LPM and ternary fields, as long as the total width |
| GeneratorTheorems.GeneratedAdd | t4p4s_mod/src/hardware_indep/controlplane.c.py:85-124 | generator correctness: safe exactly when the widths fit, and then exactly the calls asked for |
| GeneratorTheorems.GeneratedDefinedIff | t4p4s_mod/src/hardware_indep/controlplane.c.py:85-124 | the emitted code stays inside its memory exactly when every field is supplied with enough bytes and the widths fit |
| GeneratorTheorems.KeyIsInjective | t4p4s_mod/src/hardware_indep/controlplane.c.py:92-105 | different fields give different keys |
| GeneratorTheorems.ReversedKeyIsInjective | t4p4s_mod/src/hardware_indep/controlplane.c.py:118-121 | also after the reversal for LPM |
| Dispatcher.LastSegmentAfterDot | t4p4s_mod/src/hardware_indep/controlplane.c.py:136-138 | the action name is what follows the last dot |
| Dispatcher.FindTable | t4p4s_mod/src/hardware_indep/controlplane.c.py:221-228 | the dispatcher picks the first table of the name |
| Dispatcher.FindAction | t4p4s_mod/src/hardware_indep/controlplane.c.py:162-199 | the chain of comparisons picks the first action of the name |
| Dispatcher.BindFieldsIff | t4p4s_mod/src/hardware_indep/controlplane.c.py:143-160 | the field pointers can be set up exactly when every field has a rule of its kind at its position |
| Dispatcher.ParamWidthIsLeast | t4p4s_mod/src/hardware_indep/controlplane.c.py:178-178 | the bytes copied for a parameter are the fewest that hold its bits |
| Dispatcher.CopyParamsIff | t4p4s_mod/src/hardware_indep/controlplane.c.py:169-178 | the parameters can be copied exactly when there are enough of them and each is wide enough, and then each is copied from its position |
| Dispatcher.AddEntryDefinedIff | t4p4s_mod/src/hardware_indep/controlplane.c.py:141-200 | when exactly the generated code stays inside its memory for a message, and how many calls it makes then |
| Dispatcher.ShortKeyShowsJunk | t4p4s_mod/src/hardware_indep/controlplane.c.py:89-124 | a key longer than its fields is handed over with whatever the stack held behind them |
| Dispatcher.RecvCallsNamedTable | t4p4s_mod/src/hardware_indep/controlplane.c.py:221-260 | every message leads to at most one call, on the table it names, of the sort it asks for, with the action it names |
| Dispatcher.MaxKeyBytes | t4p4s_mod/src/hardware_indep/controlplane.c.py:45-47 | the shared buffer is as long as the widest key, no longer and no shorter |
| Dispatcher.RunGeneratedAdd | t4p4s_mod/src/hardware_indep/controlplane.c.py:85-124 | generating and running the code on arrays makes exactly the calls asked for |
| EndToEnd.FieldsAreBound | t4p4s_mod/src/hardware_indep/controlplane.c.py:143-160 | the field pointers lead to the values of the request, by position |
| EndToEnd.ParamsAreCopied | t4p4s_mod/src/hardware_indep/controlplane.c.py:169-178 | the action structure holds the parameters of the request |
| EndToEnd.InsertPromotesOnce | t4p4s_mod/src/hardware_indep/controlplane.c.py:141-260 | a fitting insert leads to exactly one call for an exact or LPM table, on that table, with the sorted values and the depth of the request, and to none for a table of another kind |
| EndToEnd.InsertOutcome | t4p4s_mod/src/hardware_indep/controlplane.c.py:141-260 | for every accepted insert, when exactly the generated code stays inside its memory, and then one call if the switch has its table, of a kind with calls, and its action, and otherwise none |
| EndToEnd.MissingMatchCrashes | t4p4s_mod/src/hardware_indep/controlplane.c.py:143-160 | a concrete insert that is OK and called back, and that the generated code cannot take |
| EndToEnd.DottedActionNeverReaches | t4p4s_mod/src/hardware_indep/controlplane.c.py:136-138 | an action whose P4Info name has a dot is always dropped |
| EndToEnd.DepthIsBitsIff | t4p4s_mod/src/hardware_indep/controlplane.c.py:107-117 | when exactly the depth of a request is its number of significant bits: for prefix lengths that do not add up to a negative number, only without exact bytes |
| EndToEnd.MixedDepthWrong | t4p4s_mod/src/hardware_indep/controlplane.c.py:107-121 | a concrete mixed table and request that is handed over with depth 9 instead of 16 |
| EndToEnd.RequestsSeparatedIff | t4p4s_mod/src/hardware_indep/controlplane.c.py:92-124 | when exactly two requests for a table lead to the same calls |
| EndToEnd.SwappedSeparatedIff | t4p4s_mod/src/hardware_indep/controlplane.c.py:143-160 | exchanging the matches of two alike fields is never noticed, and when exactly it leads to the same calls |
| EndToEnd.SwappedMatchesMisplaced | t4p4s_mod/src/hardware_indep/controlplane.c.py:143-160 | a concrete request whose two values end up in each other's field |
| EndToEnd.SingleLpmKey | t4p4s_mod/src/hardware_indep/controlplane.c.py:107-121 | for a single LPM key the call carries the reversed value and the prefix length |
| EndToEnd.SpecialsDoNotSeparate | t4p4s_mod/src/hardware_indep/controlplane.c.py:94-97 | requests that differ in a special key element lead to the same call |
| EndToEnd.DefaultActionIsSet | t4p4s_mod/src/hardware_indep/controlplane.c.py:202-242 | a default action is set and no entry added |
| EndToEnd.UnknownActionIsDropped | t4p4s_mod/src/hardware_indep/controlplane.c.py:198-199 | an insert whose action the table lacks is called back and then dropped |
| EndToEnd.RunInsertPromotesOnce | server/device_mgr.c:147-259 | end to end after any run that left the request's own two ids as the latest P4Info declares them: what is called, and one call exactly for an exact or LPM table |
| EndToEnd.RunInsertOutcome | server/device_mgr.c:147-259 | after any such run, whether the generated code can take an insert the latest P4Info covers, and whether it reaches the switch |
| EndToEnd.StableIdsEstablished | server/device_mgr.c:537-577 | while no add fails and no id changes meaning, every run is such a run for everything the latest P4Info declares |
| Example.InsertReachesSwitch | server/device_mgr.c:147-259 | on concrete data, from a fresh agent to the call: two fields of one name in two headers keep their values, and a nine-bit parameter both its bytes |
| Uint128.Uint128.AddAssign | server/uint128.h:40-46 | addition modulo 2^128, also with itself |
| Uint128.Uint128.SubAssign | server/uint128.h:59-65 | subtraction modulo 2^128, also with itself |
| Uint128.Uint128.Increment | server/uint128.h:48-51 | adds one modulo 2^128 |
| Uint128.Uint128.PostIncrement | server/uint128.h:53-57 | adds one and returns the value before |
| Uint128.Uint128.Decrement | server/uint128.h:67-70 | subtracts one modulo 2^128 |
| Uint128.Uint128.PostDecrement | server/uint128.h:72-76 | subtracts one and returns the value before |
| Uint128.AddLimbs | server/uint128.h:40-46 | the carry is detected by the low sum having wrapped |
| Uint128.SubLimbs | server/uint128.h:59-65 | the borrow is detected by the low difference having wrapped |
| Uint128.SubUndoesAdd | server/uint128.h:40-65 | addition and subtraction undo each other |
| Uint128.Equal | server/uint128.h:78-80 | equality of the numbers |
| Uint128.NotEqual | server/uint128.h:82-84 | inequality of the numbers |
| Uint128.Less | server/uint128.h:86-88 | the integer order |
| Uint128.LessOrEqual | server/uint128.h:90-92 | the integer order |
| Uint128.Greater | server/uint128.h:94-96 | the integer order |
| Uint128.GreaterOrEqual | server/uint128.h:98-100 | the integer order |
| Uint128Print.Print | server/uint128.cpp:45-53 | what is printed under any stream format, and that the format is restored |
| Uint128Print.PrintsCanonically | server/uint128.cpp:45-53 | under plain formats the output is the shortest hexadecimal numeral of the number |
| Uint128Print.CanonicalIffPlain | server/uint128.cpp:45-53 | exactly the plain formats print every number canonically |
| Uint128Print.PaddedFills | server/uint128.cpp:45-53 | under any format a field takes the width it must, adjusted and filled as the stream says |
| Uint128Print.BaseIsIgnored | server/uint128.cpp:45-53 | the base the stream was set to plays no role |
| Uint128Print.ShowBaseRepeatsPrefix | server/uint128.cpp:45-53 | a stream that shows bases prints the prefix twice, in its own case, except for zero |
| Uint128Print.PrintParses | server/uint128.cpp:45-53 | the digits printed parse to the number |
| Uint128Print.PrintIsInjective | server/uint128.cpp:45-53 | different numbers print differently |

## Left out

- Concurrency: the handlers share their state without locks; a run takes each request as one step.
- Transport, server start and shutdown, logging and memory management, `destroy_map` included.
- A stream that has been closed stays the current one in the original; writing to it is not modelled.
- Failing writes, seeks and short reads of the temporary file; only its creation may fail.
- Names are taken without embedded zero characters, at which the original cuts them off.
- The capacity of the match, parameter and value arrays of a control message: `messages.h` is not part of this model. A prefix length passes through a field of it that is taken to be at least a byte wide.
- The backend behind the promote calls: each call is an event with its arguments.
- A host of little-endian byte order is assumed where the original swaps the bytes of the parameter called `type`.
- The payload, time stamp and list id of a digest: only its digest id, and the stream it goes to, are modelled.
- Metadata keys of the generator, whose sizes the original leaves open, and tables without keys.
- Ternary key elements in the dispatcher: the original reads them through the LPM structure, which is taken as undefined; no call is emitted for ternary tables.
- Key elements with clashing parameter names (`NamesCanClash`): the generated code would not compile. The end-to-end results require distinct names.
- Uint128Print.CanonicalIffPlain: the stream's locale, whose digit grouping also changes what is printed, is not part of the format; this row and the others about printing are about a stream without grouping.
- How the compiler front end computes the key length of a table. What a call carries is stated for a key as long as its fields together; `GeneratedAdd`, `ShortKeyShowsJunk` and `InsertOutcome` cover every other length too.
- Byte widths use the integer division of Python 2.
- `table_modify`, `table_delete`, `counter_write` and `direct_counter_write` beyond their status, which is constant or ignored.
- The inline argument array of an element is a field holding a sequence of ten cells, which nothing else can alias.
