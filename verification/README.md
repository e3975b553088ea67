# The ROS 2 layer of hdds, verified

A Dafny model of the middleware layer that puts ROS 2 on top of the hdds DDS core: the C layer
`rmw_hdds`, the handle registry and reader call of the C bindings (`crates/hdds-c`), and the packet
walkers of the discovery validator. `dafny verify dfyconfig.toml` checks the whole project.

What is modelled, and what is proved about it:

- **Service calls.** Clients stamp requests with a 24-byte header of guid and sequence number;
  services echo it. Over every run of any number of clients and services, on topics that lose,
  duplicate and reorder, each header a client takes back is that of exactly one earlier request.
  Whether it is the client's *own* request is not checked by the code: the exact condition, on what
  lies on the client's topics before the call, is proved.
- **Service names, service list, availability.** Topic names are injective and decodable, type names
  invert joining exactly under a stated condition, collecting endpoints lists every service once.
  Over every run of create and destroy calls, failed ones included, a service is reported available
  exactly when a live one has its name, under a condition on the creations that is proved exact.
- **Life cycle of services and clients.** Whatever call fails, creating a client gives everything
  back; creating a service loses a QoS object in exactly one case. Over any sequence of create and
  destroy calls the ledger balances.
- **Waiting.** When a wait succeeds, which slots survive it and how often callbacks fire; every way out of a wait
  detaches and frees what it took, except one argument error, and what that error does to later
  waits; two waits in a row show that the shared-memory shortcut disturbs no later wait.
- **Handle registry.** Interleaved acquisition and release of reference-counted handles, with surplus
  releases, never miscounts.
- **Taking samples and filtering them.** The grow-and-retry loop over a consuming take, the filter
  language (the parser accepts exactly its grammar), the evaluator (it is plain comparison), the
  state that setting a filter leaves, and the agreement of the two kinds of take: together they
  surface exactly the queued samples of which the operator and parameter of the last expression set,
  read from their characters, are true.
- **Graph snapshots.** Count and fill over a moving graph: success is one whole view of it, failure
  leaves nothing behind. For topics the version does not cover what discovery adds; the condition
  under which both passes saw the same is exact.
- **QoS compatibility and durations**, **RTPS walkers**: the verdict over the profile fields and its monotonicity,
  saturating arithmetic without overflow, tilings and round trips on arbitrary bytes.

Several promises one might expect do not hold of the code. They are kept as results, each with
the condition under which the promise does hold: `MayTakeForeignIff`, `AlwaysRightIffCounted`,
`CountsRightIffNone`, `CreateService`, `Wait`, `GuardsAloneNeverSucceed`, `DeliverIndexIff`,
`VerdictsAgreeIff`, `CollectedIsView`, `NoWorseIff`, `DemangleInvertsJoinIff`, `CountRoundTrip`,
`LessIsShorterIff`.

Allocators, native calls, the network, shared memory and decoders are parameters: booleans, sets of
failing positions, or functions that say what each call answers. Nothing is assumed of them beyond
what a member's contract states.

## Model

| member | source | states |
|---|---|---|
| RequestIdCodec.EncodeI64Le | rmw_hdds/src/rmw_stubs.c:746-753 | the shifting loop writes the little-endian bytes of the two's complement of the number |
| RequestIdCodec.DecodeI64Le | rmw_hdds/src/rmw_stubs.c:755-763 | the accumulating loop reads the signed number back from any eight bytes |
| RequestIdCodec.SequenceRoundTrip | rmw_hdds/src/rmw_stubs.c:746-763 | decoding inverts encoding for every 64-bit sequence number |
| RequestIdCodec.EncodeRequestId | rmw_hdds/src/rmw_stubs.c:765-773 | the header is guid then sequence, 24 bytes, and nothing else of the buffer moves |
| RequestIdCodec.DecodeRequestId | rmw_hdds/src/rmw_stubs.c:775-797 | a header is accepted only with a nonzero guid and a positive sequence, and then read exactly |
| RequestIdCodec.DecodeIffEncoded | rmw_hdds/src/rmw_stubs.c:765-797 | bytes decode to an id if and only if they start with its encoding and the id is acceptable |
| RequestIdCodec.DecodeStamped | rmw_hdds/src/rmw_stubs.c:765-797 | a stamped message decodes to its stamp whatever follows |
| RequestIdCodec.HeaderNumber | rmw_hdds/src/rmw_stubs.c:746-773 | the first sixteen header bytes are the guid, and the last eight read as an unsigned number are the sequence, or 2^64 more than a negative one |
| ServiceEndpoints.StampMessage | rmw_hdds/src/rmw_stubs.c:2578-2633 | the payload is serialized behind the header, growing the buffer once; how it ends for every answer of allocator and serializer |
| ServiceEndpoints.StampOkIff | rmw_hdds/src/rmw_stubs.c:2578-2633 | stamping succeeds exactly when the message can be serialized and the memory can be had, the larger buffer only for a payload over 1024 bytes; a serializer error is reported only when there was memory |
| ServiceEndpoints.ClientImpl.SendRequest | rmw_hdds/src/rmw_stubs.c:2542-2646 | the call stamps the next sequence number, or 1 in place of 0, and advances past it whatever happens after; it succeeds exactly when the memory, the serializer and the writer serve it, and then writes header plus payload |
| ServiceEndpoints.TakeHeader | rmw_hdds/src/rmw_stubs.c:2286-2412 | unless the reader or allocator fails, the first deliverable sample is consumed and its header returned exactly when header and payload decode; with no such sample the call succeeds empty |
| ServiceEndpoints.SendResponse | rmw_hdds/src/rmw_stubs.c:2648-2758 | exactly a sequence that is not positive or an all-zero guid is refused; otherwise it succeeds exactly when the memory, the serializer and the writer serve it, and what is written decodes to the header given |
| ServiceEndpoints.StoredGuid | rmw_hdds/src/rmw_stubs.c:3815-3823 | the guid stored at creation is a writer guid of its counter value |
| ServiceProtocol.SentUnique | rmw_hdds/src/rmw_stubs.c:2542-2646 | in every reachable state no two requests carry the same guid and sequence |
| ServiceProtocol.HeaderIsKnown | rmw_hdds/src/rmw_stubs.c:2414-2540 | a header that decodes from any message on a response topic was stamped on a request before |
| ServiceProtocol.NextKeepsInv | rmw_hdds/src/rmw_stubs.c:2286-2758 | every step of the protocol, with loss, duplication and reordering, keeps the invariant |
| ServiceProtocol.RunKeepsInv | rmw_hdds/src/rmw_stubs.c:2286-2758 | so does every run |
| ServiceProtocol.EveryResponseHasOneRequest | rmw_hdds/src/rmw_stubs.c:2414-2540 | every header returned to a client is the guid and sequence of exactly one earlier request, to that service |
| ServiceOwnership.OwnUnlessOthersSent | rmw_hdds/src/rmw_stubs.c:2414-2540 | in every run in which no other client of the service has sent a request, every header returned to a client is one of its own requests |
| ServiceOwnership.MayTakeForeignIff | rmw_hdds/src/rmw_stubs.c:2501-2538 | without further requests of others, some continuation hands a live client a foreign response if and only if a foreign header lies on one of its two topics |
| ServiceOwnership.ForeignWasSent | rmw_hdds/src/rmw_stubs.c:2542-2646 | such a header was stamped by another client of the same service |
| ServiceProtocol.ForeignResponse | rmw_hdds/src/rmw_stubs.c:2501-2538 | a run in which a client takes the response to another client's request |
| ServiceNames.NameFromTopicIff | rmw_hdds/src/rmw_stubs.c:1041-1068 | exactly which topics decode to a name: its own, and for a rooted name one unrooted spelling |
| ServiceNames.TopicRoundTrip | rmw_hdds/src/rmw_stubs.c:897-930 | decoding inverts encoding for every name and never accepts the other direction |
| ServiceNames.TopicInjective | rmw_hdds/src/rmw_stubs.c:897-930 | different services or directions never share a topic |
| ServiceNames.DemangleInvertsJoinIff | rmw_hdds/src/rmw_stubs.c:817-833 | replacing double underscores inverts joining with them if and only if no component holds one and none but the last ends in an underscore |
| ServiceNames.TypeNameOfJoined | rmw_hdds/src/rmw_stubs.c:799-843 | the type shown for members of a joined namespace is the slash path of its components |
| ServiceNames.DemangleInto | rmw_hdds/src/rmw_stubs.c:821-830 | the copying loop stays within the length of the namespace and writes its demangling |
| ServiceNames.ExtractTypeName | rmw_hdds/src/rmw_stubs.c:799-843 | every write stays inside the buffer sized beforehand, and the text is the type name, terminated |
| ServiceNames.StripSuffixIff | rmw_hdds/src/rmw_stubs.c:845-895 | a suffix is removed exactly from the names that end in it after their last separator |
| ServiceNames.ServiceTypeIff | rmw_hdds/src/rmw_stubs.c:845-895 | request and response types of a service give that service type, and nothing else does |
| ServiceList.List.Grow | rmw_hdds/src/rmw_stubs.c:1141-1165 | doubling the array keeps its contents |
| ServiceList.List.Add | rmw_hdds/src/rmw_stubs.c:1118-1187 | a new name goes last, a known one gains a missing type, a failed allocation changes nothing |
| ServiceList.List.Collect | rmw_hdds/src/rmw_stubs.c:1245-1290 | the list is the collection of the visited endpoints; a failure stops it at a prefix |
| ServiceList.CollectedExact | rmw_hdds/src/rmw_stubs.c:1118-1187 | whatever is visited, each name is listed once, in first-seen order, with its first known type |
| ServiceList.CollectServices | rmw_hdds/src/rmw_stubs.c:1245-1277 | visiting service endpoints in any order lists exactly the visited services, each with its own type unless no copy of it was kept |
| ServiceGraph.CountTopic | rmw_hdds/src/rmw_stubs.c:666-686 | the visitor finds the count of the topic in whatever order topics are visited |
| ServiceGraph.IsAvailable | rmw_hdds/src/rmw_stubs.c:3921-3986 | the answer is a reader on the request topic and a writer on the response topic, from two visits |
| ServiceGraph.RunKeepsServices | rmw_hdds/src/rmw_stubs.c:2852-3379 | along every run of countable creations, each live service is counted once on both topics of its name, failed creations leaving no trace |
| ServiceGraph.RunKeepsClients | rmw_hdds/src/rmw_stubs.c:3381-3919 | the same for clients, at the opposite ends |
| ServiceGraph.AvailableIffLive | rmw_hdds/src/rmw_stubs.c:3921-3986 | a service is available if and only if a live local or discovered remote service has the client's exact name |
| ServiceGraph.AlwaysRightIffCounted | rmw_hdds/src/rmw_stubs.c:2922-2982 | availability is right all along a run if and only if every service was created with introspection or on topics bound before |
| ServiceGraph.UncountedIsInvisible | rmw_hdds/src/rmw_stubs.c:2922-2982 | a service created otherwise makes the answer wrong at once |
| ServiceGraph.SpellsIff | rmw_hdds/src/rmw_stubs.c:5302-5311 | exactly which names lead the service and client counts to some service topic |
| ServiceGraph.CountsAreZero | rmw_hdds/src/rmw_stubs.c:5280-5380 | the counts ask for another topic than services use, so they are zero in every run for every name that does not spell some service topic |
| ServiceGraph.CountsRightIffNone | rmw_hdds/src/rmw_stubs.c:5280-5380 | for every such name they are right if and only if there is nothing to count |
| ServiceGraph.CountsOfTopic | rmw_hdds/src/rmw_stubs.c:5280-5380 | for every other name they are the counts of the service whose topic it spells, with the roles swapped on request topics |
| EndpointLifecycle.CreateTypes | rmw_hdds/src/rmw_stubs.c:3434-3512 | topics and type supports: all of them, or the ledger as before |
| EndpointLifecycle.CreateClientEnds | rmw_hdds/src/rmw_stubs.c:3514-3597 | writer, reader and attachment, with the QoS given back on every path |
| EndpointLifecycle.CreateServiceEnds | rmw_hdds/src/rmw_stubs.c:2984-3066 | reader, attachment and writer; the QoS is lost exactly when the attachment fails |
| EndpointLifecycle.Register | rmw_hdds/src/rmw_stubs.c:3599-3669 | both endpoints are registered or neither |
| EndpointLifecycle.AllocateBodies | rmw_hdds/src/rmw_stubs.c:3672-3793 | the three last allocations: all or none |
| EndpointLifecycle.EveryNeededCallCounts | rmw_hdds/src/rmw_stubs.c:3381-3830 | from success, failing any one of topics, endpoints, attachment and bodies gives failure; failing the QoS or a type name does not |
| EndpointLifecycle.EveryTypeCallCounts | rmw_hdds/src/rmw_stubs.c:3434-3669 | failing any one of type supports, bindings and registrations gives failure exactly with introspection |
| EndpointLifecycle.NothingElseFails | rmw_hdds/src/rmw_stubs.c:2984-3066 | when all of these answer well creation succeeds; for a service the QoS is lost exactly when there is one, the reader was created and the attachment alone fails |
| EndpointLifecycle.CreateClient | rmw_hdds/src/rmw_stubs.c:3381-3830 | it succeeds exactly when every call it needs does; a failure leaves the ledger unchanged, a success adds exactly what the client owns |
| EndpointLifecycle.CreateService | rmw_hdds/src/rmw_stubs.c:2852-3284 | the same, except that exactly a failed attachment with a QoS at hand leaves that QoS behind |
| EndpointLifecycle.Destroy | rmw_hdds/src/rmw_stubs.c:3832-3919 | with a live context all that is owned is released, each once; without one only the memory |
| EndpointLifecycle.Process | rmw_hdds/src/rmw_stubs.c:2852-3919 | after any sequence of create and destroy calls the ledger is what it was, plus what live objects own, plus one QoS per failed service attachment |
| WaitReady.MarkFirst | rmw_hdds/src/rmw_wait.c:592-600 | the inner loop marks the first slot of a reader and counts it once |
| WaitReady.Match | rmw_hdds/src/rmw_wait.c:589-620 | the three bitmaps mark exactly the reported slots, and the ready length is their number, even when readers repeat |
| WaitReady.CallBack | rmw_hdds/src/rmw_wait.c:622-661 | each triggered slot with a callback is called back exactly once |
| WaitReady.NullOut | rmw_hdds/src/rmw_wait.c:673-693 | the other slots are nulled in place and nothing else changes |
| WaitReady.SurvivesIffReady | rmw_hdds/src/rmw_wait.c:589-693 | a slot survives if and only if its reader is ready and no lower slot has the same reader |
| WaitReady.ReportedOnce | rmw_hdds/src/rmw_wait.c:589-620 | every ready reader that a slot has is reported by exactly one slot |
| WaitSet.Detach | rmw_hdds/src/rmw_wait.c:116-129 | exactly the collected keys are detached |
| WaitSet.Attach | rmw_hdds/src/rmw_wait.c:281-324 | all guards are attached, or none and the key array is freed |
| WaitSet.AllocateScratch | rmw_hdds/src/rmw_wait.c:351-446 | the reader arrays: all that are needed, or the ledger as before |
| WaitSet.AllocateBitmaps | rmw_hdds/src/rmw_wait.c:556-588 | the trigger bitmaps: all that are needed, or the ledger as before |
| WaitSet.CheckShm | rmw_hdds/src/rmw_wait.c:456-482 | shared memory is found exactly for the subscriptions with data, if the bitmap could be had |
| WaitSet.FilterGuards | rmw_hdds/src/rmw_wait.c:716-732 | exactly the triggered guard conditions remain |
| WaitSet.Block | rmw_hdds/src/rmw_wait.c:526-748 | what the blocking path reports, slot by slot as `WhatIsReported` states it, that each reported slot with a callback is called back once, and that the graph guard is reset only when the graph moved |
| WaitSet.Report | rmw_hdds/src/rmw_wait.c:456-748 | the shared-memory shortcut, which calls nobody back, or the blocking path |
| WaitSet.Wait | rmw_hdds/src/rmw_wait.c:236-754 | status, arrays, graph guard and callbacks of every way out, as `WhatIsReported`, `SucceedsIff` and the two status lemmas state them; attachments and memory are restored if and only if not (an array is missing and the guards could be attached), and then exactly those guards stay attached |
| WaitSet.GuardsAloneNeverSucceed | rmw_hdds/src/rmw_wait.c:530-554 | a wait on guard conditions alone never succeeds, whatever any call answers |
| WaitSet.AttachedIff | rmw_hdds/src/rmw_wait.c:294-323 | all guards can be attached if and only if none is attached already, none comes twice and no native call fails |
| WaitSet.SucceedsIff | rmw_hdds/src/rmw_wait.c:236-754 | a wait succeeds if and only if its guards are free and attach, the arrays it needs can be allocated, and there is shared-memory data it can look for, or at least one entity, a native wait that returns no more ready readers than entities and than the 256 the wrapper carries, and the bitmaps it needs |
| WaitSet.WhatIsReported | rmw_hdds/src/rmw_wait.c:484-748 | a successful wait leaves in each of the three entity arrays exactly the slots whose reader is ready and in no lower slot, unchanged; exactly the triggered guards; and resets the graph guard exactly when the graph changed and that call succeeded. With shared-memory data it leaves exactly the subscriptions that have some and clears all else |
| WaitSet.FailsEarlyWith | rmw_hdds/src/rmw_wait.c:236-347 | the status of a wait without context, without memory for its keys, with a guard that cannot be attached, or with a missing array |
| WaitSet.FailsLateWith | crates/rmw-hdds/src/ffi.rs:259-300 | the status of a wait on nothing, of one whose native wait fails or returns more readers than can be carried, and of one without memory for its arrays or bitmaps |
| WaitSet.FailureChangesNothing | rmw_hdds/src/rmw_wait.c:236-754 | a wait that fails leaves the arrays of the caller and the graph guard alone |
| WaitSet.LeftGuardsLock | rmw_hdds/src/rmw_wait.c:331-347 | after the missing-array exit every later wait that names one of the guards left attached fails |
| WaitSet.ShmWait | rmw_hdds/src/rmw_wait.c:484-524 | a wait that finds shared-memory data leaves attachments, memory and graph guard as they were and reports exactly the subscriptions with data |
| WaitSet.ShmThenWait | rmw_hdds/src/rmw_wait.c:484-524 | such a wait followed by another on the same entities, once the data is taken: memory and attachments are restored, the first has the status specified, and the second reports, calls back and resets what it would have on the original context had the first never happened |
| HandleRegistry.Registry.Add | crates/hdds-c/src/lib.rs:193-205 | one more handle for the address, and whether the entry took the reference |
| HandleRegistry.Registry.Release | crates/hdds-c/src/lib.rs:220-242 | one handle less, the entry removed with the last, an unknown address refused |
| HandleRegistry.StepAccounts | crates/hdds-c/src/lib.rs:193-293 | every step keeps the strong count equal to the sum of who holds a reference |
| HandleRegistry.RunKeepsInv | crates/hdds-c/src/lib.rs:193-293 | every interleaving of calls does, with no count below zero |
| HandleRegistry.CountsAreExact | crates/hdds-c/src/lib.rs:551-563 | an entry exists if and only if handles are out, and its number is issued minus returned |
| HandleRegistry.FreedIffUnreferenced | crates/hdds-c/src/lib.rs:1040-1056 | a condition is freed exactly when nobody refers to it |
| HandleRegistry.CloneIsLive | crates/hdds-c/src/lib.rs:207-218 | a clone that is given out is of a live condition |
| HandleRegistry.SurplusReleaseIsHarmless | crates/hdds-c/src/lib.rs:1029-1056 | a release beyond the last handle changes nothing |
| SampleTake.Reader.Take | crates/hdds-c/src/lib.rs:965-991 | the sample is popped before its size is looked at |
| SampleTake.DeliverIndexIff | rmw_hdds/src/rmw_subscription.c:902-989 | the retry loop delivers exactly the first sample no longer than the initial buffer or some earlier sample, and nothing only if there is none |
| SampleTake.TakeGrowing | rmw_hdds/src/rmw_subscription.c:902-989 | the loop ends; it takes that sample and all before it and nothing after; it breaks off only on an error, the first allocation included |
| SampleTake.DeliverSmall | rmw_hdds/src/rmw_subscription.c:902-989 | samples within the initial buffer are delivered one per call, in order |
| FilterSyntax.ReadIff | rmw_hdds/src/rmw_stubs.c:375-458 | a text reads as field, operator and index if and only if it is written so, with any blanks and any of the seven operator spellings |
| FilterSyntax.ReadOf | rmw_hdds/src/rmw_stubs.c:375-458 | parsing gives back what was printed |
| FilterSyntax.SkipBlanks | rmw_hdds/src/rmw_stubs.c:193-204 | the cursor stops at the first character that is no blank |
| FilterValues.DecimalRoundTrip | rmw_hdds/src/rmw_stubs.c:310-342 | the decimal digits of every number are the parameter for it exactly when it fits 64 bits, with or without sign |
| FilterValues.BooleanIff | rmw_hdds/src/rmw_stubs.c:297-310 | a boolean parameter is its word in any letter case, or its digit, for each of true and false; every other text is refused |
| FilterValues.UnsignedIff | rmw_hdds/src/rmw_stubs.c:311-326 | a text is an unsigned parameter for a number if and only if it is blanks, a sign and a hexadecimal, octal or decimal numeral that fits 64 bits and stands for it by place value, a minus counting down from 2^64 |
| FilterValues.IntegerIff | rmw_hdds/src/rmw_stubs.c:327-339 | the same for signed parameters, within the signed 64-bit range |
| FilterValues.RejectedIs | rmw_hdds/src/rmw_stubs.c:271-373 | a parameter that is refused is unsupported exactly for a type without filters and else invalid; texts are never refused |
| FilterValues.ValueIsPlace | rmw_hdds/src/rmw_stubs.c:451-457 | the index after the percent sign is the decimal place value of its digits |
| FilterValues.SignedIs | rmw_hdds/src/rmw_stubs.c:451-457 | a number after a minus is read as the 64-bit number that adds up to zero with it |
| FilterValues.SpelledIff | rmw_hdds/src/rmw_stubs.c:420-442 | exactly seven spellings are operators |
| FilterValues.MeaningIsText | rmw_hdds/src/rmw_subscription.c:148-278 | the comparison of a parsed filter is the one that the characters of its operator and of its parameter stand for |
| FilterValues.ParsedFits | rmw_hdds/src/rmw_stubs.c:271-373 | a parsed parameter has the kind of its member's type |
| FilterValues.SameUpToNulIsEqual | rmw_hdds/src/rmw_subscription.c:256-267 | comparing up to a terminator is equality when the parameter has none inside |
| FilterValues.MatchesIsMeaning | rmw_hdds/src/rmw_subscription.c:148-278 | the evaluator is plain comparison of numbers and texts and never reaches a default |
| ContentFilter.FindMember | rmw_hdds/src/rmw_stubs.c:212-242 | the first member with the name, as `FoundIsFirst` states it |
| ContentFilter.FoundIsFirst | rmw_hdds/src/rmw_stubs.c:212-242 | no member before the one that is found has the name |
| ContentFilter.ParseExpression | rmw_hdds/src/rmw_stubs.c:375-490 | the cursor parser gives the filter that `AcceptedIff` and `WrittenMeans` describe, or the error that `RefusedIs` does |
| ContentFilter.AcceptedIff | rmw_hdds/src/rmw_stubs.c:375-490 | an expression is accepted if and only if it is in the grammar, names a member that is no array, points at a valid parameter and compares texts only for equality; the filter then says just that |
| ContentFilter.AcceptedMeans | rmw_hdds/src/rmw_subscription.c:148-278 | an accepted filter passes a message exactly when its comparison is true |
| ContentFilter.WrittenMeans | rmw_hdds/src/rmw_subscription.c:148-278 | an accepted expression passes a message exactly when its operator and the text of its parameter, read from their characters, are true of the field, for every member type |
| ContentFilter.FlagMeans | rmw_hdds/src/rmw_subscription.c:148-278 | on a boolean member `=` or `==` with a parameter that spells a truth value passes exactly that value, and `!=` exactly the other |
| ContentFilter.RefusedIs | rmw_hdds/src/rmw_stubs.c:375-490 | a refusal is unsupported exactly when the named member is an array, or the expression is well formed and its comparison does not exist for the type; else it is an invalid argument |
| ContentFilter.CopyErrorIs | rmw_hdds/src/rmw_stubs.c:1991-2019 | copying parameters succeeds exactly when none is NULL and every copy is allocated; otherwise the first that fails decides the status |
| ContentFilter.InstalledIff | rmw_hdds/src/rmw_stubs.c:1939-2045 | a call leaves a filter if and only if the message type is known, expression and parameters are not both empty, everything is copied, and the expression as written asks for that filter; it then succeeds and stores both texts |
| ContentFilter.Subscription.SetContentFilter | rmw_hdds/src/rmw_stubs.c:1939-2045 | past its check a call enables a filter if and only if the message type is known, there is something to set, all copies succeed, no parameter is NULL, and the expression as written asks for that filter; it then succeeds and stores expression and parameters. Otherwise nothing is left and it succeeds only when there was nothing to set; the stored filter is always the parse of the stored texts |
| ContentFilter.LastCallDecides | rmw_hdds/src/rmw_stubs.c:1939-2045 | the state after any sequence of calls is that of the last call past its argument check |
| ContentFilter.ReachableMeans | rmw_hdds/src/rmw_stubs.c:1939-2045 | in every reachable state an enabled filter fits its member, its text lies in the owned parameters, and evaluation is comparison |
| Takes.TakeDecoded | rmw_hdds/src/rmw_subscription.c:843-1131 | one call consumes one deliverable sample and reports it exactly if it is empty or decodes and passes; shared memory comes first and is not filtered |
| Takes.TakeSerialized | rmw_hdds/src/rmw_subscription.c:1135-1285 | the same without decoding unless there is a filter; the sample is lost when the temporary message or the output cannot be allocated |
| Takes.DecodedVerdictIff | rmw_hdds/src/rmw_subscription.c:997-1131 | the decoding take surfaces exactly the empty samples and those that the first decoder to succeed reads as a message that passes, and fails on those that no decoder reads |
| Takes.SerializedVerdictIff | rmw_hdds/src/rmw_subscription.c:1215-1285 | the serialized take surfaces exactly the empty samples and those for which there is room and either no filter or a decoded message that passes |
| Takes.VerdictsAgreeIff | rmw_hdds/src/rmw_subscription.c:997-1285 | exactly when the two takes judge a sample alike |
| Takes.TakeAll | rmw_hdds/src/rmw_subscription.c:843-1285 | making any sequence of the two calls brings up the specified samples |
| Takes.SameMessages | rmw_hdds/src/rmw_subscription.c:997-1285 | any mixture of the two takes brings up the same messages: the deliverable samples that pass, in order |
| Takes.QueueFiltered | rmw_hdds/src/rmw_subscription.c:1118-1131 | when every sample fits the first buffer this is the queue itself, in order, filtered by the content filter |
| Takes.OnlyPassing | rmw_hdds/src/rmw_subscription.c:1118-1131 | whatever is brought up is from the queue and is empty or passes the filter |
| Takes.ReachablePasses | rmw_hdds/src/rmw_subscription.c:148-278 | the filter left by any sequence of set calls passes a message exactly when the comparison it was set to is true |
| Takes.SurfacesMean | rmw_hdds/src/rmw_subscription.c:1118-1285 | from the options of the last setting call that gave an expression to takes of either kind: when it installs a filter, exactly the queued samples come up of whose field the operator and parameter, as written, are true |
| Takes.SurfacesAll | rmw_hdds/src/rmw_subscription.c:1118-1285 | when that call installs nothing, or there is none, every queued sample comes up |
| GraphSnapshot.CollectedIff | rmw_hdds/src/rmw_node.c:564-617 | entries are collected if and only if some attempt saw one version and one count in both passes and the graph moved without growing in every attempt before; they are what its fill pass visited |
| GraphSnapshot.FailedIff | rmw_hdds/src/rmw_node.c:564-617 | collecting fails with a status if and only if some attempt, after others that saw the graph move, had a failing pass with that status or saw the graph grow, or all attempts saw it move |
| GraphSnapshot.CollectedIsView | crates/hdds-c/src/rmw.rs:1088-1131 | they are all topics of the local cache at that version merged with what discovery had found at the fill pass; the count pass saw the same if and only if nothing that shows of discovery changed |
| GraphSnapshot.RemoteSwapUnnoticed | crates/hdds-c/src/rmw.rs:1088-1131 | a remote topic replaced by another between the passes goes unnoticed |
| GraphSnapshot.Visit | rmw_hdds/src/rmw_node.c:380-428 | one visit fills the next row, or fails and leaves no allocation behind |
| GraphSnapshot.Fill | rmw_hdds/src/rmw_node.c:380-428 | the rows hold the entries in order; after a failure the rest is skipped |
| GraphSnapshot.FreeRows | rmw_hdds/src/rmw_node.c:596-612 | freeing a table releases every block of every row while it is alive, so none twice |
| GraphSnapshot.GetTopics | rmw_hdds/src/rmw_node.c:564-617 | success is the whole collected graph with no block owned twice; every failure leaves the output blank, each block released once and nothing alive |
| NodeNames.ListedIff | rmw_hdds/src/rmw_node.c:855-922 | nodes are listed if and only if some attempt counted none, or agrees and they are its fill, and every attempt before counted some and saw the graph move without growing |
| NodeNames.ListedIsGraph | crates/hdds/src/rmw/graph.rs:341-367 | nodes come from the versioned cache alone, so those listed are one whole graph that both passes saw |
| NodeNames.VisitNode | rmw_hdds/src/rmw_node.c:439-470 | one visit fills the next cell of both arrays, or fails and leaves no allocation behind |
| NodeNames.FreeCells | rmw_hdds/src/rmw_node.c:899-917 | freeing a string array releases every string while it is alive, so none twice |
| NodeNames.GetNodeNames | rmw_hdds/src/rmw_node.c:855-922 | success is one whole graph in both arrays with no block owned twice; every failure leaves both blank, each block released once and nothing alive |
| QosCompat.NoteIf | rmw_hdds/src/rmw_stubs.c:560-577 | appending a reason keeps the buffer the cut-off concatenation of all reasons |
| QosCompat.Check | rmw_hdds/src/rmw_stubs.c:4746-5080 | the verdict and the noted policies are those that `JudgeIff`, `LevelsNotedIff` and `TimesNotedIff` give over the fields of the two profiles, and the reason is the noted texts in order, cut to the buffer |
| QosCompat.JudgeIff | rmw_hdds/src/rmw_stubs.c:4746-5080 | the verdict is an error if and only if some level is offered weak and requested strong or a deadline or lease is offered longer than requested, and a warning if and only if not so but lifespans do not fit or some level is left open |
| QosCompat.LevelsNotedIff | rmw_hdds/src/rmw_stubs.c:4769-5080 | a level is noted if and only if it is offered too weak, or left open when nothing else is wrong |
| QosCompat.TimesNotedIff | rmw_hdds/src/rmw_stubs.c:4796-4912 | a deadline or lease is noted if and only if it is too long, a lifespan if and only if it does not fit and no incompatibility was found before it |
| QosCompat.CutIsPrefix | rmw_hdds/src/rmw_stubs.c:560-577 | the reason buffer holds the longest beginning of the text that fits with its terminator |
| QosCompat.JudgeIsWorst | rmw_hdds/src/rmw_stubs.c:4746-5080 | no policy is worse than the verdict and one equals it |
| QosCompat.NotedExplains | rmw_hdds/src/rmw_stubs.c:4746-5080 | what is noted has a complaint, every fatal policy is noted, nothing is noted if and only if all is fine |
| QosCompat.NeverTurnsFatal | rmw_hdds/src/rmw_stubs.c:4746-4968 | for all profiles, lifespans free: offering more or requesting less never turns a pair that is not an error into one, with no deadline or lease as the longest |
| QosCompat.NoWorseIff | rmw_hdds/src/rmw_stubs.c:4746-5080 | the verdict then gets no worse if and only if it was not fine before or the new lifespans fit each other |
| QosCompat.LifespanChangeIff | rmw_hdds/src/rmw_stubs.c:4828-4868 | exchanging lifespans worsens no pair of profiles if and only if the new ones are both absent, or both present with the requested one no shorter |
| Durations.ToNs | rmw_hdds/src/rmw_qos.c:20-45 | the result is at least a 64-bit number if and only if the duration is, or it is the infinite constant: the exact total, saturated, computed without overflow |
| Durations.CountRoundTrip | rmw_hdds/src/rmw_stubs.c:517-524 | converting to a time and back gives the number again if and only if it is not the infinite constant |
| Durations.TimeRoundTrip | rmw_hdds/src/rmw_qos.c:20-45 | converting to a number and back gives the time again if and only if it is normal, fits and is not the infinite constant |
| Durations.AgreeIff | rmw_hdds/src/rmw_stubs.c:505-515 | the field-wise order is the order of the durations of a pair exactly when the nanoseconds of neither side make up for its seconds |
| Durations.NormalAgree | rmw_hdds/src/rmw_stubs.c:505-515 | so it is for normal times, and there also the order of the counts away from clamping and the infinite constant |
| Durations.LessIsShorterIff | rmw_hdds/src/rmw_stubs.c:505-515 | a time is ordered like its duration against every normal time if and only if it is normal or has the last second there is |
| RtpsWalkers.ParseSubmessages | tools/validate_sedp.py:269-317 | the walk ends on all bytes and finds the specified submessages |
| RtpsWalkers.WalkIff | tools/validate_sedp.py:269-317 | a list is what the walk finds if and only if it tiles the message from the offset to the end or a zero length |
| RtpsWalkers.DataIs | tools/validate_sedp.py:276-281 | the data of a submessage is the bytes its length says, or the rest of the packet when that ends first |
| RtpsWalkers.SubmessageRoundTrip | tools/validate_sedp.py:269-317 | written submessages that fit their length fields are read back if and only if none but the last is empty |
| RtpsWalkers.ParseParameterList | tools/validate_sedp.py:336-402 | the walk ends on all bytes and finds the specified parameters |
| RtpsWalkers.ParametersIff | tools/validate_sedp.py:336-402 | a list is what the walk finds if and only if it stands end to end, padded, up to a sentinel or the end |
| RtpsWalkers.ValueIs | tools/validate_sedp.py:347-363 | a parameter has id, length and the bytes its length says, or none when they go beyond the end |
| RtpsWalkers.PaddedIs | tools/validate_sedp.py:398-400 | the step to the next parameter is its length rounded up to a multiple of four |
| RtpsWalkers.ParameterRoundTrip | tools/validate_sedp.py:336-402 | written parameters are read back exactly, whatever the padding and whatever follows the sentinel |

## Left out

- `fill_names_and_types_from_service_list` and the by-node variants of the graph queries: copying of collected lists.
- Discovery: what remote participants announce is a parameter of `AvailableIffLive`; the DDS core, transports, shared-memory rings and serializers are oracles.
- The name-length limit of the two count calls, argument and identifier checks that only return an error, logging, events, loaned messages, codecs, thin FFI wrappers.
- Registry addresses are not reused, and strong counts stay below the limit at which Rust aborts.
- The guid counter and sequence numbers do not run over their 64-bit ranges; bitwise or on disjoint bits is addition.
- ServiceGraph.AvailableIffLive: at most 2^32 - 1 live services and clients of one name, since the graph counts in saturating 32 bits; plain endpoints on service topics are not modelled.
- ServiceGraph.CountsOfTopic: the counts are looked up in the local graph; what discovery adds to it is modelled for availability only.
- ServiceOwnership.MayTakeForeignIff: a topic keeps every message written to it, so in the direction from header to run a client or service created later may read messages written before.
- EndpointLifecycle.Destroy: unregistering and destroying native entities succeed, as the code ignores their status.
- WaitSet.Wait: the events array, which is only cleared, and the conversion of the timeout are not modelled; the readers found by the wait are a parameter.
- FilterValues.ParsedFits: floating-point texts are read by a function that is a parameter, and comparison is over the reals, so rounding, infinities and not-a-number values are not modelled.
- Takes.TakeDecoded: the subscription has introspection; the codec, raw-copy and fallback-queue branches for types without it are not modelled, and decode errors are one error.
- ServiceEndpoints.TakeHeader: the checks for missing type supports before the call does anything are not modelled, and a native error is one error.
- GraphSnapshot.GetTopics: here and for node names the string-array library calls are modelled by what they allocate and free, row by row.
- QosCompat.Check: the texts of the reasons are a parameter, one per policy; policy values are grouped into strong, weak, unspecified and other.
- RtpsWalkers.ParseSubmessages: the fields inside DATA submessages, the names of parameters and big-endian lengths are not modelled.
