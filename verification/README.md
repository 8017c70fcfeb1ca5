# Verified models of the C++ contrib components

This project models the algorithms and state machines of the OpenTelemetry C++ contrib
repository and proves what they promise, for all inputs and all runs. Each component has a pure
specification, imperative code in the source's own form proved to implement it, and theorems about
the specification.

- **Geneva metrics** (`Bytes`, `GenevaFormat`, `GenevaExporter`, `GenevaTransport`,
  `ConnectionString`): the serializers that fill a fixed buffer and patch its head, the frame format
  with a strict decoder, the Unix-domain transport against an operating system that may answer
  anything, and the connection string. `Exporter.EndToEnd` joins them: whatever a peer received
  splits into the frames of exported points whose `Send` returned true, and says when each decodes to
  its metric.
- **The cyclic barrier** (`Barrier`): its two critical sections and the protocol of any number of
  threads under every interleaving.
- **The webserver SDK** (`RequestLifecycle`, `TenantTable`, `SpanNaming`, `CustomNaming` on
  `Segments`): the span and context stacks of a request, the tenant table built before and after
  initialisation, and span names.
- **The gyp graph tools** (`Graph`, `BuildOrder`, `Reachability`): the build order and the
  reachability filter.
- **The nginx module** (`AttributeMerge`): merging custom attributes of nested locations.
- **Prometheus and Fluentd** (`NameSanitizer`, `EventGroups`, `FluentdExporter`, `EventTime`): the
  in-place name sanitiser, regrouping of span events and its delivery with retries, and the
  EventTime extension of the Fluentd Forward Protocol Specification v1.

`dafny verify dfyconfig.toml` checks everything with Dafny 4.11.

Where the code and what is said about it differ, the model follows the code:

- The Geneva exporter filters prepopulated values by their own size rather than by the size of the
  name they belong to, so names and values can come apart. `RoundTrip` gives the exact condition and
  `RoundTripCanFail` an input.
- A server span detaches its token when it ends and once more when the token is destroyed, so the
  caller's stack is restored only if the extracted context was not on it (`WholeRequest`).
- CUSTOM span names are documented as a delimiter-join, but leading empty segments get no delimiter
  (`SpanNameIsDocumentedIff`, with "//a" by the rule "1,2" as an input where it shows).
- Empty keys and, except in the last pair, empty values of a connection string are read back, which
  is more than its documentation asks for (`PrintedPairsComeBackIff`).
- After a socket error the Geneva transport drops its socket without closing it. `Valid` counts the open
  descriptors: one for the open connection and one for every call that met such an error.
- The Fluentd exporter retries a cut-short message on the same connection, behind the part that is
  already there (`MessageEndsItsStream`, `RetryRepeatsTheBeginning`).
- Merged nginx attributes do not always read as a map: two key patterns may give one key, and a value
  may fail to run. `OrderNeverShowsIff` and `MeaningDecidesIff` say exactly when that shows on a span.
- An EventTime of exactly (0, 0) cannot be written: the clock is used (`PairRecoveredIff`).

## Model

| member | source | states |
|---|---|---|
| `GenevaFormat.RoundTrip` | exporters/geneva/src/exporter.cc:183-350 | a frame that fits decodes to the metric it was made from (words as their fields hold them, account and namespace overridden by attributes, every kept name paired with its own value, attribute values cut to 1024 bytes) if and only if each prepopulated name exceeds 256 bytes exactly when its value does |
| `GenevaFormat.DecodeEncode` | exporters/geneva/src/exporter.cc:304-348 | under that condition the strict decoder recovers everything a receiver should learn, for single values and distributions |
| `GenevaFormat.RoundTripCanFail` | exporters/geneva/src/exporter.cc:260-271 | a concrete metric, one prepopulated pair with a long value under a short name, that fits but does not decode to what was meant |
| `GenevaFormat.WrittenValuesArePairedIff` | exporters/geneva/src/exporter.cc:225-271 | the prepopulated values written are those of the names written exactly when the two size limits always agree |
| `GenevaFormat.OnePrepopulated` | exporters/geneva/src/exporter.cc:225-271 | a prepopulated name and its value are kept up to 256 bytes, each for itself |
| `GenevaFormat.PrepopulatedConcat` | exporters/geneva/src/exporter.cc:225-271 | prepopulated names and values are filtered one by one, in order |
| `GenevaFormat.OneAttribute` | exporters/geneva/src/exporter.cc:240-296 | an attribute is kept up to 256 bytes of name unless its key is one of the two reserved ones, and its value is cut to 1024 bytes |
| `GenevaFormat.AttributesConcat` | exporters/geneva/src/exporter.cc:240-296 | attributes are filtered one by one, in order |
| `GenevaFormat.LastValueIsLast` | exporters/geneva/src/exporter.cc:203-210 | the overriding value is that of the last attribute with the key, and the default stands only without one |
| `GenevaFormat.KeysAre` | exporters/geneva/include/opentelemetry/exporters/geneva/metrics/exporter.h:39-40 | the two reserved keys, spelled out |
| `GenevaFormat.NothingWraps` | exporters/geneva/src/exporter.cc:304-316 | in a frame that fits, every string length, the dimension count, the bucket count and the body length fit 16 bits, and the body is at least 32 bytes, so a returned 0 is unambiguous |
| `GenevaFormat.FrameParts` | exporters/geneva/src/exporter.cc:304-349 | event, body length, dimension count and the rest stand in a fitting frame where a receiver reads them |
| `GenevaFormat.SingleStandsAt` | exporters/geneva/src/exporter.cc:304-348 | ticks and value of a single number stand at bytes 12 and 20 of its frame |
| `GenevaFormat.DistributionStandsAt` | exporters/geneva/src/exporter.cc:515-560 | count, ticks, sum, minimum and maximum of a distribution stand at bytes 8, 12, 20, 28 and 36 of its frame |
| `GenevaFormat.DecodeInverse` | exporters/geneva/test/decoder/ifx_metrics_bin.ksy:1-236 | the decoder loses nothing: what it makes of any frame determines all of it but the two reserved words |
| `GenevaFormat.ReadBucketsOfBytes` | exporters/geneva/src/exporter.cc:482-512 | the decoder recovers every bucket of the list, in order |
| `GenevaFormat.HistogramConservation` | exporters/geneva/src/exporter.cc:482-512 | for a frame that fits under agreeing size limits and one more count than boundaries, the decoded bucket counts plus the last unbounded bucket add up to all counts if and only if every bounded count is below 2^32 |
| `GenevaFormat.KeptBucketsAre` | exporters/geneva/src/exporter.cc:490-509 | the kept buckets are those of exactly the boundaries with a count that is not zero, in boundary order |
| `GenevaFormat.ConservationCanFail` | exporters/geneva/src/exporter.cc:482-512 | 2^32 events in one bounded bucket are lost |
| `GenevaFormat.TicksDivideBackIff` | exporters/geneva/include/opentelemetry/exporters/geneva/metrics/exporter.h:146-149 | dividing the tick count again gives the second back exactly when the product fits 64 bits |
| `GenevaFormat.TicksAgreeIff` | exporters/geneva/include/opentelemetry/exporters/geneva/metrics/exporter.h:146-149 | two times have the same tick count if and only if they differ by a multiple of 2^57 seconds |
| `GenevaFormat.TicksAre` | exporters/geneva/include/opentelemetry/exporters/geneva/metrics/exporter.h:146-149 | ticks are hundreds of nanoseconds since 1601, modulo 2^64 |
| `Bytes.LEKeepsLowBytes` | exporters/geneva/include/opentelemetry/exporters/geneva/metrics/exporter.h:93-103 | a stored integer of any width reads back as its low bytes |
| `Bytes.ReadStrsOfStrs` | exporters/geneva/include/opentelemetry/exporters/geneva/metrics/exporter.h:108-120 | length-prefixed strings are read back one by one, whatever follows them |
| `Bytes.StrsOfReadStrs` | exporters/geneva/include/opentelemetry/exporters/geneva/metrics/exporter.h:108-120 | conversely what was read, written again, is the input |
| `Bytes.StrsInjective` | exporters/geneva/include/opentelemetry/exporters/geneva/metrics/exporter.h:108-120 | the string code is uniquely decodable while lengths fit 16 bits |
| `GenevaExporter.Exporter.constructor` | exporters/geneva/src/exporter.cc:21-46 | starts with nothing exported, and has asked for a connection once, which it has exactly when nothing was refused |
| `GenevaExporter.Exporter.SerializeInt` | exporters/geneva/include/opentelemetry/exporters/geneva/metrics/exporter.h:93-103 | writes exactly when the value fits behind the index, then advances; otherwise the buffer is untouched; bytes behind are never disturbed |
| `GenevaExporter.Exporter.SerializeString` | exporters/geneva/include/opentelemetry/exporters/geneva/metrics/exporter.h:108-120 | the same for a length-prefixed string, all or nothing |
| `GenevaExporter.Exporter.ReadIdentity` | exporters/geneva/src/exporter.cc:197-210 | account and namespace are the last attribute with the reserved key, else the configured ones |
| `GenevaExporter.Exporter.SerializeAttributeNames` | exporters/geneva/src/exporter.cc:240-258 | writes the kept attribute names in order, and the counter is their exact number |
| `GenevaExporter.Exporter.SerializeShortNames` | exporters/geneva/src/exporter.cc:225-238 | writes the prepopulated names of at most 256 bytes, in order, and counts them |
| `GenevaExporter.Exporter.SerializeShortValues` | exporters/geneva/src/exporter.cc:260-271 | writes the prepopulated values of at most 256 bytes, in order |
| `GenevaExporter.Exporter.SerializeAttributeValues` | exporters/geneva/src/exporter.cc:273-296 | writes the values of the kept attributes cut to 1024 bytes, in order |
| `GenevaExporter.Exporter.SerializeStrings` | exporters/geneva/src/exporter.cc:195-296 | identity, names and values stand in the buffer as the pure encoding says, or the frame would not fit |
| `GenevaExporter.Exporter.SerializeNonHistogramMetrics` | exporters/geneva/src/exporter.cc:183-350 | returns 0 exactly when the encoding exceeds 65360 bytes; otherwise returns the body length, the head of the buffer is the encoding whatever the buffer held, and the rest of the buffer is unchanged |
| `GenevaExporter.Exporter.SerializeBuckets` | exporters/geneva/src/exporter.cc:490-509 | writes exactly the pairs with a boundary and a non-zero count, in order, and counts them |
| `GenevaExporter.Exporter.PatchCount` | exporters/geneva/src/exporter.cc:511-512 | back-patching the bucket count disturbs no other byte |
| `GenevaExporter.Exporter.SerializeHistogramMetrics` | exporters/geneva/src/exporter.cc:352-562 | as for single values, with the bucket list and its back-patched count |
| `GenevaExporter.Exporter.Serialize` | exporters/geneva/src/exporter.cc:78-161 | every kind of point goes to its serializer with the event type and number representation the code picks; other points give 0 |
| `GenevaExporter.Exporter.Export` | exporters/geneva/src/exporter.cc:57-171 | the frame of every point that has one that fits is handed to the transport, once and in order, and the points are recorded; nothing after shutdown |
| `GenevaExporter.Exporter.EndToEnd` | exporters/geneva/src/exporter.cc:57-171 | for every exporter, in every reachable state and on every connection ever made, what arrived splits into the frames of those exported points, in order, whose Send returned true there, and what is left is a proper beginning of the frame of one exported point, or nothing; each frame decodes to the metric of its point if and only if the prepopulated size limits agree |
| `GenevaExporter.Exporter.WhatThePeerReads` | exporters/geneva/src/exporter.cc:57-171 | for every connection: its frames are those of exported points, in order, and each holds at fixed bytes the event type of the point (by kind, representation and monotonicity), its time and its numbers, minimum before maximum; where the size limits agree each also decodes to the name, account, namespace, dimensions and buckets of its point |
| `GenevaExporter.Exporter.FitsIff` | exporters/geneva/include/opentelemetry/exporters/geneva/metrics/exporter.h:20-29 | a point has a frame exactly when it is of a known kind and header, payload, texts and buckets take at most 65360 bytes |
| `GenevaTransport.SplitOfFlatten` | exporters/geneva/src/exporter.cc:304-316 | cutting a stream by the length fields undoes the concatenation of frames followed by a proper beginning of one |
| `GenevaTransport.WholeRunFraming` | exporters/geneva/src/unix_domain_socket_data_transport.cc:18-71 | on every connection of every disciplined history the stream splits into the messages written whole, and what is left is a proper beginning of one message tried there, empty unless one was cut short |
| `GenevaTransport.StreamIsDeliveredPlusCut` | exporters/geneva/src/unix_domain_socket_data_transport.cc:30-59 | a connection carries whole frames followed by at most one strictly cut-short frame that was tried on it |
| `GenevaTransport.DisciplineStep` | exporters/geneva/src/unix_domain_socket_data_transport.cc:30-59 | writing keeps the discipline exactly when nothing was cut short on that connection before |
| `GenevaTransport.Kernel.WriteAll` | exporters/geneva/include/opentelemetry/exporters/geneva/metrics/socket_tools.h:556-575 | against any answers of send, appends exactly the returned number of bytes, a beginning of the data; it stops short exactly when the last send took nothing or failed, and no earlier one did |
| `GenevaTransport.UnixDomainSocketDataTransport.constructor` | exporters/geneva/src/unix_domain_socket_data_transport.cc:12-16 | starts unconnected, with no call made |
| `GenevaTransport.UnixDomainSocketDataTransport.Connect` | exporters/geneva/src/unix_domain_socket_data_transport.cc:18-28 | keeps the invariant and the history; an open connection is kept; otherwise it asks for a socket and then a connection, and fails exactly when one of them is refused |
| `GenevaTransport.UnixDomainSocketDataTransport.Send` | exporters/geneva/src/unix_domain_socket_data_transport.cc:30-59 | true exactly when this message was written whole, now, on the open connection or else a new one; after false that connection is given up and holds at most a proper beginning of the message; exactly when the open socket reported an error its descriptor is left open behind it, and no other descriptor ever is; it is true exactly when nothing asked on the way was refused (a socket, a connection, the error query, a send), the first refusal is the last thing asked, and everything is asked in its order |
| `GenevaTransport.UnixDomainSocketDataTransport.Disconnect` | exporters/geneva/src/unix_domain_socket_data_transport.cc:61-71 | gives up the connection, history untouched |
| `GenevaTransport.UnixDomainSocketDataTransport.Framing` | exporters/geneva/src/unix_domain_socket_data_transport.cc:18-71 | at any time in any run, splitting the stream of any connection gives exactly the messages whose Send returned true on it |
| `ConnectionString.ConnectionStringParser.constructor` | exporters/geneva/include/opentelemetry/exporters/geneva/metrics/connection_string_parser.h:27-83 | the loop ends on every string and leaves the fields that applying the pairs of the text in order leaves |
| `ConnectionString.ConnectionStringParser.Assign` | exporters/geneva/include/opentelemetry/exporters/geneva/metrics/connection_string_parser.h:49-76 | one pair assigns its field; an endpoint is cut at the first "://" and sets the protocol its scheme names |
| `ConnectionString.PrintedPairsComeBackIff` | exporters/geneva/include/opentelemetry/exporters/geneva/metrics/connection_string_parser.h:29-48 | printed pairs are recovered in order if and only if no key holds "=", no value holds ";" or starts with "=", and the last value is not empty |
| `ConnectionString.PairsOfPrint` | exporters/geneva/include/opentelemetry/exporters/geneva/metrics/connection_string_parser.h:29-48 | of clean pairs only a last one with an empty value is lost |
| `ConnectionString.LastEmptyValueIsLost` | exporters/geneva/include/opentelemetry/exporters/geneva/metrics/connection_string_parser.h:29-48 | a single pair without a value is printed but not read back |
| `ConnectionString.LastWins` | exporters/geneva/include/opentelemetry/exporters/geneva/metrics/connection_string_parser.h:49-76 | every field ends as the last pair that concerns it says: account, namespace, endpoint path, and the protocol of the last endpoint with a known scheme |
| `ConnectionString.FindText` | exporters/geneva/include/opentelemetry/exporters/geneva/metrics/connection_string_parser.h:55 | the first place where the text stands, and none only if it stands nowhere |
| `ConnectionString.LastMatchIsLast` | exporters/geneva/include/opentelemetry/exporters/geneva/metrics/connection_string_parser.h:49-76 | the last match is the one after which nothing matches, and the default stands only if nothing matches at all |
| `ConnectionString.ParserReadsWhatWasPrinted` | exporters/geneva/include/opentelemetry/exporters/geneva/metrics/connection_string_parser.h:27-83 | for printable pairs the parser ends with the last account, namespace, endpoint path and known protocol printed |
| `ConnectionString.ValidIff` | exporters/geneva/include/opentelemetry/exporters/geneva/metrics/connection_string_parser.h:85 | the parser is valid exactly when some endpoint names a known scheme |
| `Barrier.CyclicBarrier.constructor` | exporters/user_events/benchmark/logger_benchmark.cc:50 | count is the threshold, generation zero |
| `Barrier.CyclicBarrier.Enter` | exporters/user_events/benchmark/logger_benchmark.cc:52-62 | the arrival section is the protocol step, with unsigned wrap-around |
| `Barrier.LeavesWhenAllHaveEntered` | exporters/user_events/benchmark/logger_benchmark.cc:64 | the wait predicate holds of a waiter if and only if every thread has entered the call that waiter is in, wrap-around of the generation included |
| `Barrier.RunInv` | exporters/user_events/benchmark/logger_benchmark.cc:52-66 | every state of every interleaving, wake-ups at any time included, satisfies the barrier invariant, across generation wrap-around |
| `Barrier.BarrierSafety` | exporters/user_events/benchmark/logger_benchmark.cc:52-98 | nobody completes its k-th Wait before everybody entered theirs, completed counts differ by at most one, and the count is the threshold less the waiters of the current generation |
| `Barrier.NoLostWakeup` | exporters/user_events/benchmark/logger_benchmark.cc:56-65 | the threads that sleep un-notified are exactly the waiters of the current generation |
| `Barrier.SomeoneIsAwake` | exporters/user_events/benchmark/logger_benchmark.cc:56-65 | all threads blocked is unreachable |
| `Barrier.SomeoneCanAct` | exporters/user_events/benchmark/logger_benchmark.cc:76-98 | while a thread has calls left, some thread can change the state without a spurious wake-up |
| `Barrier.ChangeIsProgress` | exporters/user_events/benchmark/logger_benchmark.cc:76-117 | every step that changes anything brings the end of the run nearer by a decreasing natural number |
| `Barrier.RunsAreShort` | exporters/user_events/benchmark/logger_benchmark.cc:76-117 | a run in which every step changes something has at most two steps for every call of every thread |
| `Barrier.RestMeansAllDone` | exporters/user_events/benchmark/logger_benchmark.cc:76-117 | a state of a run is at rest exactly when every thread has made all of its calls |
| `RequestLifecycle.RuntimeThread.Detach` | instrumentation/otel-webserver-module/src/core/sdkwrapper/ServerSpan.cpp:47-51 | pops through the token, or does nothing when it is not on the stack |
| `RequestLifecycle.RuntimeThread.NewScopedSpan` | instrumentation/otel-webserver-module/src/core/sdkwrapper/ScopedSpan.cpp:23-38 | starts a span under the current one and pushes its scope |
| `RequestLifecycle.RequestProcessingEngine.StartRequest` | instrumentation/otel-webserver-module/src/core/api/RequestProcessingEngine.cpp:53-100 | the error returns change nothing; otherwise the extracted context and the root span are pushed and a fresh handle made |
| `RequestLifecycle.RequestProcessingEngine.StartInteraction` | instrumentation/otel-webserver-module/src/core/api/RequestProcessingEngine.cpp:178-213 | the span id handed out is the one on top before the call, and the new interaction is pushed on both stacks |
| `RequestLifecycle.RequestProcessingEngine.EndInteraction` | instrumentation/otel-webserver-module/src/core/api/RequestProcessingEngine.cpp:215-275 | the error returns change nothing; otherwise the youngest interaction gets its status, ends and leaves both stacks; the status is Ok without an error, Unset for 100 to 399 and Error for all other codes |
| `RequestLifecycle.RequestProcessingEngine.EndRequest` | instrumentation/otel-webserver-module/src/core/api/RequestProcessingEngine.cpp:102-176 | drains the interactions, sets the root status, detaches, ends and destroys the server span; the status of the root is Ok without an error, Unset for 100 to 499 and Error for all other codes |
| `RequestLifecycle.StackMirrorsRequest` | instrumentation/otel-webserver-module/src/core/api/RequestProcessingEngine.cpp:178-275 | after any sequence of interactions the stack is the entry stack, the extracted context, the root and the open interactions, and the top names the youngest open span |
| `RequestLifecycle.WholeRequest` | instrumentation/otel-webserver-module/src/core/api/RequestProcessingEngine.cpp:53-275 | over a whole request every span is started under a new identity and ended exactly once, the root last, each after everything started under it; the entry stack comes back if and only if the extracted context was not on it; the thread is fit for the next request |
| `RequestLifecycle.StatusesOfRequest` | instrumentation/otel-webserver-module/src/core/api/RequestProcessingEngine.cpp:127-260 | after a whole request the root has the status of the error, every interaction that was ended that of its own call, by ranges of codes, and no other span has another status than before |
| `RequestLifecycle.WholeRun` | instrumentation/otel-webserver-module/src/core/api/RequestProcessingEngine.cpp:53-275 | over any run of requests on a thread every span is ended exactly once, and the stack comes back if and only if no request extracted a context that was on it |
| `RequestLifecycle.ReturningTheCurrentContextLosesIt` | instrumentation/otel-webserver-module/src/core/sdkwrapper/ServerSpan.cpp:31-37 | when the propagators hand back the current context, the caller loses its own top context |
| `RequestLifecycle.ServeServing` | instrumentation/otel-webserver-module/include/core/RequestContext.h:37-85 | the invariant that ties stack, interactions and tracer log together survives every call |
| `TenantTable.InitOrderIndependence` | instrumentation/otel-webserver-module/src/core/api/WSAgent.cpp:46-248 | for every sequence of calls, with process ids that are not zero, the table is the initial configuration plus, for each validly added name, the initial settings under the identity of its first valid add |
| `TenantTable.PositionOfInitDoesNotMatter` | instrumentation/otel-webserver-module/src/core/api/WSAgent.cpp:161-248 | initialising with a process id that is not zero at two different places among the same adds gives the same table |
| `TenantTable.FirstAddsOfAdds` | instrumentation/otel-webserver-module/src/core/api/WSAgent.cpp:229-245 | an initialisation among the adds changes neither which add of a name is first nor who wins |
| `TenantTable.TenantConfig.CopyAllExceptNamespaceNameId` | instrumentation/otel-webserver-module/src/core/AgentCore.cpp:85-96 | takes over everything but the identity |
| `TenantTable.TenantConfig.IsSameNamespaceNameId` | instrumentation/otel-webserver-module/include/core/api/TenantConfig.h:29-34 | namespace, name and id are all equal |
| `TenantTable.AgentCore.CreateContext` | instrumentation/otel-webserver-module/src/core/AgentCore.cpp:142-152 | a fresh context with that configuration replaces the entry, and no other entry changes |
| `TenantTable.AgentCore.AddContext` | instrumentation/otel-webserver-module/src/core/AgentCore.cpp:126-140 | completes the configuration from the initial one and enters it, or does nothing before start |
| `TenantTable.AgentCore.Start` | instrumentation/otel-webserver-module/src/core/AgentCore.cpp:54-83 | the table becomes the initial context and every pending tenant, completed; their identities are unchanged |
| `TenantTable.WSAgent.Init` | instrumentation/otel-webserver-module/src/core/api/WSAgent.cpp:46-83 | refines the pure step: only the first call with readable settings and a logger takes effect; a second call, a call from another process, unreadable settings and a failed start each have their code |
| `TenantTable.WSAgent.AddWSContextToCore` | instrumentation/otel-webserver-module/src/core/api/WSAgent.cpp:161-248 | refines the pure step before and after initialisation; the first add of a name wins and invalid ones are refused, exactly those without a name, with the reserved name, without a configuration or with an empty part of the identity |
| `TenantTable.WSAgent.StartRequest` | instrumentation/otel-webserver-module/src/core/api/WSAgent.cpp:94-108 | a handle remembers the engine that made it; none without a context |
| `TenantTable.WSAgent.Dispatch` | instrumentation/otel-webserver-module/src/core/api/WSAgent.cpp:110-159 | every handle ever made is dispatched to the engine that made it |
| `BuildOrder.SolutionPrinter.BuildProject` | instrumentation/otel-webserver-module/scripts/gyp/r1919/tools/pretty_sln.py:22-30 | on an acyclic map ends, appends only projects the given one needs, itself last, and keeps the order; fails only with a needed project that has no entry |
| `BuildOrder.SolutionPrinter.PrintBuildOrder` | instrumentation/otel-webserver-module/scripts/gyp/r1919/tools/pretty_sln.py:117-126 | on an acyclic map: fails exactly when some dependency has no entry; otherwise lists every project exactly once, after all its dependencies |
| `BuildOrder.OrderMeansAcyclic` | instrumentation/otel-webserver-module/scripts/gyp/r1919/tools/pretty_sln.py:22-30 | acyclicity is needed: a map whose projects can be so listed has no cycle |
| `BuildOrder.MissingMeansOpen` | instrumentation/otel-webserver-module/scripts/gyp/r1919/tools/pretty_sln.py:26-28 | a missing key that is needed shows that the map is not closed |
| `Reachability.LoadEdges` | instrumentation/otel-webserver-module/scripts/gyp/r1919/tools/graphviz.py:22-40 | ends on every map and target list; the result is the edge map restricted to what the targets reach, and the lookup fails only for a reachable node without an entry |
| `Reachability.Walk` | instrumentation/otel-webserver-module/scripts/gyp/r1919/tools/graphviz.py:30-40 | the worklist invariant: what visited nodes point to is visited or waiting |
| `Graph.ClosedSetKeepsPaths` | instrumentation/otel-webserver-module/scripts/gyp/r1919/tools/graphviz.py:30-40 | a set no edge leaves keeps every path that starts in it |
| `AttributeMerge.MergeCustomAttributes` | instrumentation/nginx/src/otel_ngx_module.cpp:734-770 | for every iteration order and whatever duplicates, the result is the merged map in that order followed by what is left of a longer child, and read last-wins it denotes the parent overridden by the child; the parent is unchanged and the child array never shrinks; it fails exactly when the pool refuses a push, and never when the merged map has no more keys than the child has entries |
| `AttributeMerge.BuildMap` | instrumentation/nginx/src/otel_ngx_module.cpp:740-752 | the map denotes the parent overridden by the child |
| `AttributeMerge.DenoteIsLast` | instrumentation/nginx/src/otel_ngx_module.cpp:569-592 | a key pattern means its last entry in the array |
| `AttributeMerge.TailIsHarmless` | instrumentation/nginx/src/otel_ngx_module.cpp:754-770 | child entries left behind the merged ones do not change the meaning |
| `AttributeMerge.AddScriptAttributes` | instrumentation/nginx/src/otel_ngx_module.cpp:569-592 | refines the rendering of an array on a span, skipping scripts that fail |
| `AttributeMerge.OneAttributeRendered` | instrumentation/nginx/src/otel_ngx_module.cpp:569-592 | an attribute is set, as a number or as text, exactly when its key and its value run |
| `AttributeMerge.RenderedConcat` | instrumentation/nginx/src/otel_ngx_module.cpp:569-592 | arrays are rendered one after the other |
| `AttributeMerge.SameMeaningSameSpan` | instrumentation/nginx/src/otel_ngx_module.cpp:569-592 | arrays with one meaning render to one span when every pattern that gives a key has a value that runs and patterns for one key agree on it |
| `AttributeMerge.MeaningDecidesIff` | instrumentation/nginx/src/otel_ngx_module.cpp:569-592 | all arrays of a meaning render alike on every span if and only if that condition holds of the meaning |
| `AttributeMerge.OrderShowsWhenKeysCollide` | instrumentation/nginx/src/otel_ngx_module.cpp:569-592 | an input: two patterns for one key with different values render differently in the two orders |
| `AttributeMerge.OverriddenEntryShows` | instrumentation/nginx/src/otel_ngx_module.cpp:569-592 | an input: an overridden entry shows when the value that overrides it does not run |
| `AttributeMerge.OrderNeverShowsIff` | instrumentation/nginx/src/otel_ngx_module.cpp:734-770 | the order in which the hash map is walked never shows on a span if and only if no two patterns whose values run give one key two values, except under a key that an entry left over from the child sets last |
| `Segments.JoinSplit` | instrumentation/otel-webserver-module/include/util/SpanNamingUtils.h:20-58 | joining the pieces gives the text back; pieces hold no separator; there is one more than separators |
| `Segments.SplitJoin` | instrumentation/otel-webserver-module/include/util/SpanNamingUtils.h:20-58 | splitting joined pieces gives the pieces back |
| `SpanNaming.FindNthSegment` | instrumentation/otel-webserver-module/include/util/SpanNamingUtils.h:39-58 | finds the n-th separator after one in front, or the end when there are fewer; asked for none, stops at the start unless a separator there makes it run to the end |
| `SpanNaming.GetFirstNSegments` | instrumentation/otel-webserver-module/include/util/SpanNamingUtils.h:73-83 | refines the split/join meaning of FIRST n |
| `SpanNaming.GetLastNSegments` | instrumentation/otel-webserver-module/include/util/SpanNamingUtils.h:98-111 | the reverse search refines the split/join meaning of LAST n |
| `SpanNaming.FirstAndLastPartition` | instrumentation/otel-webserver-module/include/util/SpanNamingUtils.h:73-111 | on an absolute path with k separators, one at the end not counted, FIRST i and LAST k-i put together are the path |
| `CustomNaming.ParseSegmentNumbers` | instrumentation/otel-webserver-module/src/util/SpanNamingUtils.cpp:59-88 | the bitset holds exactly the valid segment numbers of the rule |
| `CustomNaming.TransformNameWithURISegments` | instrumentation/otel-webserver-module/src/util/SpanNamingUtils.cpp:116-158 | refines: ascending selection of segments put together, or the base name when nothing is left |
| `CustomNaming.OnlyTheNumbersMatter` | instrumentation/otel-webserver-module/src/util/SpanNamingUtils.cpp:59-88 | rules with the same set of valid numbers, zeros, repeats and non-numbers aside, name every path alike |
| `CustomNaming.OrderDoesNotMatter` | instrumentation/otel-webserver-module/src/util/SpanNamingUtils.cpp:95-98 | permuting the tokens changes nothing |
| `CustomNaming.GlueIsJoin` | instrumentation/otel-webserver-module/src/util/SpanNamingUtils.cpp:141-152 | the loop puts together the delimiter-join of the selected segments after leading empty ones |
| `CustomNaming.GlueIsPlainJoinIff` | instrumentation/otel-webserver-module/src/util/SpanNamingUtils.cpp:141-152 | it is the plain delimiter-join exactly when the delimiter is empty, at most one segment is selected or the first one is not empty |
| `CustomNaming.CustomIsDocumentedIff` | instrumentation/otel-webserver-module/src/util/SpanNamingUtils.cpp:90-158 | the same for any base name and delimiter, with the one coincidence that all selected segments are empty and join to the base name |
| `CustomNaming.SpanNameIsDocumentedIff` | instrumentation/otel-webserver-module/src/core/api/SpanNamer.cpp:42-58 | a CUSTOM span name is the documented one if and only if at most one segment is selected or the first one is not empty |
| `CustomNaming.EmptySegmentLosesItsDelimiter` | instrumentation/otel-webserver-module/src/util/SpanNamingUtils.cpp:116-158 | "//a" by the rule "1,2" is named "a" where the documentation has "/a" |
| `CustomNaming.CountingRuleIsFirst` | instrumentation/otel-webserver-module/src/core/api/SpanNamer.cpp:42-58 | on an absolute path "1,...,n" with "/" gives FIRST n without the slash if and only if the first segment is not empty |
| `CustomNaming.SpanNamer.constructor` | instrumentation/otel-webserver-module/src/core/api/SpanNamer.cpp:29-33 | FIRST with two segments |
| `CustomNaming.SpanNamer.SetSegmentRules` | instrumentation/otel-webserver-module/src/core/api/SpanNamer.cpp:35-97 | sets type and count or values; the count is never zero |
| `CustomNaming.LowerIff` | instrumentation/otel-webserver-module/src/core/api/SpanNamer.cpp:60-72 | the kind is recognised in any mixture of cases and in no other spelling |
| `CustomNaming.CountOf` | instrumentation/otel-webserver-module/src/core/api/SpanNamer.cpp:74-92 | the requested count when it is a positive number that fits, otherwise two |
| `CustomNaming.CountRoundTrip` | instrumentation/otel-webserver-module/src/core/api/SpanNamer.cpp:74-92 | a count written in decimal is the count that is set, and two when it is zero or does not fit 32 bits |
| `CustomNaming.SpanNamer.GetSpanName` | instrumentation/otel-webserver-module/src/core/api/SpanNamer.cpp:42-58 | dispatches to the meaning of the chosen rule |
| `NameSanitizer.SanitizePrometheusNames` | exporters/prometheus/src/push_exporter.cc:22-74 | for every input the rewrite with a sentinel and the compaction equal "each maximal run of invalid characters becomes one underscore" |
| `NameSanitizer.Remove` | exporters/prometheus/src/push_exporter.cc:66-70 | compacts in place to the subsequence without the sentinel |
| `NameSanitizer.SanitisedIsWellFormed` | exporters/prometheus/src/push_exporter.cc:22-74 | no digit first, no adjacent underscores, no sentinel, nothing invalid but lone underscores |
| `NameSanitizer.UnchangedIff` | exporters/prometheus/src/push_exporter.cc:22-74 | a name is left alone if and only if it is well-formed |
| `NameSanitizer.UnchangedSpelledOut` | exporters/prometheus/src/push_exporter.cc:22-74 | left alone are exactly the names of ASCII letters, digits after the first character, colons in metric names, and underscores that do not follow another |
| `NameSanitizer.Idempotent` | exporters/prometheus/src/push_exporter.cc:22-74 | sanitising twice is sanitising once, for label and metric rules |
| `NameSanitizer.LabelRuleIsStricter` | exporters/prometheus/src/push_exporter.cc:28-48 | a sanitised label name is untouched by the metric rule |
| `NameSanitizer.ValidCharsSurvive` | exporters/prometheus/src/push_exporter.cc:50-73 | valid characters are neither lost, added nor reordered |
| `FluentdExporter.FluentdExporter.Export` | exporters/fluentd/src/trace/fluentd_exporter.cc:70-160 | refuses after shutdown or for an empty batch; otherwise consumes the batch and the messages written whole are a beginning of span records then event groups, all of them exactly on success; on failure the next message was asked for in vain, and nothing else was asked for |
| `FluentdExporter.FluentdExporter.Regroup` | exporters/fluentd/src/trace/fluentd_exporter.cc:84-127 | records and groups of the batch as specified, null recordables skipped |
| `EventGroups.EventsAreConserved` | exporters/fluentd/src/trace/fluentd_exporter.cc:119-155 | the entries of all group messages are a permutation of all events of the batch |
| `EventGroups.NamedIsSubsequence` | exporters/fluentd/src/trace/fluentd_exporter.cc:119-124 | each group is the order-preserving subsequence of the events with its name |
| `EventGroups.EveryEventIsStamped` | exporters/fluentd/src/trace/fluentd_exporter.cc:105-124 | every event sent is some span's event with that span's stamp, at the place counting gives |
| `EventGroups.EveryEventIsThere` | exporters/fluentd/src/trace/fluentd_exporter.cc:105-124 | conversely every event of every span is there |
| `EventGroups.StampIsTheSpans` | exporters/fluentd/src/trace/fluentd_exporter.cc:107-110 | a stamp sets the span and trace id to those of the span and changes nothing else |
| `EventGroups.RecordIsTheSpans` | exporters/fluentd/src/trace/fluentd_exporter.cc:94-103 | a span record has all options of the span, a null end time if that is missing, and the end time as its time |
| `EventGroups.EveryRecordIsThere` | exporters/fluentd/src/trace/fluentd_exporter.cc:90-103 | every span of the batch has its record, null recordables none |
| `EventGroups.EveryRecordIsASpans` | exporters/fluentd/src/trace/fluentd_exporter.cc:90-103 | there is no record but those of spans, in the order of the batch |
| `EventGroups.GroupMessages` | exporters/fluentd/src/trace/fluentd_exporter.cc:137-145 | one message for every name that occurs, in ascending order, with its group |
| `FluentdExporter.FluentdExporter.Send` | exporters/fluentd/src/trace/fluentd_exporter.cc:228-263 | true exactly when the last of at most retry-count tries wrote the packet whole; it is written whole at most once; it fails exactly when as many rounds as the retry count failed, each for want of a socket or a connection or because nothing more was taken, and everything is asked in its order, reconnecting after a socket error |
| `FluentdExporter.MessageEndsItsStream` | exporters/fluentd/src/trace/fluentd_exporter.cc:228-278 | a connection carries at most one whole message and it ends the stream; it is all there is exactly when the earlier tries there wrote nothing |
| `FluentdExporter.RetryRepeatsTheBeginning` | exporters/fluentd/src/trace/fluentd_exporter.cc:228-278 | a cut-short try and its retry leave the beginning of the message in front of the message |
| `FluentdExporter.FluentdExporter.Streams` | exporters/fluentd/src/trace/fluentd_exporter.cc:228-278 | the same in every reachable state, for every connection |
| `FluentdExporter.FluentdExporter.Disconnect` | exporters/fluentd/src/trace/fluentd_exporter.cc:269-278 | afterwards not connected; answers whether it was |
| `EventGroups.KeysInOrder` | exporters/fluentd/src/trace/fluentd_exporter.cc:138 | the names of the groups, each once, in ascending order |
| `EventGroups.LessIff` | exporters/fluentd/src/trace/fluentd_exporter.cc:138 | the order of the names is the lexicographic one |
| `EventTime.GetMsgpackEventTimeExt` | exporters/fluentd/include/opentelemetry/exporters/fluentd/common/fluentd_common.h:239-260 | the eight bytes decode as two big-endian signed words to the arguments, or to the clock for (0, 0) |
| `EventTime.LowIsModular` | exporters/fluentd/include/opentelemetry/exporters/fluentd/common/fluentd_common.h:252-257 | masking and arithmetic shifting give the big-endian bytes of the value modulo a power of 256, negative values included |
| `EventTime.PairRecoveredIff` | exporters/fluentd/include/opentelemetry/exporters/fluentd/common/fluentd_common.h:240-249 | a pair comes back if and only if it is not (0, 0) or the clock is at the epoch |
| `EventTime.GetMsgPackEventTimeFromSystemTimestamp` | exporters/fluentd/src/log/recordable.cc:82-94 | splits with truncation, casts the seconds to 32 bits and encodes |
| `EventTime.TimestampRecoveredIff` | exporters/fluentd/src/log/recordable.cc:82-94 | a non-zero timestamp is recovered as seconds times 10^9 plus nanoseconds if and only if its seconds fit 32 bits |
| `EventTime.FirstSecondTooFar` | exporters/fluentd/src/log/recordable.cc:82-94 | the first second past 32 bits comes back 2^32 seconds early |
| `EventTime.EpochBecomesNow` | exporters/fluentd/include/opentelemetry/exporters/fluentd/common/fluentd_common.h:241-249 | the epoch itself is written as the time of writing, recovered exactly when that fits |

## Left out

- Attribute values enter the Geneva model as the text `AttributeValueToString` makes of them; the conversion of numbers to text is not modelled.
- Floating point: doubles are 64-bit words, conversions between doubles and integers are function parameters, and histogram boundaries enter as the words their casts give. Rounding is not modelled.
- The nested loops over scopes and metrics in the Geneva `Export` are one loop over the list of their points; the time stamp and name a point shares with its metric are part of the point.
- The Geneva `Export` with an invalid connection string, which has no transport, and the ETW, TCP and UDP transports are not modelled; the connection string is parsed as on a platform with Unix domain sockets.
- The decoder is strict: it rejects leftover bytes and an unknown trailer, where the repository's grammar for its tests is more lenient.
- Operating-system calls are adversaries that may answer anything their interfaces allow; real sockets, addresses, signals and blocking are not modelled. Fluentd is modelled over stream sockets only, and the descriptors its exporter leaves open are stated call by call, not counted over a run.
- MessagePack and JSON: the encoding is a function parameter, objects are maps whose touched keys are told apart from all others. An event has a text for a name, as `AddEvent` guarantees; the library throws for others.
- FluentdExporter.FluentdExporter.Regroup: the batch's pointers are released after the spans are filed rather than one by one in between, because nothing reads the batch meanwhile.
- Clocks are parameters; logging, printing, file output and environment variables are left out.
- `std::thread::hardware_concurrency()` may be 0, for which no thread is started; the barrier theorems are about at least one thread. The timing calls and the measured function between two waits do not touch the barrier and are left out. Mutual exclusion of the critical sections is assumed of the mutex.
- The SDK's runtime context, tracer and propagators are assumed to behave as the comments in `RequestLifecycle` say; span attributes, span names, links and propagation headers other than the parent span id are left out, and payloads are present or absent. Requests on one thread are served one after another; interleaving several is not modelled.
- The settings read at initialisation are one parameter; reading them, the logger's own set-up and the mutex around initialisation are left out. A child process after a fork is covered only by the process id check.
- BuildOrder.SolutionPrinter.BuildProject: does not model the endless recursion on a cyclic map, because that run has no result; the printed text is left out.
- Parsing of solution files, graph dumps and target names, and all other gyp scripts are left out.
- nginx pools, script engines and configuration merging other than custom attributes are left out; a script is a function from its pattern to a text or a failure.
- SpanNaming.FindNthSegment: does not model an empty text, whose first character the source reads although there is none; the unsigned segment counter is assumed not to wrap.
- SpanNaming.GetFirstNSegments: does not model an empty text, for the same reason.
- SpanNaming.GetLastNSegments: does not model an empty text, for the same reason.
- CustomNaming.SpanNamer.GetSpanName: does not model an empty text under a FIRST or LAST rule, for the same reason.
- `boost::lexical_cast` accepts signs; tokens with a sign are taken as non-numeric here, as the comment in `SpanNamingUtils.cpp` has it.
- `tolower` is modelled for ASCII letters.
- Log sinks, severity switches, other exporters, examples, the FFI demo and build scripts are left out: they are thin mappings.
