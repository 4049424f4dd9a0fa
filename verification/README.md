# A verified model of the headless agent runtime

The runtime keeps a knowledge graph, routes model requests through circuit breakers, parses streamed
replies, caches memories, indexes a repository, reads slash commands, selects context for prompts and cuts
source files into chunks. This project models those parts in Dafny and proves what each promises. Code that
updates objects in place is modelled by classes and loops proved against specification functions; what the
system promises is then proved about those functions, for all inputs, all runs or all interleavings.

| part | files |
|---|---|
| knowledge graph | `Graph`, `BreadthFirst`, `KnowledgeGraph` |
| model router | `CircuitBreaker`, `MetricsLedger`, `FallbackRouting`, `ModelRouter` |
| streamed replies | `Bytes`, `SseStream`, `JsonDelta`, `StreamedDeltas` |
| memory cache and record store | `Recency`, `RecordStore`, `MemoryCache`, `MemoryManager` |
| repository index | `Checksums`, `Tokenizer`, `SymbolTable`, `SymbolSearch`, `RankFusion`, `RepositoryIndex` |
| command line | `CommandLexer`, `CommandLine` |
| context selection | `ContextItems`, `ContextSelection`, `ContextEngine` |
| code chunks | `CodeChunker` |
| shared | `Wrappers`, `Sequences`, `Clock` |

`dafny verify dfyconfig.toml` checks everything. Clock readings, fresh identifiers, provider answers, received
byte chunks, the symbol parser, the test for a definition line and the BM25 values are parameters. The walk
over an unordered map, and the order that sorting gives to equal keys, are left open: a theorem holds for
every such order.

## What the code does not keep

Some promises hold only under a condition, which is stated exactly:

- A cooldown is in force only while at least three failures have been recorded since the count was last cleared (by a
  success, a passing health check or a reset) and the last report is not a failing health check, which marks even an
  offline provider as merely degraded. After every run of all operations, requests pass at any time if and only if
  that fails (`CircuitBreaker.AdmittedAtAnyTime`), a request inside the cooldown passes if and only if that fails
  (`CircuitBreaker.AdmittedInsideCooldown`), and while it holds admissions are a cooldown apart
  (`CircuitBreaker.AdmissionsSpaced`). `CircuitBreaker.CooldownLifted` gives the three runs that admit two requests
  at once.
- At most one request is in flight, over every interleaving of requests that begin and fail, if and only if the breaker
  is open and nothing but its probe is in flight (`CircuitBreaker.OneProbeAtATime`, for every consistent state). A
  success, any health check and a reset end this at once (`CircuitBreaker.ReliefAdmitsTwo`).
- A value larger than the memory limit is stored, evicted at once and replaced by a blank entry outside the
  recency list; cache and store agree on the key if and only if the value fits or is blank itself
  (`MemoryCache.StoredAgrees`).
- A string comes back from its escaped form if and only if no surrogate was written as an escape: the code writes each
  half of a surrogate pair on its own, which is no UTF-8 and two bytes too long. This is carried from the unescaper
  (`JsonDelta.UnescapeInverts`) through one chunk (`JsonDelta.DeltaRoundTrip`) to the whole stream
  (`StreamedDeltas.StreamDelivers`); `JsonDelta.PairMisread` is one such character.
- Postings survive reindexing and removal: a file is found for a term if and only if some content under that
  path held the term since the index was last cleared (`RepositoryIndexes.Index.PostingsOutlive`).
- No quoting makes an empty argument: tokens can be written as a line if and only if none is empty
  (`CommandLexer.WritableWhenNotEmpty`).
- Pinning an item, and setting its relevance, change a copy that neither selection nor eviction reads
  (`ContextEngines.MarkingChangesNoChoice`). In every reachable state an item is selected if and only if it fits at its
  turn (`ContextEngines.SelectedOnlyWhenItFits`), and evicted if and only if its place in the ranking is reached
  (`ContextEngines.EvictedOnlyByRank`), pinned or not. Examples are a pinned item that is left out
  (`ContextEngines.PinnedYetOmitted`), a pinned item that is evicted (`ContextEngines.PinnedYetEvicted`), and an item
  raised to full relevance that loses to one lowered to none (`ContextEngines.RaisedYetOmitted`).
- Truncating a text to a token limit meets the limit if and only if the text is empty, the limit is zero, or the text is
  shorter than four characters a token (`ContextItems.TruncationMeetsLimit`).
- The statistics go on counting the tokens and items of a conversation that has ended
  (`ContextEngines.ContextEngine.EndConversation`).
- The start line of a file's first chunk is the line its content starts on if and only if no later line of the chunk
  starts a definition (`CodeChunker.FirstStartIsRight`), and a chunk is labelled a function if and only if a definition is
  still open where it ends: never when it was cut because it closes one (`CodeChunker.KindOfChunk`).

## Model

| member | source | states |
|---|---|---|
| Graph.FileEdge | src/knowledge/KnowledgeGraph.cpp:56-61 | filing an edge keeps every edge under its own endpoint and adds exactly one occurrence of it to the bag of all edges |
| Graph.KeptInOrder | src/knowledge/KnowledgeGraph.cpp:27-43 | erasing the edges that fail a test leaves exactly those that pass it, in the same order |
| Graph.WithoutMirrored | src/knowledge/KnowledgeGraph.cpp:27-43 | removing a node keeps the outgoing and incoming maps mirror images and removes all incident edges and no other |
| Graph.LinkedLocally | src/knowledge/KnowledgeGraph.cpp:106-138 | under the mirror relation, the neighbours of an id in the undirected, filtered graph are exactly those shown by its own two lists |
| Graph.LinkedWhenJoined | src/knowledge/KnowledgeGraph.cpp:110-131 | without a filter two ids are linked if and only if some edge joins them, in either direction; with one, if and only if some joining edge has that relation |
| Graph.View.ReachesIsWithin | src/knowledge/KnowledgeGraph.cpp:89-142 | reachability by a walk of at most n links agrees with the level-by-level form the search uses |
| BreadthFirst.LevelsComplete | src/knowledge/KnowledgeGraph.cpp:100-139 | while the search is at depth d, every id within distance d has been discovered |
| BreadthFirst.Discover | src/knowledge/KnowledgeGraph.cpp:112-119 | a newly visited neighbour lies at exactly one level more than the entry being expanded, and the queue stays ordered by exact distance |
| BreadthFirst.Finished | src/knowledge/KnowledgeGraph.cpp:100-139 | when the queue is empty the discovered ids are exactly those within the bound |
| BreadthFirst.LogFits | src/knowledge/KnowledgeGraph.cpp:94-100 | no more ids are ever queued than the graph has endpoints, which makes the search terminate |
| KnowledgeGraphs.ReportedIsRelated | src/knowledge/KnowledgeGraph.cpp:89-142 | the reported nodes are exactly the registered ones other than the start reachable within the bound, each once, nearer first |
| KnowledgeGraphs.NeighboursReported | src/knowledge/KnowledgeGraph.cpp:89-142 | an unfiltered search of any depth but zero reports every registered neighbour of the start |
| KnowledgeGraphs.FilteredNeighbours | src/knowledge/KnowledgeGraph.cpp:89-142 | a search of depth one with a filter reports exactly the registered nodes that an edge of that relation joins to the start |
| KnowledgeGraphs.LessThanASecondLost | src/knowledge/KnowledgeGraph.cpp:188 | a creation time that is exported and imported loses less than a second, toward zero |
| KnowledgeGraphs.KnowledgeGraph.AddNode | src/knowledge/KnowledgeGraph.cpp:14-18 | enters or replaces one node and leaves all edges |
| KnowledgeGraphs.KnowledgeGraph.AddEdge | src/knowledge/KnowledgeGraph.cpp:56-61 | appends the edge to both lists, keeps them mirrored, and adds it once to the bag |
| KnowledgeGraphs.KnowledgeGraph.RemoveNode | src/knowledge/KnowledgeGraph.cpp:27-43 | the node and exactly its incident edges go; the other lists keep their order; the mirror holds |
| KnowledgeGraphs.KnowledgeGraph.Clear | src/knowledge/KnowledgeGraph.cpp:248-253 | everything is emptied |
| KnowledgeGraphs.KnowledgeGraph.EdgeCount | src/knowledge/KnowledgeGraph.cpp:260-267 | the count is the number of edges, and the same by either map |
| KnowledgeGraphs.KnowledgeGraph.FindRelatedEntities | src/knowledge/KnowledgeGraph.cpp:89-142 | the search terminates and returns what IsRelated promises, including paths through unregistered ids; without a filter every registered neighbour is among the results, with one and depth one nothing but what an edge of that relation joins to the start |
| KnowledgeGraphs.KnowledgeGraph.Expand | src/knowledge/KnowledgeGraph.cpp:106-138 | scanning one edge list leaves visited the far ends of all its edges, or of those of the relation asked for, and the search invariant intact |
| KnowledgeGraphs.KnowledgeGraph.Export | src/knowledge/KnowledgeGraph.cpp:177-207 | every node once with whole seconds; for every source its edges in list order |
| KnowledgeGraphs.KnowledgeGraph.Import | src/knowledge/KnowledgeGraph.cpp:209-246 | the last record of an id wins; both lists select the edge records in order; the mirror holds |
| KnowledgeGraphs.LastRecordCounts | src/knowledge/KnowledgeGraph.cpp:209-225 | an imported id is one that some record has, and its node is that of the last such record, its seconds turned into nanoseconds |
| KnowledgeGraphs.ImportOfExport | src/knowledge/KnowledgeGraph.cpp:177-246 | importing an export gives back nodes (up to whole seconds), outgoing lists in order, incoming lists as bags, and both counts |
| CircuitBreaker.AlwaysConsistent | src/providers/ModelRouter.cpp:103-208 | after every run of all operations: healthy means no failures and no probe, half-open means at least three failures and a probe, offline means at least three failures and no probe |
| CircuitBreaker.DeterminedWithoutBadChecks | src/providers/ModelRouter.cpp:103-190 | without failing health checks the status is a function of failure count and probe flag over every run |
| CircuitBreaker.StatusFromHistory | src/providers/ModelRouter.cpp:103-208 | after every run of requests, successes, failures, health checks and resets, the status is a function of the last report, the failures since the count was cleared, and whether a request has come a cooldown after the last failure |
| CircuitBreaker.RecordFromHistory | src/providers/ModelRouter.cpp:130-190 | after every run the times of the last failure and success and the last error are those of the history |
| CircuitBreaker.AdmittedAtAnyTime | src/providers/ModelRouter.cpp:103-128 | after every run, requests pass at any time if and only if there are fewer than three failures since the count was cleared or the last report is a failing health check |
| CircuitBreaker.AdmittedInsideCooldown | src/providers/ModelRouter.cpp:109-121 | after every run, a request inside the cooldown of the last failure passes if and only if the same condition holds |
| CircuitBreaker.AdmissionsSpaced | src/providers/ModelRouter.cpp:103-128 | over every run of all operations, a request let through under no such condition comes at least a cooldown after every earlier admission |
| CircuitBreaker.CooldownLifted | src/providers/ModelRouter.cpp:312-326 | right after a third failure, a health check of either outcome and a reset each admit two requests at once, where otherwise none would pass |
| CircuitBreaker.OfflineUntilCooldown | src/providers/ModelRouter.cpp:109-122 | after every run, an offline provider is admitted if and only if the cooldown has passed since its last failure |
| CircuitBreaker.FailedProbeReopens | src/providers/ModelRouter.cpp:172-190 | after every run, a probe that fails puts the provider offline, and then a request passes if and only if a full cooldown is over |
| CircuitBreaker.OneProbeAtATime | src/providers/ModelRouter.cpp:103-128 | from every consistent state, at most one call is in flight over every interleaving of requests that begin and fail if and only if the breaker is open with nothing but its probe in flight |
| CircuitBreaker.ReliefAdmitsTwo | src/providers/ModelRouter.cpp:299-326 | after a success, a health check or a reset two calls can be in flight |
| CircuitBreaker.ConsistentRun | src/providers/ModelRouter.cpp:103-208 | every state of every run of threads, health checks and resets is consistent |
| CircuitBreaker.ProbeJoinsStraggler | src/providers/ModelRouter.cpp:109-121 | with a call left over from before the breaker opened there is a run with two calls in flight |
| MetricsLedger.StepContributes | src/providers/ModelRouter.h:56-72 | each atomic step, including every outcome of the compare-exchange, moves a ledger by exactly its own contribution |
| MetricsLedger.AlwaysAccounted | src/providers/ModelRouter.h:56-72 | under every interleaving every ledger holds exactly what the operations have contributed so far; no latency update is lost |
| MetricsLedger.RequestsBalance | src/providers/ModelRouter.h:56-72 | at every moment, on the global ledger and on each provider's, requests are successes plus failures plus the operations between their two adds there |
| MetricsLedger.QuiescentTotals | src/providers/ModelRouter.cpp:141-153 | when all operations are done every global counter and the latency equal the full record and the sum over the provider ledgers |
| MetricsLedger.RecordedRequests | src/providers/ModelRouter.cpp:141-194 | the full record counts each operation as one request, and each as a success or a failure |
| MetricsLedger.RecordedUsage | src/providers/ModelRouter.cpp:141-153 | a success adds its prompt, completion and total tokens and its latency to the record; a failure adds nothing to these |
| MetricsLedger.ExactBelowWord | src/providers/ModelRouter.h:56-72 | when all operations are done, a counter whose record is below 2^64 holds exactly that record |
| FallbackRouting.ChainShape | src/providers/ModelRouter.cpp:222-232 | the initial provider is first and only there; the others follow as often and in the order they are listed |
| FallbackRouting.RecordedAtOnce | src/providers/ModelRouter.cpp:141-153 | recording a reply in one go adds what its atomic steps add together |
| FallbackRouting.Routing.HealthIsHistory | src/providers/ModelRouter.cpp:217-291 | after any prefix of a routing, each provider's health record is what the breaker makes of the requests, successes and failures there that concern it |
| FallbackRouting.Routing.DispatchedWhenAdmitted | src/providers/ModelRouter.cpp:236-256 | a position is contacted if and only if its provider is registered and its breaker, with that history, lets the request through |
| FallbackRouting.Routing.ContactedAre | src/providers/ModelRouter.cpp:236-285 | the positions contacted are exactly those, in order, and the last error is that of the last of them |
| FallbackRouting.Routing.OutcomeMeans | src/providers/ModelRouter.cpp:236-291 | every position contacted but the last has failed; the reply is that of the last if it succeeded, else every admitted position was contacted in vain and the last error is passed on |
| FallbackRouting.Routing.LedgersRecordDispatches | src/providers/ModelRouter.cpp:236-291 | every ledger holds what it held before and the full record of the dispatches that concern it |
| FallbackRouting.Routing.OneFailurePerDispatch | src/providers/ModelRouter.cpp:236-285 | until someone serves, a provider's failure count has grown by its dispatches |
| FallbackRouting.Routing.OneLedgerFailurePerDispatch | src/providers/ModelRouter.cpp:192-194 | likewise for the failures in the provider's ledger |
| FallbackRouting.Routing.GlobalFailures | src/providers/ModelRouter.cpp:192-194 | the global ledger has counted one failure per contacted position and no success |
| FallbackRouting.Routing.OthersUntouched | src/providers/ModelRouter.cpp:236-285 | a provider that no visited position names keeps its health record and ledger |
| FallbackRouting.Routing.KeepsConsistent | src/providers/ModelRouter.cpp:236-285 | routing keeps every health record consistent |
| ModelRouters.ModelRouter.RegisterProvider | src/providers/ModelRouter.cpp:53-60 | registers the name with a fresh health record, and its history begins anew |
| ModelRouters.ModelRouter.ResetHealth | src/providers/ModelRouter.cpp:323-326 | replaces one health record by a fresh one, and the reset joins its history |
| ModelRouters.Remembered | src/providers/ModelRouter.cpp:103-208 | an event after which the record is the one the breaker moves to keeps the records of all providers those of their histories |
| ModelRouters.ModelRouter.ShouldAttempt | src/providers/ModelRouter.cpp:103-128 | answers as the breaker does, makes no record for an unknown provider, and moves the record by one request; inside the cooldown of the last failure the answer is yes if and only if the history lifts the cooldown |
| ModelRouters.ModelRouter.RecordSuccess | src/providers/ModelRouter.cpp:130-153 | the record moves by one success, which closes the breaker, and both ledgers count the reply |
| ModelRouters.ModelRouter.RecordFailure | src/providers/ModelRouter.cpp:172-194 | the record moves by one failure, which leaves the provider offline if and only if at least two failures have been recorded since the count was cleared, and both ledgers count it |
| ModelRouters.ModelRouter.CheckHealthAll | src/providers/ModelRouter.cpp:299-321 | exactly the registered providers' records and histories grow, each by its own answer |
| ModelRouters.ModelRouter.BuildChain | src/providers/ModelRouter.cpp:222-232 | the loop builds the chain that ChainShape describes |
| ModelRouters.ModelRouter.RouteWithFallback | src/providers/ModelRouter.cpp:217-291 | the reply is that of the first position admitted, registered and successful; nothing later is contacted; it fails exactly when no position serves, with the last error; each provider's history grows by what the visited positions are for it, and its record stays that of its history |
| SseStream.SplitIsUnique | src/network/HttpClient.cpp:82-93 | the split is the one way to write the bytes as newline-ended lines and an unfinished one |
| SseStream.SplitAppend | src/network/HttpClient.cpp:72-78 | splitting in two parts with the unfinished line carried over equals splitting the whole |
| SseStream.EveryLineIsSent | src/network/HttpClient.cpp:95-115 | every line is of one of four kinds: data, the end marker, a line that starts with a brace, or another, each ended by a newline or a carriage return and a newline |
| SseStream.LineDelivers | src/network/HttpClient.cpp:95-115 | ended either way, a data line delivers its data, a line that starts with a brace delivers itself, and the end marker and other lines deliver nothing |
| SseStream.OneMoreLine | src/network/HttpClient.cpp:80-122 | behind complete lines one more line appends exactly its delivery |
| SseStream.StreamOfLines | src/network/HttpClient.cpp:80-122 | a stream of lines of any kinds delivers what they deliver, in order |
| SseStream.StreamReader.ProcessSseBuffer | src/network/HttpClient.cpp:62-123 | however the bytes so far were cut, the payloads emitted are those of all complete lines and the carry-over is the unfinished line |
| SseStream.StreamReader.ScanLines | src/network/HttpClient.cpp:80-122 | the line loop emits the payloads of the complete lines of the bytes at hand and leaves the rest |
| SseStream.StreamReader.Emit | src/network/HttpClient.cpp:95-115 | one line delivers its payload unless it is neither data nor starts with a brace, or is the end marker |
| SseStream.StreamReader.ReadChunks | src/network/HttpClient.cpp:62-123 | a sequence of calls equals one call on the joined chunks |
| SseStream.StreamReader.ReceiveAll | src/network/HttpClient.cpp:389-409 | what is parsed is the body after the first header terminator, wherever receives fall |
| SseStream.BodyGrows | src/network/HttpClient.cpp:398-408 | once the terminator has arrived the body only grows, also when a receive splits the terminator |
| SseStream.BodyBehindHeader | src/network/HttpClient.cpp:398-408 | the body is what stands behind the first blank line, and nothing before that has come |
| JsonDelta.EncodingIsUtf8 | src/providers/ModelProvider.cpp:37-46 | the encoding in one to four bytes meets the grammar of section 4 of RFC 3629 for every code point but the surrogates |
| JsonDelta.Utf8Correct | src/providers/ModelProvider.cpp:37-46 | the bytes written for four digits are that encoding, which is UTF-8 if and only if the code point is no surrogate |
| JsonDelta.UnescapeJsonString | src/providers/ModelProvider.cpp:12-63 | the loop computes the unescaped text |
| JsonDelta.NothingToUnescape | src/providers/ModelProvider.cpp:96-101 | without a backslash the fast path equals the slow one |
| JsonDelta.UnescapeWritten | src/providers/ModelProvider.cpp:12-63 | on every escaping allowed by section 7 of RFC 8259 the loop writes each piece's output in order |
| JsonDelta.EscapesAllowed | src/providers/ModelProvider.cpp:12-63 | the eight letters of section 7 of RFC 8259 that may stand behind a backslash, besides `u` |
| JsonDelta.OutputExceeds | src/providers/ModelProvider.cpp:12-63 | without surrogates the output is the string denoted; with them it is two bytes longer for each pair |
| JsonDelta.UnescapeInverts | src/providers/ModelProvider.cpp:12-63 | unescaping gives back the string denoted, with surrogate pairs joined, if and only if no surrogate was written as an escape |
| JsonDelta.PairMisread | src/providers/ModelProvider.cpp:27-47 | a character beyond the first 65536, written as a pair, comes out as six bytes instead of four |
| JsonDelta.StrayEscapes | src/providers/ModelProvider.cpp:12-63 | outside the grammar: a final backslash stays, one before a letter without meaning goes, a `u` with too little behind it stays, and what is no digit counts as zero |
| JsonDelta.ScanFindsQuote | src/providers/ModelProvider.cpp:82-94 | the scan stops at the first quotation mark behind an even number of backslashes, or there is none |
| JsonDelta.ScanValue | src/providers/ModelProvider.cpp:82-93 | the loop stops where the scan does, and reports no escapes only if no backslash was passed |
| JsonDelta.ExtractDeltaContent | src/providers/ModelProvider.cpp:65-102 | finds the value that Extract defines for the content key |
| JsonDelta.ExtractAnthropicTextDelta | src/providers/ModelProvider.cpp:104-141 | the same for the text key |
| JsonDelta.ExtractLocates | src/providers/ModelProvider.cpp:65-102 | a value is found if and only if the first key is followed, up to white space, by a colon and a closed string, and is what that string stands for |
| JsonDelta.KeysAndSpaces | src/providers/ModelProvider.cpp:65-81 | the keys as text, and the four characters that count as white space around the colon |
| JsonDelta.ReadString | src/providers/ModelProvider.cpp:82-101 | finds the closed string at a position and returns what it stands for |
| JsonDelta.DeltaRoundTrip | src/providers/ModelProvider.cpp:65-102 | a string escaped in any way as the value of the first key is found, and is the string denoted if and only if no surrogate was written as an escape |
| StreamedDeltas.ChatStream | src/providers/ModelProvider.cpp:265-292 | the tokens delivered are those of the payloads of the body's lines |
| StreamedDeltas.WireDelivers | src/providers/ModelProvider.cpp:265-292 | a stream of events, as data lines or as bare lines of JSON, delivers one token each, and exactly the strings denoted if and only if no surrogate was written as an escape in any |
| StreamedDeltas.FallbackToken | src/providers/ModelProvider.cpp:265-292 | a payload that the scanner gives up on yields what the JSON library finds in it, or nothing |
| StreamedDeltas.StreamDelivers | src/network/HttpClient.cpp:389-409 | from header to tokens: however the response is received in pieces, the strings the server escaped come out in order if and only if no surrogate was written as an escape |
| Recency.LinkedKeys | src/memory/memory.cpp:30-42 | the recency list has no duplicate and lists exactly the keys of the iterator map, each iterator at its own cell |
| Recency.LastUseIs | src/memory/memory.cpp:33-42 | the last use of a key is the last position at which it was used |
| Recency.EraseKeepsList | src/memory/memory.cpp:44-50 | erasing through the iterator removes that key only and keeps the order of last use |
| Recency.PushKeepsList | src/memory/memory.cpp:33-42 | using a key puts it in front and keeps the list in order of last use |
| MemoryCache.CounterIsSum | src/memory/memory.cpp:121-161 | the byte counter is the sum of the sizes of all entries |
| MemoryCache.SizeIsTextLength | src/memory/memory.cpp:127-130 | the size of an entry that is not blank is the length of its key, value, category and tags written one after another |
| MemoryCache.CounterIsText | src/memory/memory.cpp:121-161 | the byte counter is the length of all such text in the cache |
| MemoryCache.RemoveSound | src/memory/memory.cpp:252-289 | taking an entry out never underflows the counter and keeps it exact |
| MemoryCache.SurvivorsMost | src/memory/memory.cpp:549-560 | what eviction leaves fits the limit, and one key more would not have |
| MemoryCache.FrontSurvives | src/memory/memory.cpp:549-560 | the most recent key survives if and only if its own size fits |
| MemoryCache.StoredStays | src/memory/memory.cpp:121-166 | the stored key stays in front when it fits, else a blank entry is left and nothing is listed |
| MemoryCache.StoredAgrees | src/memory/memory.cpp:163-174 | after storing, cache and store agree on the key if and only if the value fitted or is blank |
| MemoryCache.CachedIsStored | src/memory/memory.cpp:163-174 | a cached entry that is not blank has the value, category and tags of its record |
| MemoryManagers.FilledHolds | src/memory/memory.cpp:132-160 | a value stored under a known key keeps the identifier, creation time and use count of the entry, and under a new key makes a new one |
| MemoryManagers.ExpiredAfter | src/memory/memory.cpp:370-391 | what compaction drops are the session entries used less than twice and not for twenty-five hours |
| MemoryManagers.MemoryManager.UpdateAccessOrder | src/memory/memory.cpp:33-42 | the key moves to the front and the others keep their order |
| MemoryManagers.MemoryManager.RemoveAccessOrder | src/memory/memory.cpp:44-50 | exactly the key leaves the list and the iterator map |
| MemoryManagers.MemoryManager.EvictIfNeeded | src/memory/memory.cpp:549-560 | terminates within the limit, having cut exactly the shortest least recently used part that suffices |
| MemoryManagers.MemoryManager.Store | src/memory/memory.cpp:121-177 | new cache, recency list and record after eviction and write-through; usage is the length of all text that is cached, and within the limit |
| MemoryManagers.MemoryManager.Retrieve | src/memory/memory.cpp:222-235 | a hit on an entry that is not blank agrees with the record store and becomes most recent |
| MemoryManagers.MemoryManager.RetrieveFrom | src/memory/memory.cpp:237-250 | likewise when the category matches: value and category agree with the record store |
| MemoryManagers.MemoryManager.Touch | src/memory/memory.cpp:494-501 | a cached key becomes most recent; others nothing |
| MemoryManagers.MemoryManager.Remove | src/memory/memory.cpp:252-266 | a cached key goes from cache, list and store; the record of an evicted key stays |
| MemoryManagers.MemoryManager.KeysOf | src/memory/memory.cpp:271-276 | the walk collects exactly the keys of the category |
| MemoryManagers.MemoryManager.ClearCategory | src/memory/memory.cpp:268-289 | exactly the category goes from cache and store, which stay coherent |
| MemoryManagers.MemoryManager.Compact | src/memory/memory.cpp:370-391 | exactly the expired session entries go |
| MemoryManagers.MemoryManager.SetMemoryLimit | src/memory/memory.cpp:359-363 | the cache is cut to the new limit |
| MemoryManagers.MemoryManager.GetMemoryUsage | src/memory/memory.cpp:365-368 | the usage reported is the length of the keys, values, categories and tags of all entries that are not blank |
| RecordStore.DatabaseEngine.SaveMemory | src/database/DatabaseEngine.cpp:97-102 | enters or replaces the record of its key |
| RecordStore.DatabaseEngine.GetMemory | src/database/DatabaseEngine.cpp:104-113 | the record of the key, if the category matches or is empty |
| RecordStore.DatabaseEngine.DeleteMemory | src/database/DatabaseEngine.cpp:135-140 | erases the record and says whether there was one |
| RecordStore.DatabaseEngine.ClearCategory | src/database/DatabaseEngine.cpp:142-153 | the erasing walk leaves exactly the records of other categories |
| Checksums.MultiplyUndone | src/parser/ASTParser.cpp:34 | multiplying by the prime modulo 2^64 is undone by its inverse |
| Checksums.StepInjective | src/parser/ASTParser.cpp:32-35 | one hash step is injective in the state and in the byte |
| Checksums.OneByteChangesHash | src/parser/ASTParser.cpp:30-35 | contents that differ in one byte have different hashes |
| Checksums.ReadPrint | src/parser/ASTParser.cpp:36-38 | the padded print can be read back, so it is injective |
| Checksums.PrintLength | src/parser/ASTParser.cpp:36-38 | every hash prints with sixteen digits |
| Checksums.ComputeHash | src/parser/ASTParser.cpp:31-35 | the loop computes the hash |
| Checksums.ComputeChecksum | src/parser/ASTParser.cpp:30-39 | the loop and the print compute the checksum |
| Checksums.OneByteChangesChecksum | src/parser/ASTParser.cpp:30-39 | a one-byte substitution always changes the checksum |
| Checksums.HashIsFnv | src/parser/ASTParser.cpp:30-35 | each byte is mixed in by exclusive or, digit by digit, before the product with the prime modulo 2^64, from the published start value |
| Checksums.PublishedValues | src/parser/ASTParser.cpp:30-35 | the published hashes of nothing and of the letter a |
| Checksums.ChecksumIsHexadecimal | src/parser/ASTParser.cpp:36-38 | each digit of the checksum is the lower-case hexadecimal digit of its weight in the hash |
| Tokenizer.Tokenize | src/repository/RepositoryIndex.cpp:21-38 | one token for each maximal run of at least two letters, digits or underscores, in order: its text with capitals folded |
| Tokenizer.TokenRuns | src/repository/RepositoryIndex.cpp:21-38 | the tokens are those of the runs, none is missing and none is cut, in order |
| Tokenizer.LowerFolds | src/repository/RepositoryIndex.cpp:26 | folding keeps the length and every byte but the capitals, and leaves no capital |
| Tokenizer.SameWhenFolded | src/repository/RepositoryIndex.cpp:70-73 | two texts fold to the same if and only if they agree, position by position, up to the case of letters |
| RepositoryIndexes.ClearedAgrees | src/repository/RepositoryIndex.cpp:52-61 | purging a file's old symbols makes the table equal to a scan of the other files |
| RepositoryIndexes.PushedAllAgree | src/repository/RepositoryIndex.cpp:69-74 | registering the new symbols makes the table equal to a scan of all files with the new parse |
| SymbolTable.ListedExactly | src/repository/RepositoryIndex.cpp:203-214 | under a name a symbol is listed as often as its file's parse holds it |
| SymbolTable.KeptInOrder | src/repository/RepositoryIndex.cpp:52-61 | erasing symbols from a list leaves exactly those that pass the test, in the same order |
| SymbolTable.Purge | src/repository/RepositoryIndex.cpp:52-61 | under every name in its old parse the file's entries go and the other entries of the list stay in place; other lists do not change |
| SymbolTable.Push | src/repository/RepositoryIndex.cpp:69-74 | each list is followed by the new symbols of its name, in order |
| SymbolTable.CountTerms | src/repository/RepositoryIndex.cpp:98-102 | the term frequencies are the exact multiplicities of the tokens |
| SymbolTable.PostTerms | src/repository/RepositoryIndex.cpp:98-106 | each term of the content gets its exact number of occurrences; all other postings stay |
| SymbolSearch.ScanOneMore | src/repository/RepositoryIndex.cpp:321-337 | weighing one more name of the table adds its weight once per symbol of that name |
| SymbolSearch.ScoreToken | src/repository/RepositoryIndex.cpp:321-337 | scoring through the table equals a scan of every file's own symbols |
| SymbolSearch.ScoredWhenNamed | src/repository/RepositoryIndex.cpp:318-337 | a file has a symbol score if and only if one of its names contains a query token |
| SymbolSearch.ScanFileCounts | src/repository/RepositoryIndex.cpp:321-337 | in one file a token scores ten for each symbol of that name and three for each whose name holds it and more |
| SymbolSearch.SymbolScoresAdd | src/repository/RepositoryIndex.cpp:317-337 | over several tokens symbol scores add up |
| SymbolSearch.ScoreSymbols | src/repository/RepositoryIndex.cpp:317-337 | the scores of all tokens add up, file by file |
| SymbolSearch.ScoreTerms | src/repository/RepositoryIndex.cpp:303-312 | exactly the files posted for a query token get a score, the sum of their values |
| SymbolSearch.LexicalScoresAdd | src/repository/RepositoryIndex.cpp:303-312 | a token adds its value where it is posted, and over several tokens values add up |
| RankFusion.RankByScore | src/repository/RepositoryIndex.cpp:314-315 | every scored file once, none behind a lower score |
| RankFusion.Fuse | src/repository/RepositoryIndex.cpp:342-351 | each file's fused score is the sum of its reciprocal ranks |
| RankFusion.ScoreByPlaces | src/repository/RepositoryIndex.cpp:342-351 | place r of the lexical ranking, from zero, adds 1/(61+r), and place q of the symbol ranking 1.5/(61+q) |
| RankFusion.DominantScoresHigher | src/repository/RepositoryIndex.cpp:342-351 | a file no worse in both rankings and better in one scores strictly higher |
| RankFusion.DominantComesFirst | src/repository/RepositoryIndex.cpp:342-358 | and precedes the other in the results |
| RankFusion.FuseAndRank | src/repository/RepositoryIndex.cpp:342-362 | no duplicates, sorted, at most the number asked for, no omitted file scores above a returned one, and each returned file has its fused score |
| RepositoryIndexes.Index.SubstitutionIsNoticed | src/repository/RepositoryIndex.cpp:43-49 | a one-byte substitution is never skipped as up to date |
| RepositoryIndexes.Index.SameContentIsSkipped | src/repository/RepositoryIndex.cpp:43-49 | a new path is always indexed, and an indexed content that comes again never |
| RepositoryIndexes.Index.PostingsComplete | src/repository/RepositoryIndex.cpp:94-106 | every indexed file has a posting with the exact count for every term of its content |
| RepositoryIndexes.Index.PostingsOutlive | src/repository/RepositoryIndex.cpp:174-190 | a file is posted for a term if and only if some content under that path held it since the last clearing |
| RepositoryIndexes.RemovedFileStaysPosted | src/repository/RepositoryIndex.cpp:174-190 | a removed file goes on being found for its terms |
| RepositoryIndexes.IndexedStays | src/repository/RepositoryIndex.cpp:40-92 | indexing a file keeps the symbol table equal to a scan of all files, the lengths equal to the token counts and the postings as the history gives them; in every list the file's new symbols come last and the others stay in place |
| RepositoryIndexes.RemovedStays | src/repository/RepositoryIndex.cpp:174-190 | removing a file keeps the same |
| RepositoryIndexes.RepositoryIndex.IndexFile | src/repository/RepositoryIndex.cpp:40-92 | reindexes if and only if the file is new or its checksum differs, else changes nothing; contents, symbol lists and postings are those of the new content, and the index stays consistent |
| RepositoryIndexes.RepositoryIndex.RemoveFile | src/repository/RepositoryIndex.cpp:174-190 | the file goes, the postings stay, and the index stays consistent |
| RepositoryIndexes.RepositoryIndex.Clear | src/repository/RepositoryIndex.cpp:192-201 | the index is empty and its history begins anew |
| RepositoryIndexes.RepositoryIndex.FindSymbol | src/repository/RepositoryIndex.cpp:203-225 | the result is a permutation of the matching symbols in a scan of all indexed files: those whose name is, or holds, the one asked for up to the case of letters |
| RepositoryIndexes.FoundUpToCase | src/repository/RepositoryIndex.cpp:203-225 | folded names match if and only if the names agree, or one holds the other, up to the case of letters |
| RepositoryIndexes.SnippetIsBeginning | src/repository/RepositoryIndex.cpp:360-378 | a snippet is the beginning of the content, at most two hundred bytes and all of a shorter one |
| RepositoryIndexes.RankedWithinHistory | src/repository/RepositoryIndex.cpp:303-339 | only files that have been indexed since the last clearing are ranked |
| RepositoryIndexes.SharedAreFound | src/repository/RepositoryIndex.cpp:297-358 | with room for every path indexed since the last clearing, every indexed file that holds a query token is among the results |
| RepositoryIndexes.RepositoryIndex.SearchCode | src/repository/RepositoryIndex.cpp:297-381 | the results fuse a ranking of exactly the posted files and one of exactly the files with a matching symbol, each with its fused score and the start of its content; with room for every path indexed since the last clearing, none that holds a query token is missing |
| CommandLexer.EveryLineReads | src/cli/CommandRegistry.cpp:1153-1199 | every line is quoted, escaped and plain elements and white space, with at most one of them left open at its end |
| CommandLexer.ReadingIsUnique | src/cli/CommandRegistry.cpp:1153-1199 | and in one way only: reading what a reading renders gives it back |
| CommandLexer.Tokenize | src/cli/CommandRegistry.cpp:1153-1199 | the automaton yields the nonempty words of the line's reading |
| CommandLexer.WordsComeBack | src/cli/CommandRegistry.cpp:1153-1199 | words separated by spaces yield their values however they are quoted and escaped, empty ones being dropped |
| CommandLexer.EscapedLineYields | src/cli/CommandRegistry.cpp:1153-1199 | any list of nonempty tokens can be written as a line that yields exactly it |
| CommandLexer.WritableWhenNotEmpty | src/cli/CommandRegistry.cpp:1179-1196 | a list of tokens can be written as some line if and only if none of them is empty |
| CommandLexer.SpaceSeparates | src/cli/CommandRegistry.cpp:1153-1199 | white space outside of quotes separates: the words of the line before it are followed by those of the line behind it |
| CommandLexer.QuotesMean | src/cli/CommandRegistry.cpp:1153-1199 | single quotes keep every character, double quotes all but the backslash, a backslash gives the character behind it, and each extends the last word |
| CommandLexer.LineEnds | src/cli/CommandRegistry.cpp:1153-1199 | a quote left open ends with the line as if closed, and a last backslash is dropped |
| CommandLine.ParseFlags | src/cli/CommandRegistry.cpp:1201-1234 | the positional arguments and flags are those of the tokens' roles |
| CommandLine.LastFlagWins | src/cli/CommandRegistry.cpp:1201-1234 | a key is set if and only if a flag token names it, and the last such token decides its value |
| CommandLine.EachTokenUsedOnce | src/cli/CommandRegistry.cpp:1201-1234 | every token is used once, as a flag, as the value of the flag before it, or as a positional argument |
| CommandLine.CommandContext.Dispatch | src/cli/CommandRegistry.cpp:1236-1275 | nothing for an empty line, a task for `run` without a slash, else the named command with its arguments and flags; when the context keeps stale values |
| CommandLine.ArgumentsParse | src/cli/CommandRegistry.cpp:1201-1234 | words come back in order and flags as a map, the last of a key counting: inline values, values in the next token, and `true` for a flag without one, with two dashes or one |
| CommandLine.EveryTokenReads | src/cli/CommandRegistry.cpp:1201-1234 | every list of nonempty tokens is such a list of words and flags, so that is all that can be given |
| CommandLine.FlagForms | src/cli/CommandRegistry.cpp:1201-1234 | the five forms of one flag, in characters, and what each sets |
| CommandLine.CommandComesBack | src/cli/CommandRegistry.cpp:1153-1275 | a slash command in any quoting is read back as its name, words and flags |
| CommandLine.EscapedCommandComesBack | src/cli/CommandRegistry.cpp:1153-1275 | escaping every character is one such quoting |
| ContextItems.TruncationMeetsLimit | src/context/ContextEngine.cpp:768-776 | a truncated text meets its token limit if and only if it is empty, the limit is zero, or it was shorter than the cut |
| ContextItems.CountersEstimate | src/context/ContextEngine.cpp:748-755 | in every consistent state four times a conversation's counter is at least its characters and at most four more for each item; likewise the total and what it has lost |
| ContextItems.TokensEstimate | src/context/ContextEngine.cpp:748-755 | the same of any table whose items were counted |
| ContextItems.GeneratedIdsDiffer | src/context/ContextEngine.cpp:832-837 | different counters give different identifiers whatever the clock says |
| ContextItems.AddKeeps | src/context/ContextEngine.cpp:181-205 | a new item has an identifier no item has, and every account stays exact |
| ContextItems.MarkKeeps | src/context/ContextEngine.cpp:358-380 | changing relevance or pin of a common copy keeps every account exact |
| ContextItems.TokensWithout | src/context/ContextEngine.cpp:128-131 | erasing a conversation's items from the common table takes out exactly their tokens and their number |
| ContextItems.EndKeeps | src/context/ContextEngine.cpp:128-135 | ending a conversation keeps the accounts exact but for the totals, which keep its tokens and items |
| ContextItems.RemoveKeeps | src/context/ContextEngine.cpp:341-353 | removing an item keeps the accounts exact and underflows neither counter |
| ContextItems.AddEnters | src/context/ContextEngine.cpp:198-205 | a new item is in its conversation and in the common table, counted once in each, and nothing else changes |
| ContextItems.StartAndEnd | src/context/ContextEngine.cpp:97-142 | a conversation starts empty, and one that ends takes out exactly its items |
| ContextItems.RemoveTakes | src/context/ContextEngine.cpp:341-353 | removing takes out the one item and its tokens |
| ContextSelection.RankItems | src/context/ContextEngine.cpp:934-947 | every item once, pinned first and then by relevance |
| ContextSelection.RanksMean | src/context/ContextEngine.cpp:939-947 | in a prompt's ranking pinned items stand before unpinned ones, and more relevant before less relevant ones pinned alike; for eviction relevance never falls |
| ContextSelection.Select | src/context/ContextEngine.cpp:949-958 | the loop selects the items that fit at their turn and the pinned ones |
| ContextSelection.WithinLimit | src/context/ContextEngine.cpp:949-958 | the selection exceeds the limit by exactly the pinned items that did not fit |
| ContextSelection.SelectedWhen | src/context/ContextEngine.cpp:949-958 | an item is selected if and only if it fits at its turn or is pinned |
| ContextSelection.SelectionIsMaximal | src/context/ContextEngine.cpp:949-958 | no item that did not fit could be added at the end, and none is passed over for a lower-ranked one at least as large |
| ContextSelection.PrefixEvicts | src/context/ContextEngine.cpp:891-921 | evicting in ranking order until low enough takes only unpinned items, none more relevant than one left, no more than needed, and all when that is not enough |
| ContextSelection.EvictedByRank | src/context/ContextEngine.cpp:906-921 | the item at a position of the ranking goes if and only if the counter is above budget and no removal before it has brought it down far enough |
| ContextSelection.LowIsNineTenths | src/context/ContextEngine.cpp:908 | low enough is at most nine tenths of the budget |
| ContextSelection.EvictionTakes | src/context/ContextEngine.cpp:906-921 | eviction takes its items out of both tables and their tokens off both counters, and changes nothing else |
| ContextEngines.ContextEngine.StartConversation | src/context/ContextEngine.cpp:97-117 | an empty conversation with an identifier that no started conversation and no item has |
| ContextEngines.ContextEngine.EndConversation | src/context/ContextEngine.cpp:119-142 | the conversation and its items go; the totals are not reduced |
| ContextEngines.ContextEngine.AddMessage | src/context/ContextEngine.cpp:173-210 | a known conversation gains one item with the message's token count |
| ContextEngines.ContextEngine.AddContextItem | src/context/ContextEngine.cpp:256-316 | any conversation gains one item with an identifier no item has |
| ContextEngines.InitialRelevances | src/context/ContextEngine.cpp:277-290 | a symbol starts at 0.8, a dependency at 0.7, a file at what its ranking says and everything else at 0.5 |
| ContextEngines.ContextEngine.RemoveContextItem | src/context/ContextEngine.cpp:331-356 | the item goes from its one conversation with its tokens; an item of no conversation is taken out uncounted |
| ContextEngines.FindHolder | src/context/ContextEngine.cpp:341-350 | the walk over the conversations finds one that holds the item, or there is none |
| ContextEngines.ContextEngine.UpdateRelevance | src/context/ContextEngine.cpp:358-368 | only the common copy gets the relevance, clamped to the unit interval; the copy that is ranked keeps the old one |
| ContextEngines.ContextEngine.PinContextItem | src/context/ContextEngine.cpp:370-380 | only the common copy is pinned |
| ContextEngines.ContextEngine.SelectContextItems | src/context/ContextEngine.cpp:924-961 | the greedy selection from a ranking of the conversation's items; in every reachable state it is within the limit |
| ContextEngines.ContextEngine.EvictIfNeeded | src/context/ContextEngine.cpp:876-922 | the tables are those after an eviction in the order of a ranking of the conversation's own copies, least relevant first; what goes is as Evicts describes, and within budget nothing changes |
| ContextEngines.SelectedOnlyWhenItFits | src/context/ContextEngine.cpp:924-961 | in every reachable state an item is selected if and only if it fits, whether or not a caller pinned it |
| ContextEngines.EvictedOnlyByRank | src/context/ContextEngine.cpp:876-922 | in every reachable state an item is evicted if and only if its place in the ranking is reached, whether or not a caller pinned it |
| ContextEngines.MarkingChangesNoChoice | src/context/ContextEngine.cpp:358-380 | setting the relevance or the pin of an item changes no ranking and no eviction |
| ContextEngines.PinnedYetOmitted | src/context/ContextEngine.cpp:370-380 | a pinned item that the selection leaves out |
| ContextEngines.PinnedYetEvicted | src/context/ContextEngine.cpp:370-380 | a pinned item that every eviction above budget takes |
| ContextEngines.RaisedYetOmitted | src/context/ContextEngine.cpp:358-368 | an item raised to full relevance that still ranks behind, and loses to, one lowered to none |
| CodeChunker.SplitText | src/rag/RAGService.cpp:815 | splitting into lines loses nothing |
| CodeChunker.ChunkCodeFile | src/rag/RAGService.cpp:807-879 | every chunk runs from the end of the one before to the first line that closes a definition's braces or exceeds the limit; the rest is a last chunk unless blank |
| CodeChunker.ContentIsKept | src/rag/RAGService.cpp:807-879 | the chunks and a blank tail are the text and one newline |
| CodeChunker.CutsWhen | src/rag/RAGService.cpp:834-843 | a line cuts if and only if the text since the last cut is not blank and is longer than the limit or the line closes a definition: some line began one, the braces of the text were balanced after no line in between and are after this one |
| CodeChunker.InFunctionSince | src/rag/RAGService.cpp:828-838 | a definition is open if and only if some line began one and the braces of the text have been balanced after no line since |
| CodeChunker.BalanceIsExcess | src/rag/RAGService.cpp:826 | the brace count is the number of opening less closing braces in the text so far |
| CodeChunker.StartLines | src/rag/RAGService.cpp:831-871 | behind a cut a chunk starts on the next line; the first chunk is given the first later line that starts a definition, if it holds one |
| CodeChunker.ChunksAreSmall | src/rag/RAGService.cpp:834-861 | no chunk is blank, end lines increase, and a chunk without its last line is blank or within the limit |
| CodeChunker.FirstStartIsRight | src/rag/RAGService.cpp:828-831 | the first chunk's start line is 1 if and only if no later line of it starts a definition |
| CodeChunker.KindOfChunk | src/rag/RAGService.cpp:834-854 | a cut chunk is labelled a function if and only if a definition is still open where it ends; one cut because it closes a definition is labelled a code block |

## Left out

- Disk files, sockets, clocks, random identifiers, logging and model endpoints: they are parameters or inputs.
- The JSON library: export, import and the fallback for a payload the scanner gives up on are over records or a parameter.
- Regular expressions: the symbol parser and the definition test are any function; URL parsing and the agent tool parser are not modelled.
- The graphical interface, the line reader, the slash commands themselves, the orchestrator and agent loops: they sequence opaque calls.
- Mutexes and change callbacks: each locked body is one step. The step systems of the breaker and the ledgers interleave such steps.
- MetricsLedger.RequestsBalance: counters wrap at 64 bits, so the balance is modulo the word size; floating-point latency is summed over the reals.
- The ledger snapshot is not atomic: it reads field by field, so the balance is about the ledger and not about a snapshot; its averages are not modelled.
- ModelRouters.ModelRouter.RouteWithFallback: one request without others in between; concurrent requests are covered by the breaker's and the ledgers' own theorems. A provider registered as null is treated as not registered. Published events are not modelled.
- ModelRouters.ModelRouter.ShouldAttempt: the cooldown is fixed while the router lives; changing it (src/providers/ModelRouter.h:135) is not modelled.
- SseStream.StreamReader.ReceiveAll: an unfinished last line without a newline is never delivered, as in the code.
- MemoryManagers.MemoryManager.Store: the entry checksum and the semantic store are not modelled; sizes are unbounded integers.
- Memory import does not subtract an overwritten entry from the counter and is not among the operations the accounting covers.
- RepositoryIndexes.RepositoryIndex.SearchCode: the BM25 values are a parameter; the average document length, the matched symbol and the constant fields of a result are not modelled.
- RepositoryIndexes.RepositoryIndex.IndexFile: the statistics and the directory walk are not modelled; contents with equal checksums count as unchanged, as in the code.
- CommandLine.CommandContext.Dispatch: finding a command by name or alias is a parameter, and running it is not modelled.
- ContextEngines.ContextEngine.AddContextItem: the relevance of a file is a parameter; tags, metadata, access times and the counters per kind of item are not modelled.
- ContextEngines.ContextEngine.EvictIfNeeded: nine tenths of the budget is compared exactly, not in floating point; the program itself never calls it.
- Shutting the context engine down and initialising it again resets its statistics while items remain; that is not among the operations covered.
- CodeChunker.ChunkCodeFile: lengths count characters and not UTF-16 units; identifiers, timestamps and embeddings of chunks are not modelled.
- The vector index, the search cache, task graphs, schedulers and tool registries: simpler or not part of the sources this model follows.
