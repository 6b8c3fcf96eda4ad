# Verified models of the proxy's engines

Each module models one engine of the proxy and proves what it is for. An engine that changes state has
a pure step function, lemmas over all its runs, and a class whose methods are proved to make exactly
those steps. A run is a sequence of events with the states between them; callers, timers and sockets
choose the events, so a lemma over runs covers every interleaving.

| file | engine |
|---|---|
| `Json.dfy`, `TextOrder.dfy` | JSON values, the text `JSON.stringify` prints, the order of `sort()` |
| `CacheKey.dfy` | the canonical form of cache arguments and the cache key string |
| `Tokenize.dfy`, `Redaction.dfy`, `Checksum.dfy`, `Mod97.dfy` | redaction with a reverse map, and what it does told without its functions; the Luhn and IBAN checks |
| `SharedLock.dfy`, `DaemonServer.dfy` | the promise-chain mutex and the handle maps of the daemon on top of it |
| `Framing.dfy`, `PoolConnection.dfy` | newline framing in its two versions; calls on one pooled connection |
| `Breaker.dfy`, `Retry.dfy`, `Gateway.dfy` | circuit breaker, retry loop, and the gateway that counts over both |
| `RateLimiter.dfy` | the token bucket |
| `Anomaly.dfy` | Welford's running statistics and the outlier flag |
| `Cache.dfy`, `Delta.dfy` | the two-tier cache; differences between results |
| `SharedKV.dfy` | the store with expiry, sweep and snapshot |
| `Registry.dfy` | the tool catalog and a subscriber that folds its events |
| `ResultBudget.dfy` | trimming a result to a token budget |
| `Sublists.dfy` | the elements of a list at given positions, in order |

Assumptions: the clock does not go back; callbacks of promises and timers are single steps; values are
JSON values with distinct keys (`-0` prints as `0`); numbers are exact reals or integers. The random,
clock and transport inputs are parameters of the events.

Where the code does not do what is claimed of it nearby, the model follows the code, an example or a run
shows it, and the claim is proved with the condition under which it holds, an if and only if:

- a `__proto__` key is lost by `sortObjectKeys`, by `tokenize` and by the snapshot of the key-value
  store (`CacheKey.ProtoCollision`, `Tokenize.RoundTrip`, `SharedKV.CleanStoreSurvives`);
- a leaf that contains the text of an issued token is taken for it when the literals are put back
  (`Tokenize.RoundTrip`, `Tokenize.ForgedTokenCollides`);
- an object delta does not report the removal of an inherited name such as `toString`
  (`Delta.DeltaTellsExactly`);
- a lock timeout blocks its key for good (`SharedLock.GrantableEventuallyExactly`), and a client that
  leaves while it waits for a lock can come to hold it for good (`DaemonServer.GoneHoldsExactly`,
  `DaemonServer.DeadClientHolds`);
- a call whose write throws is rejected but stays in the map of waiting calls
  (`PoolConnection.ExactlyOneUnlessThrown`);
- tools of two servers can share their statistics (`Anomaly.BucketsShareExactly`);
- a text clipped to the token budget never fits it (`ResultBudget.ClippedNeverFits`);
- the line `null` makes the pool's reader throw and keep later lines until the next chunk
  (`Framing.ReadersAgreeExactly`);
- with stale-while-revalidate an entry promoted from disk is served as fresh however old it is
  (`Cache.LateExactly`, `Cache.FreshExactly`);
- a refresh can drop tools of a server whose name extends the refreshed one by a slash
  (`Registry.MirrorExactly`).

## Model

| member | source | states |
|---|---|---|
| Json.PrintInjective | src/cache/delta.ts:134-141 | the printed text of two JSON values is equal only for equal values, order of keys included |
| TextOrder.SortKeysSorts | src/cache/key.ts:40-41 | sorting distinct keys keeps exactly them and gives ascending code-unit order |
| TextOrder.AscendingUnique | src/daemon/shared-kv.ts:129-129 | an ascending list is determined by its members |
| TextOrder.BeforeIs | src/cache/key.ts:40-41 | the order is that of the first code unit in which two texts differ, a prefix coming first |
| CacheKey.StableStringifyCanonical | src/cache/key.ts:27-45 | two arguments get one text exactly when they are equal up to the order of keys at every depth, `__proto__` members not counted |
| CacheKey.StableStringifyWithoutProto | src/cache/key.ts:27-45 | for arguments without a `__proto__` key: one text exactly when equal up to key order |
| CacheKey.ProtoCollision | src/cache/key.ts:39-44 | two different arguments, one with a `__proto__` key, that share a text |
| CacheKey.CanonicalIdempotent | src/cache/key.ts:31-45 | canonicalising a canonical form changes nothing |
| CacheKey.CanonicalKeepsMeaning | src/cache/key.ts:31-45 | canonicalising keeps the key-value meaning of the value at every depth, `__proto__` aside |
| CacheKey.SortedUnique | src/cache/key.ts:39-44 | a sorted object is determined by its set of members |
| CacheKey.SortObjectKeys | src/cache/key.ts:31-45 | the recursive loop builds the canonical form |
| CacheKey.KeyOrderIs | src/cache/key.ts:39-44 | the keys of the sorted object come out with the indexes first, by number, and then the others by code unit |
| CacheKey.IndexIs | src/cache/key.ts:39-44 | an index is a decimal numeral without leading zero of a number up to 4294967294 |
| CacheKey.ParsedPrints | src/cache/key.ts:67-91 | a string that parses is the one its key prints |
| CacheKey.KeyRoundTrip | src/cache/key.ts:67-91 | a key survives printing and parsing exactly when its server has no colon and is not empty, its tool is not empty and its hash has 64 characters and no colon |
| Tokenize.RoundTrip | src/utils/tokenize.ts:204-270 | for every nested value: the redacted value restores to what the value would restore to untouched, so putting the literals back gives the input exactly if and only if it has no `__proto__` key and no leaf contains an issued token; the reverse map is injective |
| Tokenize.RoundTripWithoutTokens | src/utils/tokenize.ts:204-270 | so always for a value without text in the shape of a token, which a caller can check beforehand |
| Tokenize.IssuedExactly | src/utils/tokenize.ts:225-249 | the issued tokens: numbered per label from one to the number of distinct literals the label was first to hit |
| Tokenize.Tokenize | src/utils/tokenize.ts:204-270 | the matchers applied are those of exactly the known names, in the order of the names; without any the value comes back as it is; else one table built up by the hits decides all replacements in all leaves and passes, and with safe matchers the round trip holds exactly as above |
| Redaction.RedactionIs | src/utils/tokenize.ts:221-269 | told without the functions that compute it: in every leaf each matcher works on what the one before it left, replaces each of its hits by a token that the reverse map turns back and leaves the rest; the value keeps its shape; a literal's token has the label of the matcher that met it first and a number one above the literals that label met first before it; there are no other tokens |
| Tokenize.TokenText | src/utils/tokenize.ts:225-228 | the first token for an address reads `[EMAIL_1]` |
| Tokenize.DecimalIs | src/utils/tokenize.ts:225-228 | the number in a token is written in decimal without leading zero |
| Tokenize.ForgedTokenCollides | src/utils/tokenize.ts:225-253 | an instance: a value with a literal and a leaf that reads like its token, whose redaction does not restore to it |
| Tokenize.PassRestores | src/utils/tokenize.ts:232-250 | replacing the hits of one matcher changes nothing of what a text restores to, whatever brackets and tokens it has |
| Tokenize.TokenInjective | src/utils/tokenize.ts:225-228 | tokens of different labels or numbers differ |
| Tokenize.Tokenizer.TokenFor | src/utils/tokenize.ts:241-249 | an already seen literal keeps its token; a new one extends both tables and leaves them inverse to each other |
| Tokenize.Tokenizer.Replace | src/utils/tokenize.ts:234-250 | every hit is replaced by its token, plain text stays, and exactly the hits are added to the table |
| Tokenize.Tokenizer.RedactString | src/utils/tokenize.ts:230-253 | the matchers are applied in order, by the final table |
| Tokenize.Tokenizer.Walk | src/utils/tokenize.ts:255-266 | leaves are redacted, keys and shape stay, and the table holds exactly the literals hit |
| Checksum.LuhnCheck | src/utils/tokenize.ts:56-69 | true exactly for digit strings whose weighted sum, empty text included, is divisible by ten |
| Checksum.LuhnFromRight | src/utils/tokenize.ts:59-67 | which digits are doubled: two more digits add the last one as it is and the one before it doubled, less nine above nine |
| Checksum.LuhnShort | src/utils/tokenize.ts:57-68 | the empty text sums to zero and one digit to itself |
| Checksum.LuhnDetectsChange | src/utils/tokenize.ts:56-69 | every change of one character is detected |
| Checksum.LuhnDetectsSwap | src/utils/tokenize.ts:56-69 | a swap of neighbours goes unnoticed exactly for equal digits and for 0 with 9 |
| Checksum.IbanCheck | src/utils/tokenize.ts:75-92 | true exactly when the rearranged text, read as one number, is 1 modulo 97 |
| Checksum.ValueAppends | src/utils/tokenize.ts:78-90 | the number of a text, character by character: a digit appends itself, A to Z append 10 to 35 |
| Checksum.IbanCheckDigits | src/utils/tokenize.ts:75-92 | how check digits are issued: valid exactly if they make up, modulo 97, for what the text with check digits zero lacks to one |
| Checksum.Remainder | src/utils/tokenize.ts:86-90 | the streamed remainder is that of the whole number |
| Checksum.ChangeShows | src/utils/tokenize.ts:75-92 | replacing a character by another of its class changes the remainder |
| Checksum.SwapShows | src/utils/tokenize.ts:75-92 | swapping neighbours keeps the remainder exactly for equal characters and the pairs B1, M2, X3; so never for unequal digits |
| Checksum.IbanDetectsChange | src/utils/tokenize.ts:75-92 | a valid IBAN with one character changed within its class is rejected |
| Checksum.IbanDetectsSwap | src/utils/tokenize.ts:72-153 | a swap of any two neighbours of an accepted IBAN gives an accepted one exactly if the two are equal up to case or are, behind the check digits, one of three pairs of a letter and a digit |
| Checksum.IbanDetectsDigitSwap | src/utils/tokenize.ts:75-92 | every swap of two unequal neighbouring digits of a valid IBAN is rejected, the fourth and fifth place included, up to the 34 characters the validator accepts |
| Checksum.IbanDetectsFarSwap | src/utils/tokenize.ts:77-91 | the case of the fourth and fifth place, which the rearrangement moves to the ends: no power of ten that occurs is 1 modulo 97 |
| SharedLock.StepKeeps | src/daemon/shared-lock.ts:72-113 | every step keeps the chain, the counts and the map entries consistent, through deletion and re-creation of keys |
| SharedLock.AtMostOneHolder | src/daemon/shared-lock.ts:72-113 | at most one unreleased handle per key |
| SharedLock.MutualExclusion | src/daemon/shared-lock.ts:72-113 | the same in every state of every run from the empty lock |
| SharedLock.InOrder | src/daemon/shared-lock.ts:85-90 | when a call is granted every earlier call on its key has released |
| SharedLock.GrantableExactly | src/daemon/shared-lock.ts:85-90 | a waiting call can proceed exactly when all earlier ones on its key have released |
| SharedLock.EntryExactly | src/daemon/shared-lock.ts:75-78 | a key has an entry exactly while a call on it has not released, and the entry counts those calls |
| SharedLock.TicketsStay | src/daemon/shared-lock.ts:94-103 | a call keeps its key for ever, and a timed-out or released one stays so |
| SharedLock.TimeoutBlocks | src/daemon/shared-lock.ts:148-167 | after a timeout no later call on the key is ever granted |
| SharedLock.GrantableEventuallyExactly | src/daemon/shared-lock.ts:85-111 | a waiting call has a continuation that grants it exactly when no earlier call on its key timed out |
| SharedLock.Mutexes.AcquireKey | src/daemon/shared-lock.ts:72-90 | the part before the await is one acquire step |
| SharedLock.Mutexes.Proceed | src/daemon/shared-lock.ts:90-96 | the continuation is one grant step |
| SharedLock.Mutexes.Expire | src/daemon/shared-lock.ts:155-163 | the timer is one timeout step, which changes nothing else |
| SharedLock.Mutexes.ReleaseHandle | src/daemon/shared-lock.ts:98-112 | releasing is one release step; a second release does nothing |
| SharedLock.Mutexes.Waiters | src/daemon/shared-lock.ts:133-135 | the number of calls on the key that have not released |
| SharedLock.Mutexes.HasActiveLocks | src/daemon/shared-lock.ts:140-142 | true exactly while some call has not released |
| DaemonServer.HandleMapsExact | src/daemon/server.ts:498-529 | in every run a handle is in a client's map under a key exactly when it is unreleased, for that key, and that client asked for it |
| DaemonServer.OneClientPerKey | src/daemon/server.ts:498-529 | no key is in the maps of two clients |
| DaemonServer.NeverOverwrites | src/daemon/server.ts:505-515 | when a handle is stored the client's map has none for the key, though the check came before the await |
| DaemonServer.CloseEffect | src/daemon/server.ts:406-415 | a disconnect releases exactly the handles of that client |
| DaemonServer.StuckBlocks | src/daemon/server.ts:406-515 | a request that timed out, or is unreleased and its client gone, blocks its key in every continuation: no later request for it is ever granted |
| DaemonServer.HoldsEventuallyExactly | src/daemon/server.ts:498-529 | a waiting request has a continuation in which it holds its key exactly when no earlier request for the key is stuck like that |
| DaemonServer.GoneHoldsExactly | src/daemon/server.ts:406-515 | a gone client that holds nothing can come to hold a lock exactly when one of its waiting requests has no stuck one before it |
| DaemonServer.GoneForGood | src/daemon/server.ts:406-415 | right after its close a client holds nothing in any continuation exactly when each of its waiting requests comes after a stuck one |
| DaemonServer.GoneKeeps | src/daemon/server.ts:406-515 | what a gone client holds it keeps in every continuation, and nobody else is granted the key |
| DaemonServer.DeadClientHolds | src/daemon/server.ts:406-515 | an instance: a run after which a disconnected client holds a lock |
| DaemonServer.NextKeeps | src/daemon/server.ts:406-529 | every step of every client keeps the maps exact |
| DaemonServer.Server.HandleConnection | src/daemon/server.ts:340-342 | a new client starts with an empty map |
| DaemonServer.Server.DispatchAcquire | src/daemon/server.ts:498-512 | refused exactly when the client already holds the key, else one acquire step |
| DaemonServer.Server.StoreHandle | src/daemon/server.ts:512-517 | grant and storing the handle are one step of the run |
| DaemonServer.Server.DispatchRelease | src/daemon/server.ts:520-529 | releases and answers true exactly when the client has a handle for the key |
| DaemonServer.Server.OnClose | src/daemon/server.ts:406-416 | the loop over the handles is one close step |
| Framing.SplitUnique | src/daemon/client.ts:328-329 | splitting at newlines is the only way to write a text as newline-free pieces |
| Framing.TrimIs | src/daemon/client.ts:331-333 | trimming takes away white space on both sides and nothing else, and leaves nothing exactly if all is white space |
| Framing.TrimmedUnique | src/daemon/client.ts:331-332 | there is one such line only |
| Framing.SpacesAre | src/daemon/client.ts:331-331 | which characters are white space |
| Framing.ClientReadsWhole | src/daemon/client.ts:326-333 | however a stream is cut into chunks, the lines of the whole stream are delivered and the buffer has no newline |
| Framing.ClientDelivers | src/daemon/client.ts:326-333 | for any chunks: of the pieces between newlines the complete ones that are not all white space are delivered, in order and trimmed, and the last piece stays in the buffer |
| Framing.PoolConserves | src/bridge/pool.ts:371-403 | delivered lines and buffer together are the stream: nothing lost, repeated or reordered, whatever throws |
| Framing.ConsumeIs | src/bridge/pool.ts:371-389 | the loop handles the complete pieces that are not all white space, in order and trimmed, up to the first whose handling throws; the rest stays in the buffer |
| Framing.PoolDelivers | src/bridge/pool.ts:371-389 | the same over all chunks, whatever throws |
| Framing.LeavesLinesExactly | src/bridge/pool.ts:371-403 | a chunk leaves a newline in the buffer exactly when handling throws before its last complete line |
| Framing.ReadersAgreeExactly | src/bridge/pool.ts:371-403 | both readers agree on every way to chunk a stream exactly when no complete line but the last makes the handler throw |
| Framing.ClientFramer.OnData | src/daemon/client.ts:326-333 | delivers the complete lines, trimmed and not empty, and keeps the rest |
| PoolConnection.AlwaysAccounted | src/bridge/pool.ts:304-414 | in every run exactly the issued ids are waiting or settled, and a closed connection has no waiting call |
| PoolConnection.ExactlyOneUnlessThrown | src/bridge/pool.ts:304-414 | a call is in exactly one of the two, except exactly while its write threw and neither a response with its id nor a close has come since: then it is waiting and rejected |
| PoolConnection.PendingExactly | src/bridge/pool.ts:313-414 | a call waits from its write, unless refused, up to the first response with its id or the first close |
| PoolConnection.FirstDecides | src/bridge/pool.ts:391-414 | a sent call is settled by the first response with its id or the first close, whichever comes first, and by nothing else |
| PoolConnection.DecidedBy | src/bridge/pool.ts:390-402 | the first response with its identifier or the first close decides a sent call: an error rejects it with its message, a result resolves it, a close rejects it; until then it waits |
| PoolConnection.FailedWriteDecides | src/bridge/pool.ts:312-319 | a call whose write failed is rejected for that, whatever arrives later |
| PoolConnection.OutcomeIsFinal | src/bridge/pool.ts:391-414 | an outcome never changes |
| PoolConnection.ClosedForGood | src/bridge/pool.ts:405-414 | a closed connection issues no id and gets no waiting call |
| PoolConnection.InternalConnection.RpcCall | src/bridge/pool.ts:304-320 | one call step; an id is issued exactly when the connection is open |
| PoolConnection.InternalConnection.SettleCall | src/bridge/pool.ts:391-401 | a response settles the waiting call with its id and is otherwise ignored |
| PoolConnection.InternalConnection.HandleLine | src/bridge/pool.ts:371-403 | the loop handles the lines the chunk completes, up to one that throws, and keeps the rest |
| PoolConnection.InternalConnection.CloseConnection | src/bridge/pool.ts:405-414 | every waiting call is rejected, once |
| Breaker.WindowRefinesHistory | src/reliability/breaker.ts:83-113 | after every outcome the pruned window is the full history since it was last emptied, cut at `now - windowMs` |
| Breaker.TripsExactly | src/reliability/breaker.ts:93-154 | a closed breaker opens exactly on a failure after which, of the outcomes since the last emptying of the window and no older than it, there are enough and the failed ones over all of them exceed the threshold |
| Breaker.PruneKeeps | src/reliability/breaker.ts:139-142 | pruning keeps exactly the records from the cutoff on, in order |
| Breaker.FailuresCounted | src/reliability/breaker.ts:144-149 | the failures counted are the records without success, and the rest are the successes |
| Breaker.OneProbePerEpisode | src/reliability/breaker.ts:63-113 | two admissions while half-open are separated by leaving that state, whatever late outcomes arrive |
| Breaker.ShutForInterval | src/reliability/breaker.ts:63-68 | after a trip and without a reset a call is admitted exactly once `halfOpenIntervalMs` have passed |
| Breaker.FieldsAgree | src/reliability/breaker.ts:63-121 | a probe is in flight only when half-open, and an open breaker has its time of trip |
| Breaker.CircuitBreaker.AllowCall | src/reliability/breaker.ts:63-77 | one admission step; false where the source throws |
| Breaker.CircuitBreaker.RecordSuccess | src/reliability/breaker.ts:83-92 | one success step |
| Breaker.CircuitBreaker.RecordFailure | src/reliability/breaker.ts:98-113 | one failure step |
| Breaker.CircuitBreaker.GetStatistics | src/reliability/breaker.ts:124-135 | successes and failures add up to the size of the pruned window |
| Breaker.CircuitBreaker.PruneWindow | src/reliability/breaker.ts:139-142 | keeps exactly the records not older than the window, in order |
| Breaker.CircuitBreaker.MaybeTrip | src/reliability/breaker.ts:144-154 | opens exactly when the window trips |
| Breaker.CircuitBreaker.MaybeTransitionToHalfOpen | src/reliability/breaker.ts:156-164 | wakes exactly when the interval has passed |
| Retry.WithRetry | src/reliability/retry.ts:45-78 | for any outcomes of the attempts: at most retries+1 of them, up to the first success or non-retryable error, with its result; none for negative retries; and the list of sleeps |
| Retry.FollowsUnique | src/reliability/retry.ts:45-78 | that description fixes the number of attempts and the result |
| Retry.DelayDoubles | src/reliability/retry.ts:71-73 | sleep number i is the first delay times 2^i, capped, except that the first is not capped |
| Gateway.CountersConserved | src/reliability/gateway.ts:125-191 | in every state total calls = successes + failures + rejections + in flight; backend attempts = admitted calls + retries, less calls with negative retries; timeouts are among the failures; one breaker outcome per finished call |
| Gateway.CallsFollowRetry | src/reliability/gateway.ts:137-190 | a finished call made the attempts of the sequential retry loop, with its result, whatever other calls did between |
| Gateway.RefusedExactly | src/reliability/gateway.ts:130-133 | a call is refused exactly if the breaker does not admit it when it begins |
| Gateway.BreakerRuns | src/reliability/gateway.ts:132-168 | the gateway's breaker goes through a run of its own, so what is proved of breaker runs holds |
| Gateway.ReliabilityGateway.Start | src/reliability/gateway.ts:125-133 | counts the call, then admits it exactly when the breaker does |
| Gateway.ReliabilityGateway.EndAttempt | src/reliability/gateway.ts:137-190 | the end of an attempt settles the call or puts it to sleep, and counts it |
| Gateway.ReliabilityGateway.EndSleep | src/reliability/gateway.ts:137-144 | each further attempt counts as a retry |
| Gateway.ReliabilityGateway.EndUnattempted | src/reliability/gateway.ts:166-190 | a call without attempts fails |
| RateLimiter.GrantsBounded | src/utils/rate-limiter.ts:148-256 | without releases the grants in any interval are fewer than `maxTokens + 1` plus what the rate gives in it |
| RateLimiter.GrantsBoundedFromStart | src/utils/rate-limiter.ts:148-256 | from construction on at most `maxTokens` plus what the rate gives |
| RateLimiter.HalfIsCredited | src/utils/rate-limiter.ts:213-224 | over any run of events without overflow at least half of what accrued is credited, in spite of floor and remainder |
| RateLimiter.TokensBounded | src/utils/rate-limiter.ts:106-224 | tokens stay between zero and `maxTokens` |
| RateLimiter.RequestsConserved | src/utils/rate-limiter.ts:80-256 | every request is granted, rejected, queued or dropped by `destroy`, once; at most 100 wait |
| RateLimiter.WaitedIsDequeued | src/utils/rate-limiter.ts:242-247 | the counter of waited requests is the number of requests taken from the queue |
| RateLimiter.QueueInOrder | src/utils/rate-limiter.ts:201-243 | the queue stays in order of arrival |
| RateLimiter.AccruedIsProduct | src/utils/rate-limiter.ts:218-218 | tokens added millisecond by millisecond are the product the program computes |
| RateLimiter.ASecond | src/utils/rate-limiter.ts:218-218 | a second is worth as many tokens as the rate says |
| RateLimiter.Limiter.AcquireToken | src/utils/rate-limiter.ts:80-101 | one acquire step and its answer |
| RateLimiter.Limiter.TryAcquire | src/utils/rate-limiter.ts:148-156 | takes a token exactly when one is there after the refill |
| RateLimiter.Limiter.Enqueue | src/utils/rate-limiter.ts:161-208 | queues unless 100 wait |
| RateLimiter.Limiter.OnTimeout | src/utils/rate-limiter.ts:186-199 | removes just that request and counts it as rejected |
| RateLimiter.Limiter.RefillTokens | src/utils/rate-limiter.ts:213-224 | one refill |
| RateLimiter.Limiter.ProcessQueue | src/utils/rate-limiter.ts:239-256 | the loop serves the longest prefix of the queue the bucket can pay for, oldest first |
| Anomaly.WelfordSums | src/observability/anomaly.ts:49-55 | after any samples n·mean is their sum and m2 the sum of squared deviations from the final mean, not negative |
| Anomaly.OrderDoesNotMatter | src/observability/anomaly.ts:49-55 | the statistics depend on the multiset of samples only |
| Anomaly.FlaggedExactly | src/observability/anomaly.ts:57-136 | a sample is flagged exactly when its squared distance from the mean times n-1 exceeds the squared threshold times m2, with enough samples and m2 > 0 (every such sample if the threshold is negative) |
| Anomaly.EventReports | src/observability/anomaly.ts:107-118 | the event of a flagged sample carries the mean and deviation of the samples before it and how many deviations the value lies away |
| Anomaly.ValuesAre | src/observability/anomaly.ts:81-93 | the values of a bucket are those of all samples with its key, in order |
| Anomaly.AlarmForIs | src/observability/anomaly.ts:95-159 | a sample gives one event for a metric exactly if its value is an outlier of the samples before it in its bucket, and the event reports it |
| Anomaly.BucketsShareExactly | src/observability/anomaly.ts:81-83 | some tools of two servers share their statistics exactly when one name with the separator begins with the other; so never for different names without a colon |
| Anomaly.ToolsSeparate | src/observability/anomaly.ts:81-83 | two tools of one server never share |
| Anomaly.RunningStats.UpdateStats | src/observability/anomaly.ts:49-55 | one step of the recurrence |
| Anomaly.AnomalyDetector.CheckAndRecord | src/observability/anomaly.ts:95-137 | a flagged sample is appended and the oldest event dropped beyond the limit |
| Anomaly.AnomalyDetector.Record | src/observability/anomaly.ts:142-159 | every bucket holds the batch statistics of its samples, each sample is judged against those before it, and the events kept are the latest of all flagged ones |
| Anomaly.AnomalyDetector.Reset | src/observability/anomaly.ts:192-195 | forgets samples and events |
| Cache.FreshExactly | src/cache/cache.ts:77-157 | every unflagged answer was stored for the same arguments at most its ttl and 1 ms before, no store on its key since then reached the disk, and its age is not overstated (exact from disk), in every run, exactly when stale-while-revalidate is off |
| Cache.LateExactly | src/cache/cache.ts:77-133 | in every run and mode an answer is older than its ttl if its value was too old when last read from disk, by this lookup or by one that put it into memory where it was not stored since, and else at most 1 ms older; it is flagged exactly if this lookup read it so and no refresh of its key is in flight |
| Cache.HitExactly | src/cache/cache.ts:77-133 | a lookup has an answer exactly if the memory entry is in time, or the disk entry can be read and is in time or may be served late; a memory entry in time comes first |
| Cache.DiskHitStays | src/cache/cache.ts:106-126 | an answer from disk is in memory afterwards with what is left of its ttl, or a whole one if it was late |
| Cache.StoreStays | src/cache/cache.ts:135-157 | a completed store stays on disk until the entry is dropped, cleared, stored over, or looked up too late without stale-while-revalidate |
| Cache.StoredIsFound | src/cache/cache.ts:77-157 | what was stored is found within its ttl, with stale-while-revalidate ever after, through evictions and failing reads |
| Cache.FreshWithoutRevalidation | src/cache/cache.ts:77-157 | the same for one lookup, through eviction, promotion from disk and failing reads and writes |
| Cache.LateAnswer | src/cache/cache.ts:113-126 | with stale-while-revalidate an answer of any age is reported as fresh |
| Cache.MemoryHitNeverStale | src/cache/cache.ts:83-97 | what the memory tier returns is never stale by the ttl map: lines 90-96 are never reached |
| Cache.AtMostOneRefresh | src/cache/cache.ts:216-240 | at most one refresh of a key is in flight |
| Cache.MemoryLru.Get | src/cache/lru.ts:60-82 | returns a live entry, deletes an expired one |
| Cache.CacheLayer.GetFromDisk | src/cache/cache.ts:99-132 | promotes a disk entry with what is left of its ttl, serves one that is too old only while revalidating, and else drops it |
| Cache.DiskOrigins | src/cache/disk.ts:86-128 | in every run what the disk tier has for a hash is the value, time and ttl of the last completed store with that hash, whichever tool made it |
| Cache.CacheLayer.Get | src/cache/cache.ts:77-133 | memory, then disk with promotion of what is left of the ttl, then a miss |
| Cache.CacheLayer.Set | src/cache/cache.ts:135-157 | stores in both tiers, unless the ttl is zero |
| Cache.CacheLayer.StartRefresh | src/cache/cache.ts:225-230 | starts exactly when none is in flight |
| Cache.CacheLayer.EndRefresh | src/cache/cache.ts:236-238 | allows the next one |
| Delta.DeltaTellsExactly | src/cache/delta.ts:28-156 | `unchanged` exactly for equal values; a full or array delta always tells the current value; an object delta does exactly when no key is lossy; a list of changes is never longer in bytes than the value itself |
| Delta.ArrayDeltaReconstructs | src/cache/delta.ts:53-83 | added items were not there, removed ones are not there now, applying the delta gives exactly the current set of items and taking it back the previous one |
| Delta.ObjectDeltaReconstructsExactly | src/cache/delta.ts:87-122 | applying the delta gives exactly the current keys and values if and only if no inherited name is removed and no empty object is added under `__proto__`; taking it back gives the previous ones under the mirrored condition |
| Delta.RemovedNameStays | src/cache/delta.ts:97-108 | removing a key with an inherited name is not reported as removal |
| Delta.EmptyProtoIsLost | src/cache/delta.ts:97-108 | adding an empty object under `__proto__` is not reported |
| Delta.DeepEqualIsEqual | src/cache/delta.ts:134-141 | equality of texts is equality of values |
| Delta.MissingPicked | src/cache/delta.ts:57-69 | added and removed items keep their order and repetitions |
| Delta.ListsExactly | src/cache/delta.ts:95-108 | which list names a key: added those only the current object has, removed those only the previous one has, modified those both have with values that print differently |
| Delta.ListsInOrder | src/cache/delta.ts:97-108 | the lists follow the order of the compared keys |
| Delta.AllKeysOrder | src/cache/delta.ts:95-95 | the compared keys are those of the previous object and then the new ones of the current one, each once |
| Delta.BytesAre | src/cache/delta.ts:150-151 | the byte length counts one, two or three bytes a code unit, a surrogate two |
| Delta.ArrayDelta | src/cache/delta.ts:53-83 | the two loops collect, in order and with repetitions, what the other side lacks; the full array if that is shorter in bytes |
| Delta.ObjectDelta | src/cache/delta.ts:87-122 | the loop sorts every key of either object into one list or none; the full object if that is shorter in bytes |
| Delta.ComputeDelta | src/cache/delta.ts:28-49 | picks the kind of delta |
| SharedKV.AnswersLikePlain | src/daemon/shared-kv.ts:83-130 | in every run, now and at every later time, `get` and `list` answer like a store in which nothing is ever cleaned up |
| SharedKV.LastDecides | src/daemon/shared-kv.ts:82-155 | `get` answers what the last event on the key decides: the value stored until its time is over, nothing after a deletion or clearing |
| SharedKV.NextKeeps | src/daemon/shared-kv.ts:83-243 | every operation, sweep, flush and reload keeps that refinement, and a store that is not dirty has an up-to-date snapshot |
| SharedKV.CleanStoreSurvives | src/daemon/shared-kv.ts:172-215 | a store that is not dirty, lost and loaded again, answers as before for every key but `__proto__` |
| SharedKV.FlushedStoreSurvives | src/daemon/shared-kv.ts:159-215 | loading a flushed snapshot restores exactly the entries still alive, `__proto__` aside |
| SharedKV.ListingUnique | src/daemon/shared-kv.ts:120-130 | there is one answer to `list` |
| SharedKV.KVStore.Get | src/daemon/shared-kv.ts:83-94 | the live value or nothing; an expired entry is deleted |
| SharedKV.KVStore.Set | src/daemon/shared-kv.ts:99-106 | a ttl that is not positive means no expiry |
| SharedKV.KVStore.DeleteKey | src/daemon/shared-kv.ts:111-115 | dirty only if there was something to delete |
| SharedKV.KVStore.List | src/daemon/shared-kv.ts:120-130 | exactly the live keys with the prefix, ascending |
| SharedKV.KVStore.ClearKeys | src/daemon/shared-kv.ts:135-144 | removes exactly the keys with the prefix |
| SharedKV.KVStore.EvictExpired | src/daemon/shared-kv.ts:235-243 | removes exactly the expired entries and is dirty if there were any |
| SharedKV.KVStore.FlushToDisk | src/daemon/shared-kv.ts:200-215 | writes exactly the live entries, `__proto__` aside, or leaves the file |
| SharedKV.KVStore.LoadFromDisk | src/daemon/shared-kv.ts:172-197 | loads exactly the live entries of the snapshot |
| SharedKV.KVStore.SweepExpired | src/daemon/shared-kv.ts:222-227 | evicts, then writes if dirty |
| SharedKV.KVStore.ShutDown | src/daemon/shared-kv.ts:159-166 | evicts, then writes |
| Registry.MirrorExactly | src/registry/registry.ts:113-196 | in every run of refreshes and annotations a subscriber holds exactly the catalog's keys, descriptions and schemas, if and only if no server is named like another followed by a slash and more |
| Registry.EventsTellChanges | src/registry/registry.ts:161-192 | every event tells a change: a new key, a changed description or schema, or a key no longer reported |
| Registry.EventsCounted | src/registry/registry.ts:161-192 | every change is announced once: there are as many events as keys gone, new or changed |
| Registry.OthersUntouchedExactly | src/registry/registry.ts:156-168 | a refresh leaves the tools of other servers alone exactly when none of their keys begins with the server's name and a slash |
| Registry.OthersUntouched | src/registry/registry.ts:113-196 | so in every run over servers with separate names |
| Registry.KeysMatchBackend | src/registry/registry.ts:130-192 | after a refresh the server's keys are those of the backend's list, and tools that stay keep their annotations |
| Registry.LastReportCounts | src/registry/registry.ts:130-154 | of several reports of a name the last is what the catalog holds |
| Registry.AnnotateKeeps | src/registry/registry.ts:336-359 | an annotation changes no key, description or schema |
| Registry.ToolRegistry.RefreshTools | src/registry/registry.ts:113-192 | the loops compute the catalog and the events of a refresh |
| Registry.ToolRegistry.Collect | src/registry/registry.ts:130-154 | the incoming tools with the annotations kept |
| Registry.ToolRegistry.SetAnnotations | src/registry/registry.ts:336-359 | only the allowed fields change, and nothing for an unknown tool |
| ResultBudget.TrimResultToBudget | src/server/mcp-server.ts:89-171 | returned whole exactly if it fits or is a short enough string; of an array or object the largest prefix that fits; other values clipped; and what is returned fits exactly if the value did, or it is an array or object and the budget at least one token |
| ResultBudget.FitsIs | src/server/mcp-server.ts:74-77 | a value fits exactly if its text has at most 3.8 characters for every token |
| ResultBudget.ClippedNeverFits | src/server/mcp-server.ts:151-170 | a clipped text never fits its budget |
| ResultBudget.LargestUnique | src/server/mcp-server.ts:99-149 | there is one largest prefix |
| ResultBudget.FitsMonotone | src/server/mcp-server.ts:74-77 | if a prefix fits, so does every shorter one |
| ResultBudget.ResultFitsExactly | src/server/mcp-server.ts:99-149 | the largest prefix fits exactly for budgets of at least one token |
| ResultBudget.LongestArrayPrefix | src/server/mcp-server.ts:101-110 | the binary search finds the largest prefix |
| ResultBudget.LongestObjectPrefix | src/server/mcp-server.ts:124-143 | the downward loop finds it too |

## Left out

- The regular expressions of the built-in matchers: a matcher is any function that cuts a text into hits and plain parts; `TokenSafe` (no hit is empty, contains a bracket or lies inside a token) is asked of it, not proved of the patterns.
- `detokenize` itself, a lookup of one token; putting the literals back is stated as a scan of the text for keys of the reverse map.
- The name lookup of matchers with the operator `in`, which also finds inherited names; selection is by a map.
- SHA-256: the cache key is treated up to the text that is hashed.
- Checksum.IbanCheck: for ASCII letters and digits, which is what the pattern lets through; its grouping into fours is not modelled.
- SharedLock.GrantableEventuallyExactly: says that a grant is possible, not that holders do release.
- DaemonServer.HandleMapsExact: a socket error counts through the close event that follows it; framing before authentication is not modelled.
- Breaker.WindowRefinesHistory: asks for a window of at least 0 ms; with a negative one the outcome just recorded is already too old.
- RateLimiter.GrantsBounded: without `release`, which puts tokens back; rates and bucket sizes that are not negative.
- Exclusive hand-out and the limit of connections in `ConnectionPool.acquire`, respawning, idle timers: not part of this model.
- PoolConnection.FirstDecides: a transport that calls back while it is being written to is not modelled, and an exception of the line handler is taken not to end the process.
- The pending map of `DaemonClient`: the same scheme as the pooled connection; only its framing is modelled.
- Gateway.CountersConserved: one server, whose breaker keeps the profile of its first call; `withTimeout` is an attempt that ends in a timeout error.
- `_resolveProfile` and `applyMutationDefault`: field-by-field defaults, easy facts only.
- Cache.FreshExactly: `get` and `set` are atomic; two tools with equal arguments share a disk entry, so the store may have been made by the other tool; hit and eviction counters are not modelled.
- Anomaly.FlaggedExactly: over reals, with the square root as a parameter; the filter of `getAnomalies` is not modelled.
- Delta.DeltaTellsExactly: an array delta tells the set of items, not their order or number.
- SharedKV.CleanStoreSurvives: a write that fails leaves the old snapshot whole; a first snapshot edited by hand to hold a `__proto__` key and a store built with `skipLoad` are not modelled.
- Registry.MirrorExactly: `loadSnapshot` adds tools without events, so it is not among the actions; output schemas and annotations are not in the mirror, as changes to them are not announced.
- ResultBudget.TrimResultToBudget: the `meta` record that is returned beside the result.
- Sockets, authentication, HTTP routes, the sandbox, type generation, logging, configuration and the command line.
