# sensorhub: verified model

This project models the algorithms and state machines of the sensorhub gateway (`app/`) and of its C++
client (`client-cpp/`), and proves what they promise over every input or every run.

| area | modules |
|---|---|
| statistics endpoints over stored readings | `Reals`, `Sums`, `Readings`, `Trend`, `Anomalies`, `Distribution`, `Aggregate`, `MovingAverages` |
| stateful protocols | `RateLimiting`, `NonceStore`, `TcpCounters`, `CommandModel`, `CommandQueues`, `TagRegistry`, `Rollout`, `Batching`, `Cursors` |
| framing and codecs | `Splitting`, `TcpFraming`, `MqttPatterns`, `MqttRouting`, `BigEndian`, `CanCodec`, `ByteBuffers` |
| bounded logs | `Bounded`, `CircularBuffers`, `FrameBuffers`, `AuditLogs` |

An object that the code updates in place is a class here. Where a property is about whole runs, the class
carries a ghost log of its calls, its invariant ties the real fields to a pure run function of that log, and
the properties are lemmas about that function for every log. Where the code throws or answers an HTTP
error, the model returns `None` or `HttpError`. `dafny verify dfyconfig.toml` checks everything.

Conventions of the model:

- Floats are exact reals; `variance ** 0.5` is any non-negative number whose square is the variance.
- The clock is a parameter of each call. The rate limiter's promises need the readings taken for one host not to
  run backwards (`RateLimiting.ClockNeverBack`), or at least never to make one of its requests miss an admission
  (`RateLimiting.NeverForgets`); when pruning makes it miss one is stated exactly, on any clock
  (`RateLimiting.PruningIsHarmlessIff`, `RateLimiting.NeverRejectsTooMany`).
- `uuid4` is a parameter holding an id that is not in use; the HMAC digest and `float(text)` are uninterpreted
  functions; JSON parsing and the database lookup of one TCP line are an oracle giving that line's outcome.
- Every call is one atomic step. `CommandQueue` takes no lock, so for it this is an assumption; `TcpStats`,
  `FrameBuffer`, `CircularBuffer` and `BatchAccumulator` do take one.

What the proofs found about the code:

- The anomaly endpoint asks for ten readings, but with its default sigma it cannot report anything before the
  eleventh (`Anomalies.DefaultSigmaOnTenReadings`); the general cutoff is exact (`Anomalies.CutoffIsExact`).
- The client's and the gateway's CAN unit tables differ: a kelvin reading arrives as `percent`, a percentage as
  `hpa`; the decoders agree on five codes only (`CanCodec.DecodersAgree`). `docs/can_protocol.md` says the value is
  truncated; the encoder rounds, and the model follows the encoder.
- `ack` accepts any status, so an acked command need not have been handed out (`CommandModel.AckedWithoutDelivery`):
  it was not exactly when some acknowledgement met it pending or cancelled (`CommandModel.AckedUnseenExactly`,
  `CommandModel.AckedWereHandedOutIff`).
- A timestamp header that `float` reads as not-a-number passes the age check at any time
  (`NonceStore.AcceptedAtAnyTimeIff`); a signature with a character beyond ASCII raises instead of being refused.
- A reset of the TCP counters with live connections makes the active count too low; it is exact again from the first
  moment no connection is live (`TcpCounters.CounterAgainstLive`).
- The router's `#` does not match the parent level and no wildcard matches an empty level
  (`MqttPatterns.RouterAgainstStandard`). Because `$` also holds before a final newline, a pattern ending in a literal
  level also routes its topic followed by a newline, and without dots that is the only topic the router adds to a
  filter with a literal first level (`MqttPatterns.RoutedBeyondSubscription`).
- `route` does not escape a dot in a literal level, so such a pattern routes other topics too, `a.b` even `a/b`
  (`MqttPatterns.RoutesOnlySubscriptionsIff`, `MqttPatterns.DotMatchesSlash`).
- An add whose submission throws leaves a full batch pending; the next answered submission is then larger than the
  batch size (`Batching.BoundedUnlessAddThrows`, `Batching.ThrownAddExceedsTheSize`).
- The event stream skips for good a row whose sensor becomes known only after a row above it was sent
  (`Cursors.StreamYieldsExactly`).
- An audit log constructed with a bound of 0 never drops anything (`AuditLogs.BoundedExactly`).

## Model

| member | source | states |
|---|---|---|
| Trend.DenominatorClosedForm | app/main.py:1175 | the denominator equals n(n²-1)/12, hence is positive from two readings on |
| Trend.SquaredErrorOfAnyLine | app/main.py:1172-1176 | the squared error of every line is the fitted line's plus a square for its slope and a square for its height at the mean point |
| Trend.LeastSquares | app/main.py:1172-1176 | no line has a smaller squared error than the reported slope through the mean point, and only that line attains it |
| Trend.SlopeAgainstSteps | app/main.py:1174-1176 | if every step of the series is at least (at most) some amount, so is the slope |
| Trend.SlopeWithinSteps | app/main.py:1174-1176 | the slope lies between the smallest and the largest step |
| Trend.AffineSlope | app/main.py:1174-1176 | an exactly affine series reports its own slope |
| Trend.TrendAnswer | app/main.py:1154-1183 | the endpoint's answer: its errors, no slope below three rows, otherwise the slope of the one line with the least squared error over the values oldest first, and the direction on either side of 0.01 |
| Trend.DirectionIsHonest | app/main.py:1154-1183 | for any rows: never "falling" on non-decreasing, never "rising" on non-increasing readings, and the right direction when every step is beyond 0.01; "unknown" exactly below three rows |
| Anomalies.FlaggedExactly | app/main.py:1012-1015 | the report lists a reading, with its deviation, if and only if it deviates by more than the threshold |
| Anomalies.FewFlagged | app/main.py:1007-1015 | the number flagged times sigma² is below n |
| Anomalies.DeviationBound | app/main.py:1008-1009 | one squared deviation is at most (n-1)/n of their sum |
| Anomalies.NothingFlagged | app/main.py:1007-1015 | if sigma² is at least n-1 nothing is flagged, whatever the readings |
| Anomalies.CutoffIsExact | app/main.py:1007-1015 | a series of n-1 zeros and a one has a flagged reading if and only if sigma² is below n-1 |
| Anomalies.AnomalyAnswer | app/main.py:993-1022 | the endpoint's answer for every sigma: its errors, nothing below ten rows, otherwise the entries of exactly the rows beyond sigma standard deviations from the mean, above or below, in row order and each once |
| Anomalies.DefaultSigmaOnTenReadings | app/main.py:993-1015 | with sigma 3.0 and exactly ten readings the report is empty |
| Anomalies.NegativeSigma | app/main.py:1007-1015 | a negative sigma flags every reading, unless all readings are equal, when it flags none |
| Distribution.IndexIsTheBucket | app/main.py:1273-1277 | the computed index is the one bucket whose half-open (last: closed) interval holds the value |
| Distribution.FillBuckets | app/main.py:1274-1277 | the counting loop leaves in each counter the number of values in that bucket's interval |
| Distribution.BuildHistogram | app/main.py:1273-1281 | every bucket has its edges and its count; the counts add up to n; first and last bucket are non-empty; the edges run from minimum to maximum |
| Distribution.ReadingsDistribution | app/main.py:1248-1282 | the error cases, the empty and the constant series, and the histogram otherwise |
| Distribution.CountsAddUp | app/main.py:1274-1277 | every value between minimum and maximum is counted in exactly one bucket |
| Distribution.EndsAreCounted | app/main.py:1270-1277 | the minimum is counted in the first bucket and the maximum in the last |
| Aggregate.SensorAggregate | app/main.py:621-653 | the error cases, and the summaries of the oldest-first rows otherwise |
| Aggregate.Bucketize | app/main.py:641-652 | the bucketing loop appends one summary per slice, in order |
| Aggregate.EntryCount | app/main.py:642 | there are ceil(n / bucket) summaries |
| Aggregate.EntryOfEachSlice | app/main.py:642-652 | summary k is of rows k·bucket up to (k+1)·bucket, and only the last slice may be shorter than bucket |
| Aggregate.EntryTells | app/main.py:642-652 | entry k tells the number of rows in its slice, their sum through the average, a least and a greatest value that occur and bound the others, and the times of its first and last row |
| Aggregate.AggregateConserves | app/main.py:642-652 | counts add up to n and count-weighted unrounded averages to the sum of all values |
| MovingAverages.MovingAverageEndpoint | app/main.py:1602-1623 | the error cases, and one point per index from period-1 on with the average of the last period values |
| MovingAverages.MovingAverage.Create | client-cpp/inc/moving_average.hpp:11-17 | a window of zero is refused |
| MovingAverages.MovingAverage.Push | client-cpp/inc/moving_average.hpp:19-28 | the slots stay a rotation, from the head, of the last window values pushed |
| MovingAverages.MovingAverage.Value | client-cpp/inc/moving_average.hpp:30-36 | the mean of the last window values pushed, 0 when there are none |
| MovingAverages.MovingAverage.Ready | client-cpp/inc/moving_average.hpp:38 | true if and only if at least window values were pushed |
| MovingAverages.MovingAverage.Reset | client-cpp/inc/moving_average.hpp:40 | the filter is as freshly constructed |
| MovingAverages.StreamingEqualsBatch | app/main.py:1620-1622 | the mean a filter of this period holds after index i is the endpoint's average at i |
| MovingAverages.Replay | client-cpp/inc/moving_average.hpp:19-38 | pushing a series through a fresh filter reproduces every endpoint average |
| RateLimiting.PruningIsHarmlessIff | app/middleware.py:26-31 | on any clock, the pruned list counts at a moment what the host's full admission history does if and only if no admission still counting then is a window or more older than a later request of the host |
| RateLimiting.PruningLosesOnlyForgotten | app/middleware.py:26-31 | on any clock, the pruned list counts at a moment the very times the full history counts, or strictly fewer if an admission still counting was forgotten |
| RateLimiting.NeverRejectsTooMany | app/middleware.py:26-34 | on any clock a rejected request is one the full history rejects too; the two decisions agree when nothing was forgotten |
| RateLimiting.DecidesAsFullHistory | app/middleware.py:26-37 | every decision on the pruned list equals the one of a limiter that never prunes, if the host's own clock readings never went back |
| RateLimiting.HistoryIsWhatWasAdmitted | app/middleware.py:28-36 | the history kept by the unpruned reference is the list of times the limiter admitted |
| RateLimiting.NeverOverTheLimitUnlessForgotten | app/middleware.py:26-36 | on any clock, if no request of the host finds an admission forgotten, every half-open interval of the window's length holds at most max_requests admissions of the host |
| RateLimiting.NeverOverTheLimit | app/middleware.py:28-36 | so does every such interval for a host whose clock readings never went back |
| RateLimiting.StepBackExceedsTheLimit | app/middleware.py:26-36 | on the run with readings 0, 0, 100, 50 at limit 2 and window 60, three admissions fall within one window |
| RateLimiting.RejectedExactlyWhenFull | app/middleware.py:28-34 | a request is rejected if and only if the window ending at it already holds max_requests admissions |
| RateLimiting.HostsAreIndependent | app/middleware.py:23-36 | a host's stored times and admissions are those of a run with its requests alone, on any clock |
| RateLimiting.ClosedIntervalHoldsAtMostTwice | app/middleware.py:30 | a closed interval of the window's length holds at most twice the limit |
| RateLimiting.ClosedIntervalCanHoldTwice | app/middleware.py:30 | for every limit and every window some run attains twice the limit |
| RateLimiting.ClockStepBackMatters | app/middleware.py:26-31 | on the run with readings 0, 100, 50 at limit 2 and window 60 the last request is admitted where the full history rejects it |
| RateLimiting.RateLimiter.Dispatch | app/middleware.py:16-37 | prune, decide, append for one request; the verdict of the run function, and that of the full history if the host's clock readings never went back |
| NonceStore.StoreHoldsCurrentBlock | app/security/hmac_verify.py:22-31 | after k acceptances the store holds exactly the k mod 10001 nonces of the current block, and nonces differ inside each block of 10001 |
| NonceStore.AnswersFromTheLog | app/security/hmac_verify.py:16-33 | a call is accepted if and only if its timestamp is within the allowed age or not a number, its signature is ASCII and the digest of payload, nonce and timestamp joined by colons, and its nonce is not among the acceptances since the last multiple of 10001; and exactly when each exception is raised |
| NonceStore.SameNonceTwice | app/security/hmac_verify.py:18-31 | two acceptances of one nonce and timestamp lie in different blocks and, unless the timestamp is not a number, at most the two allowed ages apart |
| NonceStore.RepeatedCall | app/security/hmac_verify.py:22-31 | an accepted call presented again, not too old, is accepted if and only if its block is complete and the nonce was not used since in the current one |
| NonceStore.AcceptedAtAnyTimeIff | app/security/hmac_verify.py:18-24 | a signed call with an unused nonce is accepted whatever the clock reads if and only if its timestamp is not a number |
| NonceStore.NotANumberIsAccepted | app/security/hmac_verify.py:18-20 | such a call, with the timestamp `nan`, on the empty store |
| NonceStore.Verifier.VerifyHmac | app/security/hmac_verify.py:16-33 | one verification on the global store: its answer, the store's new contents and size |
| TcpCounters.SinceIsCount | app/net/tcp_server.py:32-60 | each counter is how often its event happened since the last reset |
| TcpCounters.LiveIsCount | app/net/tcp_server.py:32-42 | the live count is opens minus closes |
| TcpCounters.FewestIsMinimum | app/net/tcp_server.py:38-60 | the recursive minimum is the least live count at any moment since the last reset |
| TcpCounters.ClampedWalk | app/net/tcp_server.py:32-60 | for every event sequence the clamped counter is the live count minus its least value since the last reset |
| TcpCounters.CounterAgainstLive | app/net/tcp_server.py:32-60 | the counter lies between 0 and the live count, and equals it if and only if no connection was live at some moment since the last reset |
| TcpCounters.ExactWithoutLiveResets | app/net/tcp_server.py:32-60 | the counter is exact if every reset came with no connection live |
| TcpCounters.ResetWhileLiveLosesOne | app/net/tcp_server.py:53-60 | on the run open, reset, close the counter is one below the live count after the reset and right again after the close |
| TcpCounters.TcpStats.ConnOpened | app/net/tcp_server.py:32-36 | counts one opening and one active connection and stamps the event |
| TcpCounters.TcpStats.ConnClosed | app/net/tcp_server.py:38-42 | counts one closing and takes one off the active count, not below 0 |
| TcpCounters.TcpStats.ReadingReceived | app/net/tcp_server.py:44-47 | counts one reading |
| TcpCounters.TcpStats.Error | app/net/tcp_server.py:49-51 | counts one error and leaves the event time alone |
| TcpCounters.TcpStats.ResetAll | app/net/tcp_server.py:53-60 | all counters go to zero |
| TcpCounters.TcpStats.GetSnapshot | app/net/tcp_server.py:62-71 | the counts since the last reset, and the active count in closed form |
| Splitting.SplitAppend | app/net/tcp_server.py:97-99 | splitting a continued sequence only continues the last part |
| Splitting.JoinOfSplit | app/net/tcp_server.py:98-99 | joining the parts gives the sequence back and no part holds the separator |
| Splitting.SplitOfJoin | app/net/tcp_server.py:98-99 | separator-free parts are recovered from their join |
| TcpFraming.FramingIgnoresChunks | app/net/tcp_server.py:91-99 | feeding chunk by chunk gives the lines and the rest of the whole stream |
| TcpFraming.ChunkIndependence | app/net/tcp_server.py:91-99 | two ways of cutting a stream give the same lines and the same rest |
| TcpFraming.FramingRebuilds | app/net/tcp_server.py:98-99 | lines and rest are the only ones free of byte 10 that join back to the stream with it |
| TcpFraming.EveryLineCountedOnce | app/net/tcp_server.py:98-118 | readings plus errors equals the non-blank lines before the first uncaught exception |
| TcpFraming.StoredAreGood | app/net/tcp_server.py:108-118 | the readings stored are those of the good lines before that exception, in order |
| TcpFraming.BlankIff | app/net/tcp_server.py:100 | a line is skipped if and only if it holds nothing but spaces and bytes 9 to 13 |
| TcpFraming.HandleLine | app/net/tcp_server.py:100-118 | one line: skipped when blank, counted as an error for a bad line or an unknown sensor, stored and counted as a reading, or the end of the connection |
| TcpFraming.ReceivedUpTo | app/net/tcp_server.py:93-96 | what is received is what the calls return up to the first that raises or returns nothing |
| TcpFraming.DrainLines | app/net/tcp_server.py:98-118 | the inner loop handles exactly the complete lines of the buffer and leaves what follows the last newline |
| TcpFraming.HandleClient | app/net/tcp_server.py:88-122 | a connection's counter events, stored readings, rest and exception depend only on the bytes received, not on their chunks |
| TcpFraming.ConnectionOnCounters | app/net/tcp_server.py:88-122 | a connection adds one open, one close, its readings and its errors, and leaves the active count as it was |
| MqttPatterns.TranslationRenders | app/mqtt/router.py:16-17 | the two replacements and the substitution turn a pattern's text into its levels' groups joined by slashes |
| MqttPatterns.PatternCompiles | app/mqtt/router.py:16-18 | the anchored text compiles to the level-by-level expression, unless a name is used twice |
| MqttPatterns.NamesClashIff | app/mqtt/router.py:17-18 | a group name is used twice if and only if two levels are `{name}` with that name |
| MqttPatterns.RegisteredPatterns | app/mqtt/router.py:41-51 | patterns the module itself registers are among those covered |
| MqttPatterns.SearchFindsMatches | app/mqtt/router.py:28 | the backtracking search finds a match if and only if there is one, and of all matches the greediest |
| MqttPatterns.RegexIsLevelMatch | app/mqtt/router.py:16-18 | the expression of a pattern without dots matches a whole text, with given captures, if and only if the levels match one by one with those captures |
| MqttPatterns.SearchIsLevelMatch | app/mqtt/router.py:26-29 | for a pattern without dots and on every topic the search returns exactly the level captures, of the topic or else of the topic without its final newline |
| MqttPatterns.FilterIsLevelwise | app/mqtt/router.py:13-18 | the filter of sections 4.7.1.2 and 4.7.1.3 of MQTT 3.1.1 index by index: as many topic levels as pattern levels, at least as many before a final `#`, and every literal level equal |
| MqttPatterns.RouterAgainstStandard | app/mqtt/router.py:13-18 | the levels match exactly where they match under that filter and no wildcard stands for nothing, nor `#` for a text with a newline |
| MqttPatterns.RoutedBeyondSubscription | app/mqtt/router.py:16-29 | with a literal first level and no dots, a routed topic is no match of the standard, section 4.7.2 included, exactly when the pattern ends in a literal level and the topic is a match followed by a newline |
| MqttPatterns.RouterMatchIsSubscription | app/mqtt/router.py:13-18 | so for topics not ending in a newline every router match is a match of the standard |
| MqttPatterns.FinalNewlineIsRouted | app/mqtt/router.py:18 | the pattern `a` routes the topic `a` followed by a newline |
| MqttPatterns.RoutesOnlySubscriptionsIff | app/mqtt/router.py:16-18 | with a literal first level, every routed newline-free topic is a match of the standard if and only if no literal level holds a dot |
| MqttPatterns.DotRoutesMore | app/mqtt/router.py:16-18 | every pattern with a dot in a literal level routes some topic its filter does not match |
| MqttPatterns.DotMatchesSlash | app/mqtt/router.py:16-18 | the pattern `a.b` routes the topic `a/b` |
| MqttPatterns.DotSkipsNewline | app/mqtt/router.py:16-18 | the dot stands for no newline |
| MqttPatterns.DollarTopics | app/mqtt/router.py:13-29 | with a wildcard first level no topic that starts with `$` is a match of the standard, section 4.7.2, while the router's `#` routes every newline-free one |
| MqttPatterns.ParentTopicIsNotRouted | app/mqtt/router.py:16 | `a/#` covers the topic `a` in the standard but not in the router |
| MqttRouting.GroupDictIsBindings | app/mqtt/router.py:31 | the named arguments are the topic levels at the names' places |
| MqttRouting.BindingsExactly | app/mqtt/router.py:31 | every name of the pattern is bound to the topic level at its place, and nothing else is bound |
| MqttRouting.MqttRouter.Register | app/mqtt/router.py:12-24 | appends the compiled route, or nothing when a name is used twice |
| MqttRouting.RoutesByLevels | app/mqtt/router.py:26-29 | a pattern without dots routes a topic if and only if the levels match one by one |
| MqttRouting.MqttRouter.Dispatch | app/mqtt/router.py:26-37 | calls the first route that matches, with the named captures of the greediest match, without dots the levels at the names' places; calls no other; false when none matches or the handler raises |
| CanCodec.EncodeCanFrame | client-cpp/lib/sensorproto/sensor_message.cpp:75-93 | the byte-by-byte encoder writes the id in bytes 0-1 and the rounded hundredths in bytes 2-5, high byte first and modulo 2^16 and 2^32, the unit code in byte 6 and zero in byte 7 |
| CanCodec.FieldsOfEncoded | client-cpp/lib/sensorproto/sensor_message.cpp:75-93 | the encoded fields read back as id modulo 2^16, the rounded hundredths, the unit code and zero |
| CanCodec.UnitRoundTrip | client-cpp/lib/sensorproto/sensor_message.cpp:48-73 | which units and which codes survive the client's two tables |
| CanCodec.RoundTrip | client-cpp/lib/sensorproto/sensor_message.cpp:75-109 | decode after encode keeps the id modulo 2^16, moves the value by at most 0.005, and a second encode gives the same frame |
| CanCodec.FrameRoundTrip | client-cpp/lib/sensorproto/sensor_message.cpp:75-109 | encode after decode restores an 8-byte frame if and only if its code is 0-4 or 6-8 and its flags are zero |
| CanCodec.DecodersAgree | app/can/receiver.py:15-35 | both decoders read the same id and value, high byte first and signed, from every 8-byte frame, the same unit if and only if the code is 1, 2, 6, 7 or 8; shorter frames both refuse, longer ones only the client accepts, reading their first eight bytes |
| CanCodec.ClientToGateway | app/can/receiver.py:22-35 | what the gateway reads of an encoded reading: id, value within 0.005, and the unit for exactly five names (and the literal "unknown_0x0") |
| CanCodec.RoundHalves | client-cpp/lib/sensorproto/sensor_message.cpp:83 | a half of a hundredth is rounded away from zero on either side |
| CanCodec.ClientUnits | client-cpp/lib/sensorproto/sensor_message.cpp:48-58 | the client's code of each unit name, and 0 for exactly the other names |
| CanCodec.ClientUnknowns | client-cpp/lib/sensorproto/sensor_message.cpp:60-73 | the client reads exactly the codes 0, 5 and above 8 as "unknown" |
| CanCodec.GatewayUnitsAsDocumented | docs/can_protocol.md:22-29 | the gateway reads codes 1 to 8 as the protocol document says |
| CanCodec.UnknownUnitSpellsCode | app/can/receiver.py:34 | any other code it names by its hexadecimal value without leading zeros |
| CanCodec.UnitsMistaken | app/can/receiver.py:15-19 | kelvin arrives as percent and percent as hpa |
| BigEndian.HighByteFirst | client-cpp/lib/bytebuf/bytebuf.hpp:26-74 | written or read, the first byte weighs most; signed, its top bit weighs -2^31 |
| BigEndian.Bytes16RoundTrip | client-cpp/lib/bytebuf/bytebuf.hpp:26-62 | 16-bit big-endian bytes and values round-trip both ways, modulo 2^16 |
| BigEndian.Bytes32RoundTrip | client-cpp/lib/bytebuf/bytebuf.hpp:33-74 | 32-bit big-endian bytes give the value back modulo 2^32 |
| BigEndian.Signed32RoundTrip | client-cpp/lib/sensorproto/sensor_message.cpp:83-105 | two's complement: every int32 survives its four bytes, and every four bytes their int32 |
| ByteBuffers.ByteBuffer.WriteU8 | client-cpp/lib/bytebuf/bytebuf.hpp:20-23 | appends one byte |
| ByteBuffers.ByteBuffer.WriteU16Be | client-cpp/lib/bytebuf/bytebuf.hpp:26-30 | appends the two bytes of the value, high byte first |
| ByteBuffers.ByteBuffer.WriteU32Be | client-cpp/lib/bytebuf/bytebuf.hpp:33-39 | appends the four bytes of the value, high byte first |
| ByteBuffers.ByteBuffer.WriteBytes | client-cpp/lib/bytebuf/bytebuf.hpp:42-45 | appends the bytes given |
| ByteBuffers.ByteBuffer.ReadU8 | client-cpp/lib/bytebuf/bytebuf.hpp:48-52 | takes one unread byte, or fails leaving everything, if and only if none is left |
| ByteBuffers.ByteBuffer.ReadU16Be | client-cpp/lib/bytebuf/bytebuf.hpp:55-62 | takes two unread bytes as a value, or fails leaving everything, if and only if fewer are left |
| ByteBuffers.ByteBuffer.ReadU32Be | client-cpp/lib/bytebuf/bytebuf.hpp:65-74 | takes four unread bytes as a value, or fails leaving everything, if and only if fewer are left |
| ByteBuffers.ByteBuffer.Remaining | client-cpp/lib/bytebuf/bytebuf.hpp:80 | the number of unread bytes |
| ByteBuffers.RawIsRepeatedU8 | client-cpp/lib/bytebuf/bytebuf.hpp:42-52 | raw bytes read back are what repeated one-byte reads return |
| ByteBuffers.BytesRefineQueue | client-cpp/lib/bytebuf/bytebuf.hpp:20-74 | on every well-typed program of interleaved writes and reads the buffer answers as a first-in first-out queue of the values |
| ByteBuffers.RunOn | client-cpp/lib/bytebuf/bytebuf.hpp:20-74 | running such a program on the buffer object returns what the queue returns and leaves the bytes of the values still waiting |
| ByteBuffers.WriteThenReadBack | client-cpp/lib/bytebuf/bytebuf.hpp:20-80 | writing any items and reading with their types returns them in order and leaves nothing |
| Bounded.LastNOfAppend | app/can/buffer.py:20-29 | dropping the oldest on overflow keeps exactly the last n of everything recorded |
| Bounded.TailSliceExactly | app/can/buffer.py:38 | `[-limit:]` index by index for every limit, zero and negative ones included |
| Bounded.RecentIsNewestFirst | app/can/buffer.py:37-39 | for limit at least 1 the listing is the newest entries, newest first |
| CircularBuffers.CircularBuffer.Push | client-cpp/inc/circular_buffer.hpp:16-22 | the slots read from the modular head hold the last capacity values pushed |
| CircularBuffers.CircularBuffer.Latest | client-cpp/inc/circular_buffer.hpp:24-30 | the last value pushed, or a failure when there is none |
| CircularBuffers.CircularBuffer.Size | client-cpp/inc/circular_buffer.hpp:32-36 | the smaller of capacity and the number of pushes |
| CircularBuffers.CircularBuffer.ToVector | client-cpp/inc/circular_buffer.hpp:40-48 | the last capacity values pushed, oldest first |
| FrameBuffers.FrameBuffer.Record | app/can/buffer.py:26-31 | the buffer holds the last max frames since reset, the counters count all of them per sensor |
| FrameBuffers.FrameBuffer.Recent | app/can/buffer.py:37-45 | the kept frames cut by `[-limit:]` and reversed, for any limit |
| FrameBuffers.FrameBuffer.Reset | app/can/buffer.py:47-52 | everything is as freshly constructed |
| FrameBuffers.FrameBuffer.GetStats | app/can/buffer.py:54-61 | frames received equal the sum of the per-sensor counters, each the number of its sensor's frames; buffer size is the smaller of that and max |
| FrameBuffers.CountersAddUp | app/can/buffer.py:30-31 | counters that count frames per sensor sum to the number of frames |
| AuditLogs.RunKeeps | app/audit.py:20-23 | after any run of records the log holds the last max entries; all of them for max 0, none for a negative max |
| AuditLogs.BoundedExactly | app/audit.py:22-23 | the bound holds on every run unless it is 0, when nothing is ever dropped |
| AuditLogs.AuditLog.Record | app/audit.py:20-23 | appends and cuts back as the run function says |
| AuditLogs.AuditLog.Recent | app/audit.py:25-30 | the kept entries cut by `[-limit:]` and reversed |
| Batching.RunConserves | client-cpp/inc/batch_accumulator.hpp:19-63 | after any run, whatever is answered and whatever throws: batches and pending items together are all items added in order, and successes plus failures plus pending is their number |
| Batching.BoundedUnlessAddThrows | client-cpp/inc/batch_accumulator.hpp:19-63 | at every moment of a run pending is below the batch size and no batch exceeds it, if and only if no add's submission has thrown |
| Batching.NextAnswerTakesAll | client-cpp/inc/batch_accumulator.hpp:46-63 | the next answered flush submits all that is pending at once |
| Batching.ThrownAddExceedsTheSize | client-cpp/inc/batch_accumulator.hpp:19-63 | with batches of two, an add that throws leaves two items pending and the next add submits three |
| Batching.AddSubmitsFullBatches | client-cpp/inc/batch_accumulator.hpp:19-25 | an add submits exactly when at least a full batch is pending and the submission does not throw, and then all of it; a full batch unless an add has thrown before |
| Batching.BatchAccumulator.FlushLocked | client-cpp/inc/batch_accumulator.hpp:46-63 | submits what is pending once, counts every item by the outcome, and clears; a submission that throws changes nothing |
| Batching.BatchAccumulator.Add | client-cpp/inc/batch_accumulator.hpp:19-25 | one add of the run, with its submission if any, and whether it throws |
| Batching.BatchAccumulator.Flush | client-cpp/inc/batch_accumulator.hpp:27-31 | one flush of the run, with its submission if any, and whether it throws |
| Batching.BatchAccumulator.Pending | client-cpp/inc/batch_accumulator.hpp:33-37 | below the batch size unless an add has thrown, and with the counted successes and failures the number of items added |
| CommandModel.RunKeepsInv | app/commands.py:26-56 | over every run the two indexes agree, delivery times mark exactly deliveries, and nothing pending stands before anything delivered |
| CommandModel.PollEffect | app/main.py:466-471 | a poll delivers exactly the sensor's pending commands and touches nothing else |
| CommandModel.HandedOutAreDelivered | app/main.py:455-471 | the concatenation of a sensor's poll outputs is its delivered commands in enqueue order |
| CommandModel.HandedOutAtMostOnce | app/main.py:455-471 | no id is handed out twice or to two sensors; pending and cancelled commands never were, delivered ones were |
| CommandModel.HandedOutInEnqueueOrder | app/main.py:466-471 | of two commands handed out to a sensor the first was enqueued for it by an earlier call |
| CommandModel.StepMoves | app/commands.py:35-53 | each call moves a command along the status machine only, and only a cancel cancels and a poll of its sensor delivers |
| CommandModel.OrderIsEnqueueOrder | app/commands.py:26-30 | a sensor's list is in the order of the calls that enqueued its commands |
| CommandModel.StatusToldFromCalls | app/commands.py:26-53 | a command's kind, payload and creation time are those of its enqueue; the first poll, cancel or acknowledgement after it decides whether it is pending, cancelled or handed out, and when; the last acknowledgement gives its result and makes it acked |
| CommandModel.HandedOutWhenPolledFirst | app/main.py:455-489 | a command's id is in its sensor's poll outputs if and only if a poll settled it first, and in no other sensor's |
| CommandModel.NeverPendingAgain | app/commands.py:35-53 | no continuation of a run makes a settled command pending again |
| CommandModel.PollLeavesNonePending | app/main.py:466-471 | after a poll nothing of that sensor is pending |
| CommandModel.AckedUnseenExactly | app/commands.py:48-53 | a command is acked without having been handed out if and only if some acknowledgement met it pending or cancelled |
| CommandModel.AckedWereHandedOutIff | app/commands.py:48-53 | over a run every acked command was handed out if and only if no acknowledgement met a pending or a cancelled command |
| CommandModel.AckedWithoutDelivery | app/commands.py:48-53 | the run enqueue, ack hands nothing out; the run enqueue, cancel, ack ends acked |
| CommandQueues.CommandQueue.Insert | app/commands.py:28-29 | the new object goes to the end of its sensor's list and under its id, and both indexes still hold the same objects |
| CommandQueues.CommandQueue.Enqueue | app/commands.py:26-30 | a fresh pending command, as the run function says |
| CommandQueues.CommandQueue.PendingFor | app/commands.py:32-33 | reading statuses through the list gives the pending ids the other index has, in order |
| CommandQueues.CommandQueue.MarkDelivered | app/commands.py:35-39 | updating the shared object by id changes that command everywhere and no other |
| CommandQueues.CommandQueue.Cancel | app/commands.py:41-46 | true if and only if the command was pending, and then cancelled |
| CommandQueues.CommandQueue.Ack | app/commands.py:48-53 | acknowledges whatever the status |
| CommandQueues.PollCommands | app/main.py:455-471 | 404, 401 and 500 (keys that cannot be compared) change nothing; otherwise the body lists exactly the ids pending for the sensor, now delivered, each with the kind and payload it was enqueued with for that sensor, and extends what the sensor's polls have returned so far |
| CommandQueues.AckCommand | app/main.py:475-489 | 404 for an unknown id, 401 for a wrong key of the command's own sensor, 500 for keys that cannot be compared, otherwise one acknowledgement |
| CommandQueues.CancelCommand | app/main.py:1118-1126 | succeeds if and only if the command is pending; 409 and 404 change nothing |
| TagRegistry.RegistryRefinesMaps | app/tags.py:16-27 | after any run keys are unique per sensor and the lists hold just the map from sensor to key to value |
| TagRegistry.ReferenceFromLog | app/tags.py:16-27 | a key of a sensor has a value if and only if the last call about it gave that value |
| TagRegistry.OrderIsFirstTagged | app/tags.py:16-18 | the registry lists exactly the sensors ever tagged, in the order in which each was first tagged |
| TagRegistry.OneGroupEach | app/tags.py:41-49 | a sensor is in at most one group |
| TagRegistry.TagRegistry.AddTag | app/tags.py:16-23 | overwrites or appends as the run function says |
| TagRegistry.TagRegistry.RemoveTag | app/tags.py:25-27 | drops the key of that sensor |
| TagRegistry.FoundFromLog | app/tags.py:32-39 | a search finds exactly the sensors whose key was last given that value, in the order in which they were first tagged |
| TagRegistry.TagRegistry.FindByTag | app/tags.py:32-39 | the sensors found, as the log says, in first-tagged order |
| TagRegistry.FindMembers | app/tags.py:32-39 | a sensor is found if and only if it carries a matching tag |
| TagRegistry.TagRegistry.GetGroups | app/tags.py:41-49 | each group is what the search for its name returns, as the log says and in first-tagged order, and none is empty |
| Rollout.ExactlyTheGroup | app/main.py:521-528 | a rollout enqueues one ota-update for every sensor whose group was last given that name and none for any other, in first-tagged order |
| Rollout.EnqueueForAll | app/main.py:526-528 | the loop enqueues one ota-update per target in order and reports its id |
| Rollout.FirmwareRollout | app/main.py:517-530 | 400 and 404 change nothing; otherwise one ota-update per group member, in order, with its id in the answer |
| Cursors.AfterIsSuffix | app/main.py:925-927 | the rows after an id are the end of the table in id order |
| Cursors.SinceAnswer | app/main.py:920-928 | one request: 400 exactly for a limit outside 1..1000, otherwise the first limit rows, or all there are, with larger ids |
| Cursors.CursorIsComplete | app/main.py:920-928 | repeated requests on a growing table, refused ones included, return a gapless prefix of the rows after the start, each once and in order, and all of them once a page is short |
| Cursors.WalkListsAll | app/main.py:920-928 | on a fixed table the page walk ends and lists every row after the start |
| Cursors.StreamTurn | app/main.py:542-556 | one turn yields the new joined rows and leaves the cursor on the last of them |
| Cursors.StreamYieldsExactly | app/main.py:541-556 | whatever tables and sensors the turns find, the stream yields ids in increasing order, and a row if and only if, when first joined, it is beyond the start and above every row joined before |
| Cursors.LateSensorIsSkipped | app/main.py:541-556 | in two turns, a row whose sensor appears after a higher row was sent is never yielded |
| Cursors.StreamIsComplete | app/main.py:541-556 | on a growing table whose rows' sensors stay, after each turn the stream has yielded every joined row beyond its start once, in id order |

## Left out

- Rounding of the reported numbers (`round(..., 4)`) and IEEE floating-point error, infinities and NaN: the statistics are stated on exact reals; a timestamp that is infinite or not a number is modelled.
- Query building, sessions and commits: an endpoint takes the rows its query returned; how `limit` and `order_by` are executed is taken from SQL.
- Anomalies.CutoffIsExact: the standard deviation of the spike is a parameter, because the existence of square roots is not derivable from Dafny's reals.
- CanCodec.EncodeCanFrame: the value must fit the signed 32-bit field once scaled and rounded; outside it the C++ conversion is undefined.
- MqttRouting.MqttRouter.Register: covers patterns of levels that are literal, `{name}`, `+` or a final `#`, where literal text may hold dots but no other character that is special in a regular expression; other patterns, and capture names with letters beyond ASCII, are not modelled.
- MqttRouting.MqttRouter.Dispatch: exceptions of handlers are an oracle.
- TagRegistry.TagRegistry.AddTag: the `SensorTag` objects are values, so a caller changing a tag through a list it was given is not captured.
- CircularBuffers.CircularBuffer.constructor: a capacity of zero is excluded; the C++ code would index an empty vector on the first push.
- Batching.BatchAccumulator.Add: the metrics collector is a process-wide singleton; other users of it are not modelled.
- TcpFraming.HandleClient: one clock reading stands for all events of a connection; the socket and the database are the sequence of `recv` results and the line oracle; other connections interleave only in the event runs of `TcpCounters`.
- CommandQueues.CommandQueue.Enqueue: payloads are opaque strings; the enqueue request's registration check, and the audit entries that enqueue, cancel and rollout write, are not modelled.
- Sensor, alert, note, firmware and webhook endpoints, percentiles, exports and retention: plain queries and updates that would only add easy members.
- The UDP, UART and MQTT subscriber loops, the HTTP clients, the health checker, the watchdog and the retry policy: input and output, threads and timing.
