# Verification of the state machines, codecs and bounded tables of the panel

This project models the closed, deterministic logic behind the panel's API, worker, WebSocket service and browser
client, and proves what that logic is for. `dafny verify dfyconfig.toml` checks all of it. Each module follows one
part of the repository:

- `ContainerWatch`: the tracker that turns polls of container states into debounced, rate-limited notifications. A
  container's *history* is what it has shown since it was last learned; the tracker's counters are proved to be a
  summary of that history, and reports are characterized by the history alone.
- `Shell`: the single-quote quoter and the tokenizer of extra `docker run` options. A grammar of written words (bare
  characters, escapes, single and double quotes, the quoter's own form, in any mixture) gives each piece a meaning. The
  tokenizer is proved to read every written text as its meanings, and every string is such a text.
- `Base32`, `Totp`: the bit-buffer codec with its 32-bit wrap-around, dynamic truncation and the acceptance window.
- `Der`: the TLV and object-identifier writers of the self-signed certificate, against strict readers.
- `RateLimit`, `Audit`: tables with a sweep (and a clear), against tables that never forget.
- `Redact`: repeated replacement of secrets in a text.
- `MemoryGuard`: the hysteresis controller, alone and in closed loop with the resources it stops and starts.
- `Env`, `EnvTwice`: parser, printer and editor of `.env` text, and what editing twice does.
- `Hosts`: routing of an application and the handler that changes its domains, as steps on a team's applications.
- `OwnerCache`: event delivery over WebSockets with a cached, asynchronous owner lookup; any interleaving of the code
  between awaits is a list of steps.
- `Reconnect`: the browser's reconnecting socket, driven by the callbacks of sockets and timers.
- `InstanceBackup`: names of the panel's own backups and the retention that sorts by them.

`Wrappers`, `Text`, `StableSort` and `Radix` hold what the JavaScript runtime supplies: optional values, string
operations and string order, the stable sort, numerals and bitwise "or".

Code that works in place is a method or a class with the source's fields; its `ensures` ties the new state and the
answer to a specification function, and the lemmas are about those functions over whole inputs or whole runs.

Where the code does not do what its comments say or what one would expect, the model follows the code:

- `guardStep` keeps counting when there is nothing to stop (`packages/shared/src/memoryGuard.ts:88`), although the
  comment at line 77 says the counters reset; `MemoryGuard.NothingToStopKeepsCounting` proves it.
- An ignored container is forgotten by the tracker (`packages/shared/src/containerWatch.ts:103`, `:128`), so it is
  learned anew, silently, when it is no longer ignored.
- Inside double quotes the tokenizer has no escape for a backslash (`packages/shared/src/shell.ts:29`), unlike section
  2.2.3 of the POSIX Shell Command Language; `Shell.DoubleQuotesReadBackExactlyWhen` gives the exact consequence.
- A body of 65536 bytes or more loses the high part of its length, and an arc of 2^31 or more loses its high groups
  (`packages/ssh/src/selfSignedCert.ts:19`, `:30`); the round trips say exactly when nothing is lost.
- Secrets that start or end with a star, or contain the mask, can survive redaction; `Redact.MaskedExactlyWhenSafe`.
- Backup names are in time order only while the number of digits of the year stays the same, and a sweep or clear shows
  when it forgets what is still needed; `InstanceBackup.YearsInOrderExactlyWhen`,
  `RateLimit.SweepIsInvisibleExactlyWhen` and `Audit.UnboundedExactlyWhenNothingIsLost` say exactly when.

## Model

| member | source | states |
|---|---|---|
| ContainerWatch.ContainerStatusTracker.Observe | packages/shared/src/containerWatch.ts:98-130 | a poll extends the history of every counted container, reports exactly the histories that end in a report, in row order, and forgets all other containers |
| ContainerWatch.ContainerStatusTracker.ObserveRow | packages/shared/src/containerWatch.ts:103-127 | one row changes the entry of its own container only, as one more sighting does |
| ContainerWatch.ContainerStatusTracker.DeleteUnseen | packages/shared/src/containerWatch.ts:128 | exactly the entries of unseen names go |
| ContainerWatch.SummaryExtends | packages/shared/src/containerWatch.ts:111-126 | the tracker's four counters are a summary of the whole history: the code's branches compute the summary of the longer one, and report exactly when the specification does |
| ContainerWatch.RunIsMaximal | packages/shared/src/containerWatch.ts:83-84 | the run that the specification counts shows one state throughout and is preceded by another one |
| ContainerWatch.RowsAreIndependent | packages/shared/src/containerWatch.ts:102-127 | within a poll of distinct names each container gets its own sighting and verdict, whatever the other rows are |
| ContainerWatch.HistoryIsOwn | packages/shared/src/containerWatch.ts:98-130 | over any run of polls, a container's history in the tracker is computed from its own rows since it was last learned |
| ContainerWatch.ReportedExactlyWhen | packages/shared/src/containerWatch.ts:98-130 | over any run of polls, a change is reported if and only if the container's own history ends in a report with that `from` and `to`, and the tracker then knows exactly the counted names of the last poll |
| ContainerWatch.ReportsFormAChain | packages/shared/src/containerWatch.ts:121-126 | the first report starts from the learned state, each next one from where the last one ended, none is from a state to itself, and neighbours are at least the interval apart |
| ContainerWatch.AtMostOnePerInterval | packages/shared/src/containerWatch.ts:85-86 | any two reports of one life are at least the interval apart |
| ContainerWatch.BlipsAreNeverReported | packages/shared/src/containerWatch.ts:83-84 | at a report the last `confirmPolls` sightings (at least one) all show the new state |
| ContainerWatch.SettledStateIsReported | packages/shared/src/containerWatch.ts:83-86 | conversely, a state that has stayed for `confirmPolls` polls is the one told last as soon as `minIntervalMs` have passed since the last report |
| ContainerWatch.HistoryIsWhatPollsShow | packages/shared/src/containerWatch.ts:98-130 | over any run of polls, the k-th sighting of a history from the end is what the k-th poll from the end shows of the container, and the poll before the first one does not show it |
| ContainerWatch.SightingExactlyWhen | packages/shared/src/containerWatch.ts:102-105 | a poll shows a container if and only if it has a row of a managed name that is not ignored, at the time of the poll and in the effective state of the row |
| ContainerWatch.TrackedExactly | packages/shared/src/containerWatch.ts:103-128 | after any run the tracker knows exactly the managed, not ignored names of the last poll |
| ContainerWatch.UnhealthyExactlyWhen | packages/shared/src/containerWatch.ts:63-65 | a failing healthcheck shows on a running container and nowhere else |
| ContainerWatch.ManagedExactly | packages/shared/src/containerWatch.ts:58-60 | a name counts if and only if it is `yeah-`, one of `app`, `db` and `svc`, a dash and a rest |
| ContainerWatch.ChangesFollowRows | packages/shared/src/containerWatch.ts:102-129 | the changes of a poll come from its rows, at most one a row, in the order of the rows |
| Shell.ParseDockerOptions | packages/shared/src/shell.ts:16-58 | the index loop computes the tokenizer's specification: all arguments, the unclosed quote, or the first reserved flag |
| Shell.CheckReserved | packages/shared/src/shell.ts:51-57 | the arguments are returned unchanged if and only if no flag is reserved; otherwise the error names the first reserved one |
| Shell.ReservedExactlyWhen | packages/shared/src/shell.ts:6-57 | options are refused if and only if one of them is one of the six reserved flags, alone or followed by an equals sign and any value |
| Shell.LexPiece | packages/shared/src/shell.ts:22-47 | one written piece, whatever follows it, adds its meaning to the current word and leaves no quote open |
| Shell.LexWord | packages/shared/src/shell.ts:22-47 | adjacent pieces join into one word |
| Shell.ParseReadsWords | packages/shared/src/shell.ts:16-58 | however words are written and spaced, the tokenizer returns their meanings, or names the first reserved flag among them |
| Shell.ParseReadsText | packages/shared/src/shell.ts:16-58 | a text of words and white space, with or without a last word, that ends plainly, in a lone backslash or in an open quotation, is answered by the meanings of its words, by the first reserved flag, or by the unclosed-quote error exactly for an open quotation |
| Shell.EveryInputIsText | packages/shared/src/shell.ts:16-58 | every string is such a text, so that the law above gives the answer to every input |
| Shell.UnclosedExactlyWhen | packages/shared/src/shell.ts:24-48 | the unclosed quote is reported if and only if the input is readable words, white space and a word prefix followed by a single or double quotation that is never closed |
| Shell.ParseUndoesQuote | packages/shared/src/shell.ts:2-58 | for every list of words, the quoted words joined by spaces parse to exactly those words, or to the reserved-flag error exactly when one is reserved |
| Shell.ReparseIsStable | packages/shared/src/shell.ts:2-58 | quoting the result of a parse and parsing again gives the same result |
| Shell.DoubleQuotesReadBackExactlyWhen | packages/shared/src/shell.ts:27-30 | a text written in double quotes with its special characters escaped reads back if and only if it does not end in a backslash |
| Shell.EscapedBody | packages/shared/src/shell.ts:27-30 | an escaped text is a closed body of double quotes exactly if it does not end in a backslash, always means the text, and otherwise takes the closing quote into the quotation |
| Base32.Base32Encode | apps/api/src/lib/totp.ts:5-19 | the loop over the wrapping 32-bit buffer writes the bits of the bytes in groups of five, padded with zeros: section 6 of RFC 4648 without padding |
| Base32.Base32Decode | apps/api/src/lib/totp.ts:21-36 | the loop returns the whole bytes among the bits of the symbols, or the error exactly if the upper-cased text has a character that is not a symbol |
| Base32.EncodeHolds | apps/api/src/lib/totp.ts:5-19 | read as a number, the symbols are the bytes followed by zero bits up to a multiple of five |
| Base32.DecodesTheBits | apps/api/src/lib/totp.ts:25-34 | any text of symbols decodes to as many whole bytes as its bits hold, and read as a number they are the symbols without the bits left over |
| Base32.AcceptsExactly | apps/api/src/lib/totp.ts:25-27 | a text is accepted if and only if each character before the padding upper-cases to symbols, which includes the ten letters outside ASCII that do |
| Base32.PushKeepsPending | apps/api/src/lib/totp.ts:10-14 | while at most 12 bits are pending, shifting in with wrap-around keeps all pending bits |
| Base32.TakeTop | apps/api/src/lib/totp.ts:13 | the unsigned shift and mask take exactly the top pending bits and leave the others pending |
| Base32.DecodeUndoesEncode | apps/api/src/lib/totp.ts:5-36 | decoding gives back every byte sequence, also from lower case and with any number of `=` appended |
| Base32.RoundTrip | apps/api/src/lib/totp.ts:5-36 | the plain round trip, with output length the least number of symbols that hold all bits |
| Totp.TruncateIsDynamic | apps/api/src/lib/totp.ts:47-48 | the code is made of the low 31 bits of the four bytes at the offset named by the last byte, all inside the 20 bytes: section 5.3 of RFC 4226 |
| Totp.CounterReadsBack | apps/api/src/lib/totp.ts:44-45 | the counter is eight bytes big-endian, and out of range exactly for negative or too large counters |
| Totp.CodeHasItsDigits | apps/api/src/lib/totp.ts:49 | every code has exactly the asked digits and denotes the truncated value modulo the power of ten |
| Totp.CodeExactly | apps/api/src/lib/totp.ts:43-50 | the code of the n-th span of 30 seconds signs the eight bytes that denote n with the decoded secret; a counter out of range is the first error, a secret that does not decode the second |
| Totp.AcceptsExactlyTheWindow | apps/api/src/lib/totp.ts:53-59 | a code is accepted if and only if the epoch is at least 30 seconds old and it is the code of some instant at most 30 seconds away |
| Totp.NearCodesAreAccepted | apps/api/src/lib/totp.ts:52-59 | the code of any instant within 30 seconds is accepted: section 5.2 of RFC 6238 |
| Totp.VerifyAnswers | apps/api/src/lib/totp.ts:53-59 | what is not six digits is no match; any six digits fail with the counter error before the epoch is 30 seconds old and with the secret error for a secret that does not decode, and are answered otherwise |
| Der.DerRoundTrip | packages/ssh/src/selfSignedCert.ts:14-21 | a reader of X.690 gets back tag, body and what follows if and only if the body is under 65536 bytes |
| Der.LengthIsMinimal | packages/ssh/src/selfSignedCert.ts:16-19 | length octets are minimal: sections 8.1.3 and 10.1 of X.690 |
| Der.TreeRoundTrip | packages/ssh/src/selfSignedCert.ts:14-24 | every list of nested elements that fits is read back whole, whatever its shape and depth |
| Der.ArcBytes | packages/ssh/src/selfSignedCert.ts:29-30 | the unshifting loop writes the base-128 groups of an arc, from 32-bit shifts |
| Der.Oid | packages/ssh/src/selfSignedCert.ts:25-34 | the identifier is the packed first pair and the groups of the other arcs, in order, under tag 6 |
| Der.ArcReadsBack | packages/ssh/src/selfSignedCert.ts:29-31 | one arc is read back (modulo 32-bit loss) with what follows it untouched, and never starts with a 0x80 octet: section 8.19.2 of X.690 |
| Der.OidRoundTrip | packages/ssh/src/selfSignedCert.ts:25-34 | decoding gives the same arcs if and only if the first two are legal and pack below 128 and the others are below 2^31 |
| Der.NameReadsBackExactlyWhen | packages/ssh/src/selfSignedCert.ts:23-57 | the name element of a certificate is read back, with the tags of a sequence, a set and a sequence, the identifier 2.5.4.3 and the string, if and only if the string has at most 65518 bytes |
| RateLimit.RateLimiter.HitKey | apps/api/src/lib/rateLimit.ts:22-38 | one call sweeps every 500th time, counts in the bucket of rule and key, and answers from it |
| RateLimit.RateLimiter.Sweep | apps/api/src/lib/rateLimit.ts:40-43 | exactly the buckets that are over go |
| RateLimit.SweepIsInvisible | apps/api/src/lib/rateLimit.ts:22-43 | for every run with a clock that never steps back, each call gets the answer of a limiter that never deletes a bucket |
| RateLimit.SweepShowsExactlyWhen | apps/api/src/lib/rateLimit.ts:25-43 | for any table of used buckets, a sweep changes the answer to a hit if and only if it deletes the bucket of the hit although the hit comes before its reset, and the rule allows something or the waits differ |
| RateLimit.BucketsAreInUse | apps/api/src/lib/rateLimit.ts:27-31 | every bucket of every run has been hit, which is what the exact condition needs |
| RateLimit.SweepIsInvisibleExactlyWhen | apps/api/src/lib/rateLimit.ts:22-43 | over any run, whatever the clock does, with limits of at least one: all answers are those of the limiter that never deletes if and only if no hit comes before the reset of a bucket that a sweep has deleted |
| RateLimit.AnswersFollowOwnHistory | apps/api/src/lib/rateLimit.ts:22-38 | each answer is determined by the times of the hits on the same rule and key |
| RateLimit.AnswersExactly | apps/api/src/lib/rateLimit.ts:27-37 | the answer counts the hits since the hit that opened the current window, allows exactly up to `limit` of them, leaves what remains of the limit, and makes only refused callers wait |
| RateLimit.SweptEvery500 | apps/api/src/lib/rateLimit.ts:23-42 | at every 500th hit, and counted over any run, no bucket that is over stays but the one that the hit opens |
| RateLimit.WindowBound | apps/api/src/lib/rateLimit.ts:27-36 | a fixed window, from the hit that opened it to its reset, holds at most `limit` allowed hits |
| RateLimit.SlidingBound | apps/api/src/lib/rateLimit.ts:25-37 | every half-open interval as long as the window holds at most `2 * limit - 1` allowed hits |
| RateLimit.SlidingBoundIsReached | apps/api/src/lib/rateLimit.ts:25-37 | the bound is tight for every positive limit and every window of at least two milliseconds |
| RateLimit.LimiterSlidingBound | apps/api/src/lib/rateLimit.ts:22-43 | the sliding bound for the limiter itself, over every run whose clock does not step back and in which the key keeps its rule, with any other keys and rules in between |
| RateLimit.RetryReachesReset | apps/api/src/lib/rateLimit.ts:36 | a refused caller's wait reaches the reset, and overshoots it by less than a second |
| RateLimit.WaitingIsRewarded | apps/api/src/lib/rateLimit.ts:27-36 | whoever waits as told is let in, unless hits of others on the same key since the reset have used up the limit |
| RateLimit.IdsAreDistinct | apps/api/src/lib/rateLimit.ts:25 | two rule names never share a bucket, for any keys, if and only if they are equal or neither with its colon begins the other |
| RateLimit.ColonFreeNamesAreApart | apps/api/src/lib/rateLimit.ts:46-48 | names without a colon, as all rules of the API have, satisfy that condition |
| Audit.AuditThrottle.Allow | packages/shared/src/audit.ts:199-208 | an event is refused exactly while its key is live; otherwise it is recorded, after a sweep and if need be a clear of a full table |
| Audit.RefusedExactlyWhen | packages/shared/src/audit.ts:199-208 | over every run with a clock that does not step back, an event is refused if and only if an event of its key was recorded less than `windowMs` before it and no clear came in between |
| Audit.RefusalHasACause | packages/shared/src/audit.ts:200-201 | over every run, whatever the clock does, a refused event has an earlier event of its key that was recorded and lies less than `windowMs` back |
| Audit.EntriesAreRecorded | packages/shared/src/audit.ts:200-206 | every entry of the table is the time of a recorded event of its key with no clear since |
| Audit.AuditThrottle.SweepExpired | packages/shared/src/audit.ts:203 | exactly the expired keys go |
| Audit.SweepIsInvisible | packages/shared/src/audit.ts:199-208 | with a clock that does not step back, sweeping never changes an answer; only clears can |
| Audit.ThrottleIsUnbounded | packages/shared/src/audit.ts:199-208 | with a clock that does not step back, while fewer than `maxKeys` keys are live at each call, every answer is that of the throttle that never forgets |
| Audit.UnboundedExactlyWhenNothingIsLost | packages/shared/src/audit.ts:199-208 | with such a clock, every call that could follow any prefix of a run is answered as by the throttle that never forgets, if and only if no call of the run throws live keys away; for `maxKeys` of at least one, if and only if nothing is ever cleared |
| Audit.ClearForgets | packages/shared/src/audit.ts:204 | when the table is cleared, every other live key goes from refused to allowed |
| Audit.StaysBounded | packages/shared/src/audit.ts:188-206 | in every run, whatever the clock does, the table holds at most max(1, `maxKeys`) keys |
| Audit.RecordedEventsAreSpaced | packages/shared/src/audit.ts:186-207 | with a clock that does not step back, two recorded events of one key with no clear between them are at least a window apart |
| Redact.SecretsAre | packages/shared/src/redact.ts:9-12 | the secrets are exactly the trimmed values of six characters or more, once each, longest first |
| Redact.LongerSecretsComeFirst | packages/shared/src/redact.ts:8-12 | no secret is tried before a longer one that contains it |
| Redact.EqualLengthsKeepOrder | packages/shared/src/redact.ts:10-11 | secrets of one length are tried in the order in which their values first occur |
| Redact.RedactSecrets | packages/shared/src/redact.ts:14-20 | the loop cuts out the secrets one after the other; a text without one is left as it is |
| Redact.ReplacesTheFirst | packages/shared/src/redact.ts:5-17 | the first occurrence of a secret becomes three stars, what precedes it stays, and the search goes on behind it |
| Redact.OneAfterAnother | packages/shared/src/redact.ts:15-18 | the secrets of a list are cut out one after the other, in its order |
| Redact.NothingNew | packages/shared/src/redact.ts:17 | replacing one secret never creates an occurrence of a star-safe string |
| Redact.SafeSecretIsMasked | packages/shared/src/redact.ts:14-20 | a star-safe secret does not occur in the output, whatever the text and the other secrets are |
| Redact.RedactionIsComplete | packages/shared/src/redact.ts:14-20 | nor does any string that contains a star-safe secret |
| Redact.MaskedExactlyWhenSafe | packages/shared/src/redact.ts:14-20 | a string is masked in every text, by every list of secrets it is in, if and only if it is not empty and neither starts nor ends with a star nor contains the mask |
| Redact.RedactionIsIdempotent | packages/shared/src/redact.ts:14-20 | if every secret is star-safe or has a star-safe one inside it, redacting again changes nothing |
| Redact.IdempotentExactlyWhen | packages/shared/src/redact.ts:14-20 | for one secret of any length, redacting again changes no text if and only if the secret is star-safe or the mask itself |
| Redact.CleanTextIsKept | packages/shared/src/redact.ts:16-18 | a text without secrets is not altered |
| Redact.EnvironmentValuesAreMasked | packages/shared/src/redact.ts:1-20 | from values to output: a long enough star-safe value of the environment does not stay readable, whatever the other values are |
| Redact.StarlessValuesAreMasked | packages/shared/src/redact.ts:1-20 | in particular every long enough value without a star |
| MemoryGuard.PickIsFirst | packages/shared/src/memoryGuard.ts:53-64 | the pick is eligible and comes before every other eligible resource, and there is one if any is eligible |
| MemoryGuard.StopsTheLeastImportant | packages/shared/src/memoryGuard.ts:53-57 | whenever a resource may be stopped, one is picked that is running, not critical and not yet stopped by the guard: of low priority if any such is, with the most memory among those of its priority (unknown memory counts as the least), and the first by name among those |
| MemoryGuard.StartsTheMostImportant | packages/shared/src/memoryGuard.ts:60-64 | whenever a resource may be started, one is picked that the guard stopped: critical before normal before low, and the first by name among those of its priority |
| MemoryGuard.PicksNothingOtherwise | packages/shared/src/memoryGuard.ts:53-64 | and nothing is picked if nothing may be stopped or started |
| MemoryGuard.PicksAreAllowed | packages/shared/src/memoryGuard.ts:53-64 | a critical resource is never stopped, and only what the guard stopped is started |
| MemoryGuard.CountersAreStreaks | packages/shared/src/memoryGuard.ts:79-102 | in every run the counters are the streaks of qualifying samples since the last action, never both positive |
| MemoryGuard.ActsExactlyWhen | packages/shared/src/memoryGuard.ts:79-102 | a stop (start) happens if and only if the streak has reached two (three) and something may be stopped (started), and it takes the pick |
| MemoryGuard.StopsExactlyWhen | packages/shared/src/memoryGuard.ts:79-89 | over every run, a sample brings a stop if and only if it and the one before it are high, the one before brought no action, and a running resource that is neither critical nor stopped by the guard exists |
| MemoryGuard.StartsExactlyWhen | packages/shared/src/memoryGuard.ts:91-98 | a sample brings a start if and only if it and the two before it are low, those two brought no action, and the guard has stopped something that is still stopped |
| MemoryGuard.ActionsAreEarned | packages/shared/src/memoryGuard.ts:17-20 | each stop (start) follows two (three) qualifying samples in a row, all after the previous action |
| MemoryGuard.ValidLimitsLeaveAGap | packages/shared/src/memoryGuard.ts:31-36 | limits are accepted if and only if they are in range and five points apart, and then no sample is both high and low |
| MemoryGuard.OneAction | apps/worker/src/jobs/memoryGuard.ts:56-63 | in closed loop, with memory read anew at every sample, the needed samples bring exactly one action, on the pick by the latest reading, and fresh counters |
| MemoryGuard.Drains | packages/shared/src/memoryGuard.ts:79-102 | `k` times the needed samples act on exactly `k` resources, in the order of their tiers (for a start, also of their names), and touch nothing else, whatever memory is read meanwhile |
| MemoryGuard.PressureShedsAll | packages/shared/src/memoryGuard.ts:79-102 | with n resources that may be stopped, 2n high samples stop exactly these n, whatever memory is read meanwhile; critical ones stay |
| MemoryGuard.PressureStopsEach | packages/shared/src/memoryGuard.ts:79-102 | resource by resource: after such pressure each one is stopped and marked if it was running, not critical and not marked, and as it was otherwise, up to its memory |
| MemoryGuard.CalmUndoesPressure | packages/shared/src/memoryGuard.ts:79-102 | pressure that stops all n followed by 3n low samples leaves every resource as it was, up to its memory |
| MemoryGuard.NothingToStopKeepsCounting | packages/shared/src/memoryGuard.ts:88 | with nothing to stop the counter goes on growing |
| Env.ParseEnvContent | packages/shared/src/env.ts:27-37 | the loop collects the entries of the lines that have one, in order |
| Env.LineHoldsExactly | packages/shared/src/env.ts:24-34 | a line holds an entry if and only if, trimmed, it is the prefix of the availability, a name, an equals sign and a value without line terminators |
| Env.ParsesLineByLine | packages/shared/src/env.ts:27-36 | a text is parsed line by line: the entry of its first line, if it holds one, and then those of the rest |
| Env.ParsedLinesAreClean | packages/shared/src/env.ts:24-34 | whatever a line holds, the entry read from it has a valid key and a one-line value without trailing white space |
| Env.RoundTripExactlyWhenClean | packages/shared/src/env.ts:113-117 | parsing the printed entries gives them back if and only if every key is a name and every value is one line without white space at its end |
| Env.PrintingNormalizes | packages/shared/src/env.ts:113-117 | for every text, printing what was parsed parses to the same entries |
| Env.SetEnvVariable | packages/shared/src/env.ts:94-111 | the loop and the two popping loops compute the editor's specification |
| Env.PopBlankLines | packages/shared/src/env.ts:107-109 | exactly the empty lines at the end are popped |
| Env.OwnMeansKey | packages/shared/src/env.ts:96 | among lines that hold an entry, the editor's pattern matches exactly those of the key |
| Env.OwnExactly | packages/shared/src/env.ts:96 | a line is taken for the key's if and only if what follows its leading white space begins with the key and an equals sign, or with `build:` or `both:` before them |
| Env.EditIs | packages/shared/src/env.ts:99-106 | the edited lines are the foreign lines in order with the assignment in place of the first own one |
| Env.EditedLinesExactly | packages/shared/src/env.ts:94-110 | the edited text line by line: the assignment stands where the first line of the key was, its further lines are gone and all others stay in order; without one it comes last; blank lines at the end go |
| Env.SetIsParsed | packages/shared/src/env.ts:94-111 | after an edit with a clean value the parser finds one runtime entry for the key with that value, and the entries of all other keys in unchanged order |
| Env.SetIsParsedExactlyWhen | packages/shared/src/env.ts:94-111 | and only with a clean value |
| EnvTwice.EditIsIdempotentExactlyWhen | packages/shared/src/env.ts:94-111 | for every text and value, editing twice is editing once if and only if no line before the assignment ends in a carriage return and the lines behind it are those of the value that do not set the key, followed by themselves, less carriage returns and blank lines at the end |
| EnvTwice.OneLineSettlesExactlyWhen | packages/shared/src/env.ts:94-111 | for a value of one line that is: if and only if no line of another key ends in a carriage return after splitting |
| EnvTwice.CrFreeSettlesExactlyWhen | packages/shared/src/env.ts:94-111 | without carriage returns it is: if and only if every further line of the value sets the key itself, or nothing follows the assignment and those that do not are blank |
| Hosts.ValidIsNormal | packages/shared/src/traefik.ts:12-23 | a valid hostname is its own normal form, so a stored host is read back as itself |
| Hosts.AddressIsNormalized | packages/shared/src/traefik.ts:12-19 | a pasted address, with white space around it, a scheme, a path, query or fragment and a dot at the end of the host, or without any of these, comes down to its host in lower case |
| Hosts.ValidExactlyWhen | packages/shared/src/traefik.ts:9-23 | label by label, a hostname is valid if and only if it has at most 253 characters, ends in a label of 2 to 63 letters, and has before that one or more labels of 1 to 63 letters, digits and inner dashes |
| Hosts.RoutingIsProper | packages/shared/src/traefik.ts:38-51 | hosts are duplicate-free with the canonical one first, the redirect source is not among them, and together they are exactly the canonical host, the redirect source and the extras; without a redirect the canonical host is the main domain, with `www_to_root` it is the main domain less `www.` and the source is `www.` before it, with `root_to_www` the other way round |
| Hosts.HostsKeepOrder | packages/shared/src/traefik.ts:49 | behind the canonical host the additional ones keep the order in which they were listed first |
| Hosts.RequestIsNormalized | apps/api/src/routes/applications.ts:471-473 | a request's extra hosts are its normalized ones, once each, without blanks and without the main domain; an absent domain is none, and an absent redirect keeps the stored one |
| Hosts.RequestKeepsOrder | apps/api/src/routes/applications.ts:472 | and they keep the order in which they were given |
| Hosts.Applications.UpdateDomain | apps/api/src/routes/applications.ts:471-518 | the handler answers the first error in the order of its checks, or stores the requested row and no other |
| Hosts.ErrorsInOrder | apps/api/src/routes/applications.ts:478-512 | more than ten additional hosts are the first error, then the first invalid host, then a redirect without a main domain, and only then a taken host |
| Hosts.OnlyOneRowChanges | apps/api/src/routes/applications.ts:514-518 | a successful update stores the answered row for its application and no other, a failed one changes nothing |
| Hosts.Applications.Create | apps/api/src/routes/applications.ts:342-367 | a new application has no hostnames |
| Hosts.Applications.Clone | apps/api/src/lib/appCopy.ts:8-24 | a copy has none of its original's hostnames |
| Hosts.MineIsEffective | apps/api/src/routes/applications.ts:493-497 | the hosts the handler claims are exactly the effective hostnames of the row it will store |
| Hosts.ClashMeansOverlap | apps/api/src/routes/applications.ts:499-512 | the search finds nothing if and only if every other application's effective hostnames are disjoint from the claim; otherwise it names a host both have and the application that has it |
| Hosts.AcceptedExactlyWhenFree | apps/api/src/routes/applications.ts:465-518 | an update succeeds, storing exactly the requested row, if and only if the row's hosts pass the checks and no other application has one of its effective hostnames; otherwise a taken hostname is named |
| Hosts.UpdateKeeps | apps/api/src/routes/applications.ts:471-518 | an update keeps hostnames disjoint |
| Hosts.InsertKeeps | apps/api/src/lib/appCopy.ts:8-24 | so does a creation or a copy, which adds one row without hostnames under the new id and name |
| Hosts.HostnamesStayDisjoint | apps/api/src/routes/applications.ts:471-518 | in every state reachable by creating, copying, updating and deleting, no two applications of a team share an effective hostname |
| OwnerCache.KeysAreDistinct | apps/ws/src/index.ts:98 | two resources share a cache key only if they are the same |
| OwnerCache.Service.Dispatch | apps/ws/src/index.ts:150-153 | the code up to the first await: drop, send at once, answer from an unexpired cache entry, or go to the database |
| OwnerCache.Service.OwnerRead | apps/ws/src/index.ts:101-106 | the code after the database's answer: a missing owner is not cached, a full cache is cleared first |
| OwnerCache.Service.Delivery | apps/ws/src/index.ts:153-157 | the code after the owner is known sends to the clients connected by then |
| OwnerCache.Service.Broadcast | apps/ws/src/index.ts:155-157 | the loop sends to exactly the clients that may receive the event, once each, in order |
| OwnerCache.Service.RefreshClients | apps/ws/src/index.ts:161-165 | a sweep starts exactly if none is running |
| OwnerCache.Service.SweepEnds | apps/ws/src/index.ts:166-169 | the end of a sweep allows the next one |
| OwnerCache.SweepsBeginAndEnd | apps/ws/src/index.ts:161-170 | in every interleaving a sweep is running after it was asked for and none is after it ended |
| OwnerCache.StepKeepsValid | apps/ws/src/index.ts:95-170 | every stretch of code between awaits, and every change of rows, clients and clock, keeps the invariant |
| OwnerCache.CacheStaysTrue | apps/ws/src/index.ts:95-107 | in every interleaving the cache holds at most 5000 entries, each naming the true owner, and at most one sweep runs |
| OwnerCache.OwnerIsNullOrTrue | apps/ws/src/index.ts:97-107 | `ownerOf` answers null or the true owner |
| OwnerCache.HitsAreFresh | apps/ws/src/index.ts:43-104 | every hit repeats an answer stored before it and less than five minutes before it; with a clock that does not step back, the storing is not in its future |
| OwnerCache.LookupsAreSavedForFiveMinutes | apps/ws/src/index.ts:44-104 | an owner that was looked up answers the next event about the resource without a lookup if and only if less than five minutes have passed, and storing it costs no other entry while there are fewer than 5000 |
| OwnerCache.MissesAreNotCached | apps/ws/src/index.ts:102-106 | a lookup without an owner leaves the cache as it is |
| OwnerCache.OnlyTheTeamReceives | apps/ws/src/index.ts:150-158 | no event reaches a client outside the team it names or the team that truly owns its resource |
| OwnerCache.TheWholeTeamReceives | apps/ws/src/index.ts:155-157 | once the owner is known, delivery reaches every connected client of the owning team and no other |
| OwnerCache.TeamEventsAreDelivered | apps/ws/src/index.ts:150-157 | after every run, an event that names a team is sent at once, exactly once, to exactly the connected clients of that team |
| OwnerCache.PlatformEventsAreDelivered | apps/ws/src/index.ts:150-157 | after every run, an event of the platform that names no team is sent at once to exactly the connected clients |
| OwnerCache.OwnedEventsAreDelivered | apps/ws/src/index.ts:97-157 | after every run, an event about a resource whose row exists reaches, through the cache or the database, exactly the connected clients of the owning team |
| OwnerCache.ResourceEventsAreLookedUp | apps/ws/src/index.ts:97-153 | an event that is only about a resource either starts a lookup of that resource or finds its true owner in the cache, and changes nothing else |
| OwnerCache.LookupsFindTheOwner | apps/ws/src/index.ts:60-106 | a lookup in flight finds the true owner if and only if the row exists when it is read, and what it found is what the dispatch goes on with |
| OwnerCache.FlightsAreIndependent | apps/ws/src/index.ts:97-158 | no other step, of other dispatches, clients, rows, sweeps or the clock, changes a dispatch in flight |
| OwnerCache.UnownedEventsReachNobody | packages/shared/src/wsAuth.ts:93-97 | without an owner nobody receives |
| OwnerCache.ClientsAreTheConnected | apps/ws/src/index.ts:137-143 | the clients are exactly those that connected and have not left since |
| OwnerCache.NobodyReceivesTwice | apps/ws/src/index.ts:53-157 | no client gets an event twice |
| OwnerCache.TeamsAreLoaded | apps/ws/src/index.ts:132-180 | a client has the teams it connected with until a sweep reloads them, and a reload changes that client only |
| OwnerCache.HitAgreesExactlyWhileRowExists | apps/ws/src/index.ts:99-101 | a hit gives the database's answer if and only if the row still exists |
| Reconnect.WsClient.Connect | apps/web/src/lib/ws.ts:22-46 | a socket is made exactly if there is none |
| Reconnect.WsClient.Subscribe | apps/web/src/lib/ws.ts:49-51 | connects if needed and adds the listener |
| Reconnect.WsClient.Unsubscribe | apps/web/src/lib/ws.ts:52 | removes the listener and nothing else |
| Reconnect.WsClient.OnOpen | apps/web/src/lib/ws.ts:25-27 | an open socket resets the backoff |
| Reconnect.WsClient.OnClose | apps/web/src/lib/ws.ts:36-44 | a close forgets the socket if it is the current one and schedules a retry only for listeners and only if none is pending |
| Reconnect.WsClient.OnTimer | apps/web/src/lib/ws.ts:39-42 | a retry clears its timer and connects if someone still listens |
| Reconnect.StepKeepsValid | apps/web/src/lib/ws.ts:22-53 | every callback keeps the invariant |
| Reconnect.OneSocketOneTimer | apps/web/src/lib/ws.ts:22-53 | in every reachable state at most one socket is open and at most one retry is pending, the client's fields name them, and a listener implies one of the two |
| Reconnect.ListenersAreSubscribed | apps/web/src/lib/ws.ts:49-52 | over every run, the listeners are exactly those subscribed and not unsubscribed since, whatever sockets and timers did |
| Reconnect.SubscribersReconnect | apps/web/src/lib/ws.ts:36-51 | over every run, while someone is subscribed and no socket is left exactly one retry is pending, and its firing opens one new socket |
| Reconnect.SubscribingConnects | apps/web/src/lib/ws.ts:49-51 | after subscribing exactly one socket is open |
| Reconnect.EventsAreConsumed | apps/web/src/lib/ws.ts:36-42 | a closed socket is gone and a fired timer is no longer pending, and none besides them |
| Reconnect.RetriesBackOff | apps/web/src/lib/ws.ts:25-43 | over every run, a retry is scheduled exactly when an open socket closes, someone listens and no retry is pending, and the k-th one since a socket last opened waits min(1000 * 2^k, 30000) ms |
| Reconnect.RetryReconnects | apps/web/src/lib/ws.ts:36-46 | with a listener and no socket a retry is pending, and its firing opens a new socket |
| Reconnect.SilentWithoutListeners | apps/web/src/lib/ws.ts:38-41 | once nobody listens or subscribes, no socket is opened and no retry is scheduled any more |
| InstanceBackup.OursExactlyInFourDigitYears | packages/shared/src/instanceBackup.ts:11-43 | a name matches the pattern if and only if its year has four digits |
| InstanceBackup.OursExactly | packages/shared/src/instanceBackup.ts:11 | a name is ours if and only if it is the folder, `yeah-`, eight digits, a dash, six digits and `.sql.gz` |
| InstanceBackup.NameHoldsTheInstant | packages/shared/src/instanceBackup.ts:37-43 | the digits of a name denote the year, month, day, hour, minute and second of its instant |
| InstanceBackup.NamesAreInTimeOrder | packages/shared/src/instanceBackup.ts:37-43 | names that match the pattern are ordered as strings exactly as their instants are in time, and equal exactly for equal instants |
| InstanceBackup.YearsInOrderExactlyWhen | packages/shared/src/instanceBackup.ts:39-43 | all names of a range of years are ordered as strings exactly as in time if and only if all years have as many digits, up to the odd cases of a single year, of -1 before 0 to 9, and of a pair like -10 and -9 |
| InstanceBackup.RetentionSplits | packages/shared/src/instanceBackup.ts:46-49 | kept and deleted names together are our names, each as often as listed; no kept one is older than a deleted one, as many as allowed are kept, and no foreign name is deleted |
| InstanceBackup.KeepsTheNewest | packages/shared/src/instanceBackup.ts:45-49 | no deleted backup is newer in time than a kept one |
| InstanceBackup.DeletedExactlyWhen | packages/shared/src/instanceBackup.ts:46-49 | from a listing without repeats a name is deleted if and only if it is ours and at least `keep` of ours in the listing are newer |
| InstanceBackup.DeletedNewestFirst | packages/shared/src/instanceBackup.ts:47-48 | the names to delete come from the newest to the oldest |
| InstanceBackup.NewestSurvive | apps/worker/src/jobs/instanceBackup.ts:51-53 | over every run of the job the newest `keep` backups are in the store, whichever deletions fail and however much the listing leaves out |
| InstanceBackup.ForeignStays | apps/worker/src/jobs/instanceBackup.ts:51-53 | no run touches an object that is not ours |
| InstanceBackup.ExactlyTheNewestRemain | apps/worker/src/jobs/instanceBackup.ts:51-53 | once the deletions of a run succeed, our objects are exactly the newest `keep` backups, also after earlier failures, if the folder held at most the 1000 objects that one listing names |

## Left out

- OwnerCache.OwnerIsNullOrTrue: the owner of a resource is fixed for good and rows only come and go; a change of owner would be seen after at most one time to live.
- Hosts.RequestIsNormalized: capitals outside ASCII other than the Kelvin sign are not lower-cased; a host with one is invalid either way, so that only the wording of the error or, with more than ten extra hosts, the choice of error can differ.
- Redact.RedactionIsIdempotent: for lists with several secrets the condition is sufficient only; for one secret it is exact (Redact.IdempotentExactlyWhen).
- InstanceBackup.ExactlyTheNewestRemain: with more than 1000 objects in the folder nothing is said about which older backups remain; the newest are kept in any case (InstanceBackup.NewestSurvive).
- Text is a sequence of characters where JavaScript has UTF-16 code units.
- `localeCompare` as the last tie-break of the memory guard is replaced by code-unit order; any fixed total order would do.
- HMAC is a parameter that returns 20 bytes; the comparison in constant time is plain equality.
- `timeMs / 1000 / 30` in floating point is integer division by 30000.
- The object identifier's dotted string is taken as its list of arcs, and instants as their UTC fields.
- Tracked entries and buckets are values in a map field; sharing them by reference is not modelled, since no reference leaves the method that updates it.
- The domain handler is one atomic step: two handlers that interleave between the select and the update are not modelled. Its check that a redirect string is one of the three modes is a type here.
- Hostnames assigned to previews and services, which other code paths set without the same check.
- The stop and start jobs of the memory guard are taken to be carried out before the next sample, and no one else stops, starts, adds or removes resources meanwhile.
- A sweep of the WebSocket service may reload the teams of any client, not only of those connected when it began, and a send has no effect but its place in the log.
- Delivery of messages to the listeners of the browser client, and the parsing of their payloads.
- `detectContainerProblems`, `expandReferences`, `renderRuntimeEnv`, `buildTimeEntries`, `isOriginAllowed`, `parseCookieHeader`, `ruleFor`, `isInstanceBackupDue` and the label and YAML builders: straight-line or easy members next to the ones modelled.
- UTF-8 strings, times, keys and the signature inside the certificate: the element writer takes their bytes as given.
- Route handlers other than the domain update, database queries, SSH, S3, queues, notifications and the web interface.
