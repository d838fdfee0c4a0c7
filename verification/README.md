# ClearGate: verified models of the gateway's core

ClearGate sits between an organization's users and their LLM providers.  It scans prompts, decides
by policy, redacts, logs every decision to a hash-chained audit table, and limits who may call how
often.  This project models the parts of it whose correctness is hard to see from one function, and
proves what they guarantee.  Where a promise does not hold for every input, the code is kept as it
is, the failing inputs are exhibited, and the condition under which the promise holds is proved to
be exact: the promise holds if and only if the condition does.  "Left out" names the four exceptions,
under `SpelledPlaceholders.RestoresIff`, `Overwritten.SharedIff`, `Ibans.IbanRoundTripIff` and
`Copies.CopiesLeftIff`.

| file | what it models |
|---|---|
| `Strings.dfy` | the Go string functions the others rely on: containment, replacement, numerals |
| `Chain.dfy` | the canonical payload and the hash of one audit record |
| `AuditLog.dfy` | the replay loop `VerifyIntegrity`, tampering, deletion |
| `Rechaining.dfy` | edits by someone who can also write the hash columns |
| `LogProtocol.dfy` | `LogRequest` as a concurrent protocol: any number of writers and organizations, rollbacks at any step, retention runs without the lock |
| `LoggedRequests.dfy` | which request each logged row comes from, field by field |
| `Redaction.dfy` | the replacements of `SanitizeOutput`, for secrets looked for one after the other |
| `StreamScanner.dfy` | streaming redaction with a held-back tail |
| `StreamSplits.dfy` | exactly which lists of secrets may be streamed |
| `Sanitizer.dfy` | redaction with placeholders, and rehydration in any map order |
| `Redactions.dfy` | what sanitized text is made of: what is found is taken out |
| `Copies.dfy` | exactly when redaction takes out no more copies of a value than were found |
| `RoundTrip.dfy` | exactly when rehydration undoes redaction, for input that spells no placeholder |
| `Steps.dfy` | putting placeholders back one at a time: every two steps commute |
| `SpelledPlaceholders.dfy` | exactly when rehydration undoes redaction, on any input |
| `Overwritten.dfy` | findings that share a placeholder, among others that do not |
| `Ibans.dfy` | texts in which only IBANs are found, all behind one placeholder |
| `BrokenPlaceholders.dfy` | placeholders that are cut into, swallowed, or spelled by the input |
| `Watermark.dfy` | the zero-width watermark printer and parser |
| `MemLimiter.dfy` | the in-memory token bucket with eviction |
| `Refusals.dfy` | exactly which calls the token bucket refuses, and that a refusal costs nothing |
| `Redis.dfy` | the shared store: keys, values, expiries |
| `RedisLimiter.dfy` | the shared fixed-window limiter |
| `Anomaly.dfy` | the risk counter and the one-hour lockout |
| `Injection.dfy` | heuristic scoring, the sliding window, and the detector that chooses between them |
| `AttackScores.dfy` | which words of a prompt count, and how much |
| `Chunker.dfy` | cutting documents into overlapping chunks |
| `Policy.dfy` | the risk matrix |
| `Gateway.dfy` | the request path: lockout, verdict cache, decision, audit record; policy updates |
| `Verdicts.dfy` | what each finding does to the answer and the record of a request, in points |
| `Lockouts.dfy` | who is turned away, in scores, minutes and hours |
| `HealthRule.dfy` | the sanitizer's placeholder names as the risk matrix sees them |
| `AuditQuery.dfy` | the audit query builder and what its queries select |
| `AuditAnswers.dfy` | what the rows of an answer are, how many, and in which order |

The digest function is a parameter.  No theorem assumes that it is injective: where one depends on
it, the conclusion is "this holds, or here are two payloads that were hashed and collide (or one
that hashes to the Genesis constant)".

## What turned out to differ from the documentation

* The repository's own README (line 29) says that deletions and edits of the audit log are
  detectable.  The hash takes no key: whoever can write the hash columns can give any table columns
  that the replay accepts (`Rechaining.AnyTableIsAccepted`, `Rechaining.RechainedEdit`).  An edit
  that leaves the columns alone is reported, at the first row whose hashed fields it changed
  (`Rechaining.InPlaceVerdict`); one that moves text across a `|` between neighbouring fields may
  change none (`Chain.IndistinguishableIff`).  A deletion is reported exactly when a row stays behind
  a deleted one (`AuditLog.DeletionVerdict`), so deleting the newest rows is not.  For all edits at
  once the promise holds only against a last hash kept elsewhere, and then exactly
  (`Rechaining.KeptHashVerdict`).
* Retention deletes the oldest rows, which `VerifyIntegrity` then reports as a broken chain
  (`LogProtocol.OldestDeletedBreaks`, `LogProtocol.RetentionAcceptedIff`).  Because it does not take
  the lock, it can also leave a lone row that points at a deleted one (`LogProtocol.RetentionRace`).
* `Incr` is documented to set the expiry only for a new key.  It renews it on every call, so a
  "ten-minute window" of risk events can span 45 minutes (`Anomaly.RenewedWindowLocks`).
* Rehydration does not always undo redaction.  A replacement can cut into an earlier placeholder
  (`BrokenPlaceholders.NestedPlaceholder`) or swallow one
  (`BrokenPlaceholders.SwallowedPlaceholder`), and then some iteration order of the map leaves a
  placeholder in the text.  And the input can itself spell a placeholder, as text does that quotes an
  earlier answer: such a copy is replaced as well (`BrokenPlaceholders.SpelledPlaceholder`), unless
  it touches what the placeholder itself replaced (`BrokenPlaceholders.TouchedCopyRestores`).  `SpelledPlaceholders.RestoresIff` says exactly when
  every order gives the input back.  Walking the map last placeholder first does not mind the first
  two, but fails on the third as well (`SpelledPlaceholders.LastFirstIff`).
* All IBANs share one placeholder, so only the last one of a text is restored
  (`Ibans.SeparatedIbansIff`, `Ibans.TwoIbansIff`), whatever else is found in it
  (`Overwritten.TwoShareIff`, `Overwritten.SharedIff`).
* Streaming a response is not redacting it at once for secrets longer than 101 characters, nor when
  a secret that is looked for later can end inside one that is looked for earlier
  (`StreamSplits.StreamingExact`, `StreamSplits.OverlapInstance`).
* One more word can lower the score of a prompt: it makes the text a long one, which is judged in
  windows (`Injection.ScoreDropsIff`, `Injection.OneWordHides`).
* The audit pages are ordered by timestamp alone, so a row can be shown on two pages and another on
  none exactly when a tie lies across the page boundary (`AuditQuery.PagesJoinIff`).
* Idle token buckets are evicted after half an hour, which loosens a limiter whose period is longer,
  such as the sign-up limit without Redis (`MemLimiter.EvictionInvisibleIff`).
* `GetVerdict` is documented to return "SAFE" or "BLOCKED".  The handler stores "PASS", "MODIFY" and
  "BLOCK", so its fast path is never taken (`Gateway.NeverFastForward`).
* The risk matrix has a rule for a person together with medical terms.  No placeholder name ever
  says "medical", so it cannot fire from the handler (`HealthRule.HealthRuleNeverFires`).
* The audit search is a substring search only for texts without `%`, `_` and backslash
  (`AuditQuery.SearchIsSubstringIff`).

## Model

| member | source | states |
|---|---|---|
| Chain.BodyInjective | pkg/integrity/chain.go:21-33 | among records whose request id, user id and verdict hold no separator, equal payload bodies mean six equal fields, both integers included, whatever the threat details hold |
| Chain.PayloadInjective | pkg/integrity/chain.go:21-33 | with a separator-free previous hash the whole payload determines that hash and all six fields |
| Chain.PayloadPieces | pkg/integrity/chain.go:21-33 | field by field: the pieces between the separators of such a record are, in this order, previous hash, microseconds, request, user, verdict and risk score, followed by those of the details |
| Chain.PayloadOfOne | pkg/integrity/chain.go:21-33 | an instance, letter by letter |
| Chain.IndistinguishableIff | pkg/integrity/chain.go:21-33 | a record has a different double with the same payload exactly when one of the three middle fields holds a separator or its details hold a numeric piece in front of a separator |
| AuditLog.VerifyIntegrity | pkg/storage/postgres.go:656-726 | the replay loop reports valid exactly when every row carries its predecessor's hash and its own; otherwise it counts the rows in front of the first one that does not, gives that row's own id, and says tampering when the previous hash is the expected one, else the expected hash and the one found |
| AuditLog.NamesTheFirstBreak | pkg/storage/postgres.go:688-715 | the row that an invalid report names has a bad link, and every row with a smaller id a good one |
| AuditLog.SameHashSameHistory | pkg/integrity/chain.go:21-39 | two histories of any lengths that chain to one hash are the same, or a collision or Genesis preimage among the payloads hashed is returned; hence all hashes along a chain differ |
| AuditLog.IntactHash | pkg/storage/postgres.go:669-723 | on an accepted log the k-th stored hash is the chained hash of the first k records |
| AuditLog.TamperEvidence | pkg/storage/postgres.go:669-723 | two accepted logs ending in one hash have the same length and agree row by row on everything hashed, or two of the payloads hashed for these very logs collide (or one hashes to Genesis) |
| AuditLog.KeptLink | pkg/storage/postgres.go:688-715 | a row that was written on exactly the rows in front of it always passes both checks, whatever the hash function |
| AuditLog.LinkKeeps | pkg/storage/postgres.go:688-715 | behind an accepted prefix, a row that passes both checks was written on exactly the rows in front of it, or there is a break of the hash function |
| AuditLog.ExactVerdict | pkg/storage/postgres.go:656-726 | the replay breaks exactly at the first row in front of which something it was written on is missing or altered |
| AuditLog.DeletionVerdict | pkg/storage/postgres.go:656-726 | after deleting any rows of an accepted log the survivors break exactly at the first one whose predecessor went, so they are accepted exactly when they are a prefix |
| Rechaining.AnyTableIsAccepted | pkg/storage/postgres.go:656-726 | whatever records a table holds, with the unkeyed hash columns computed anew the replay accepts it, ids, organization and records as they are |
| Rechaining.AcceptedIff | pkg/storage/postgres.go:656-726 | the tables that the replay accepts are exactly those whose hash columns are the ones computed from their records |
| Rechaining.InPlaceVerdict | pkg/storage/postgres.go:688-715 | an edit of an accepted log that leaves the hash columns alone breaks it exactly at the first row whose hashed fields changed, or that row's two payloads collide |
| Rechaining.LastHashIff | pkg/storage/postgres.go:669-723 | two accepted logs end in one hash exactly when they agree on everything hashed, or payloads hashed for them break the hash |
| Rechaining.KeptHashVerdict | pkg/storage/postgres.go:656-726 | any table whatever passes the replay and ends in the log's last hash exactly when it has that log's length, hashed fields and hash columns, or there is a break of the hash function |
| Rechaining.RechainedEdit | pkg/integrity/chain.go:21-39 | any change of any record with the hash columns from there on computed anew is accepted with the rows in front untouched, and keeps the last hash exactly when it changes nothing hashed, or there is a break |
| LogProtocol.StoredTimeIff | pkg/storage/postgres.go:330-333 | a timestamp column that rounds to microseconds gives back the hashed value for certain exactly when less than half a microsecond was cut off; after truncation it always does |
| LogProtocol.StepKeepsInv | pkg/storage/postgres.go:329-402 | every step of every writer and every retention run keeps: committed rows were hashed on a recorded history, a writer that has read the last hash holds its organization's lock and read the hash of a recorded history, pending ids are newest and distinct |
| LogProtocol.PreviousIsChained | pkg/storage/postgres.go:352-365 | the hash read under the lock, with both Genesis fallbacks, is the chained hash of a recorded history |
| LogProtocol.ReadsWholeLog | pkg/storage/postgres.go:345-365 | without deletions, what the writer chains on under the lock is the whole log of its organization |
| LogProtocol.OthersIntact | pkg/storage/postgres.go:345-350 | while one writer holds an organization's lock nobody else appends to that log |
| LogProtocol.AppendRow | pkg/storage/postgres.go:352-365 | committing the newest row appends it to its organization's log in id order, also when rollbacks left gaps in the ids |
| LogProtocol.ChainStaysIntact | pkg/storage/postgres.go:329-402 | after any interleaving without deletions each organization's rows in id order are its committed records in commit order and form an accepted chain |
| LoggedRequests.RowsAreRequests | pkg/storage/postgres.go:329-402 | over every schedule, retention included: each row of an organization's log comes from an earlier request of that organization whose writer committed it, and holds that request's user, request id, verdict, details and score and its time in whole microseconds; no request yields two rows, rows stand in commit order, and without deletions no commit is missing |
| LoggedRequests.CommitAddsRequest | pkg/storage/postgres.go:368-402 | a commit adds exactly the request that its writer began with to that organization's log, and nothing to any other |
| LoggedRequests.OnlyCommitsAdd | pkg/storage/postgres.go:329-402 | no other step adds a row to any log |
| LogProtocol.AuditAfter | pkg/storage/postgres.go:656-726 | in each such state the replay answers valid, with every committed record counted |
| LogProtocol.ReachableVerdict | pkg/storage/postgres.go:329-402 | in every reachable state, retention included, the replay breaks exactly at the first row that was chained onto something other than the rows now in front of it, or there is a break of the hash function |
| LogProtocol.RetentionVerdict | pkg/storage/postgres.go:771-780 | in every reachable state whose log is accepted, retention leaves exactly the rows at or after the threshold, accepted exactly when they are a prefix of the log; otherwise the report names the first survivor whose predecessor was deleted, by its own id, with the hash of the survivor in front of it as expected and that of the deleted row as found |
| LogProtocol.RetentionAcceptedIff | pkg/storage/postgres.go:771-780 | retention on an accepted log of any reachable state, from the timestamps alone: accepted exactly when no row at or after the threshold follows an older one |
| LogProtocol.OldestDeletedBreaks | pkg/storage/postgres.go:771-780 | when the oldest row of an accepted log goes and some row stays, the report is a break at the first row that stayed, with nothing checked |
| AuditLog.PrefixIff | pkg/storage/postgres.go:669-723 | survivors are a prefix exactly when none of them stands behind a removed row |
| LogProtocol.RetentionIsScoped | pkg/storage/postgres.go:771-780 | retention for one organization leaves every other organization's log as it was |
| LogProtocol.RetentionRace | pkg/storage/postgres.go:771-780 | the same steps in two orders: retention before the writer's read leaves an accepted log, retention between read and commit leaves one that is rejected, unless the deleted row's digest is the Genesis constant |
| Redaction.SanitizeOutput | pkg/sanitizer/sanitizer.go:268-272 | the loop replaces every occurrence of each secret, one secret after the other |
| Redaction.RedactPart | pkg/sanitizer/stream.go:31-34 | for one secret, redacting a part of the text first makes no difference to redacting the whole |
| Redaction.RedactAllPart | pkg/sanitizer/stream.go:31-34 | nor does it for any list of secrets of which no later one can end inside an earlier one |
| Redaction.NothingLeftAll | pkg/sanitizer/sanitizer.go:268-272 | redacted text holds no occurrence of any of the secrets |
| Redaction.FoundBeforeAll | pkg/sanitizer/sanitizer.go:268-272 | redaction brings no bracket-free text about: what starts in redacted text was in the text before, as far from its end when it runs over it |
| Streaming.FlushIsSafe | pkg/sanitizer/stream.go:36-50 | clean text may be let go up to its last secret-length-minus-one characters, whatever is written later |
| Streaming.WritesKeep | pkg/sanitizer/stream.go:23-56 | after any writes, flushed text plus the redaction of the held-back text and anything to come is the redaction of everything, and at most `overlap` characters are held |
| Streaming.StreamingIsOneShot | pkg/sanitizer/stream.go:23-69 | for secrets of at most overlap + 1 characters that do not cut into each other, any split into writes followed by close gives the one-shot redaction, with no secret left |
| StreamSplits.LongSecretLeaks | pkg/sanitizer/stream.go:36-50 | among any live secrets, one of overlap + 2 characters or more, cut before its last one, is not redacted; on its own it comes out in full |
| StreamSplits.InnerFails | pkg/sanitizer/stream.go:23-69 | when a later secret lies in an earlier one and ends before it, some split of that one differs from the one-shot redaction |
| StreamSplits.OverlapFails | pkg/sanitizer/stream.go:23-69 | when a later secret ends in the start of an earlier one, their overlay cut behind the later one differs, at every length |
| StreamSplits.PrunedRedacts | pkg/sanitizer/sanitizer.go:268-272 | secrets that hold one looked for earlier never match, so leaving them out changes nothing |
| StreamSplits.StreamingExact | pkg/sanitizer/stream.go:14-69 | for any list of secrets: streaming equals one-shot redaction on all texts and splits exactly when, of those that can match, each has at most overlap + 1 characters and no later one can end inside an occurrence of an earlier one |
| StreamSplits.OverlapInstance | pkg/sanitizer/stream.go:23-69 | an instance: "xyzw" cut behind "xy", with "yzw" looked for before "xy" |
| Streaming.StreamScanner.constructor | pkg/sanitizer/stream.go:14-20 | an empty scanner holds back 100 characters |
| Streaming.StreamScanner.Write | pkg/sanitizer/stream.go:23-56 | the new sink and buffer after a write; no secret is ever in the buffer, and the buffer stays within the overlap |
| Streaming.StreamScanner.Close | pkg/sanitizer/stream.go:59-69 | after close the sink holds what streaming gives, which is the one-shot redaction of everything written when the secrets fit and do not cut into each other |
| Sanitizing.Sanitize | pkg/sanitizer/sanitizer.go:54-233 | the passes take the findings one by one in the reported order: a value is recorded under its placeholder and its first occurrence at that moment gives way to it; left alone are exactly card values with an opening bracket, passwords in brackets, entities whose placeholder is taken or whose value is gone, and tokens that are a placeholder already |
| Redactions.TakenOut | pkg/sanitizer/sanitizer.go:54-233 | a bracket-free value under a placeholder of its own gives way to it, whatever its kind |
| Redactions.CopiesLeft | pkg/sanitizer/sanitizer.go:54-233 | of a value whose copies no other finding touches, exactly one copy goes for each time it was found |
| Copies.CopiesAtMost | pkg/sanitizer/sanitizer.go:54-233 | whatever else is found, at least one copy goes for each time, so a value found as often as it occurs is gone |
| Copies.CopiesLeftIff | pkg/sanitizer/sanitizer.go:54-233 | for a value that cannot overlap itself, no more copies go than that exactly when it was found as often as it occurs or no replacement of another value touches a copy |
| Copies.TouchedCopyGoes | pkg/sanitizer/sanitizer.go:54-233 | an instance where more go: a name that occurs twice and is found once, next to an address that holds it |
| Redactions.SanitizedIsMadeOf | pkg/sanitizer/sanitizer.go:54-233 | when no replacement hits an earlier placeholder, the sanitized text is the input with one piece exchanged for its placeholder for each finding that replaced something, and nothing else changed |
| Redactions.CardIsRedacted | pkg/sanitizer/sanitizer.go:97-107 | an instance: a card number |
| Redactions.PersonIsRedacted | pkg/sanitizer/sanitizer.go:162-190 | an instance: a name |
| Sanitizing.Rehydrate | pkg/sanitizer/sanitizer.go:328-334 | the result is that of replacing the map's keys one after the other in some order that has each key once |
| Sanitizing.ApplyRepresents | pkg/sanitizer/sanitizer.go:61-233 | one replacement keeps the text a document of literal text and recorded placeholders standing for the input |
| Sanitizing.ReplaceFills | pkg/sanitizer/sanitizer.go:328-334 | replacing a placeholder everywhere fills its own holes, and copies of it in the literal text, and disturbs no other placeholder |
| Sanitizing.RehydrateUndoesSanitize | pkg/sanitizer/sanitizer.go:54-334 | when no replacement hits an earlier placeholder or overwrites another original, and every copy of a placeholder that the input spells touches what that placeholder replaced, rehydrating in every map order gives the input back |
| RoundTrip.RoundTripIff | pkg/sanitizer/sanitizer.go:54-334 | for findings numbered apart, any values, and input that spells none of the recorded placeholders: every map order gives the input back exactly when no replacement hits a placeholder of an earlier one |
| RoundTrip.PlainInputIff | pkg/sanitizer/sanitizer.go:54-334 | for input without brackets: exactly when each value that is replaced holds no bracket and its first occurrence starts outside the earlier placeholders |
| RoundTrip.NotClearFails | pkg/sanitizer/sanitizer.go:328-334 | any replacement that hits an earlier placeholder makes a map order fail: the one that walks the destroyed placeholder first |
| RoundTrip.LastFirstRestores | pkg/sanitizer/sanitizer.go:328-334 | whatever the replacements hit, walking the map last placeholder first gives the input back when no placeholder was spelled around the place where it went in |
| RoundTrip.Seam | pkg/sanitizer/sanitizer.go:61-233 | after a replacement a placeholder shows at the seam or where it showed before, so a destroyed one never comes back |
| Steps.Mirror | pkg/sanitizer/sanitizer.go:328-334 | putting placeholders back, one at a time and in any order, neither removes another placeholder nor cares when that one is put back |
| Steps.LeadsDown | pkg/sanitizer/sanitizer.go:328-334 | each placeholder put back takes one opening bracket out of the text |
| SpelledPlaceholders.LastFirstIff | pkg/sanitizer/sanitizer.go:328-334 | for values that open no bracket, on any input: last placeholder first gives the input back exactly when no placeholder was spelled around the place where it went in |
| SpelledPlaceholders.HitFails | pkg/sanitizer/sanitizer.go:328-334 | also where the input spells placeholders, walking one first that a later replacement destroyed fails |
| SpelledPlaceholders.CopyFails | pkg/sanitizer/sanitizer.go:328-334 | walking a placeholder last that the input spells beside what it replaced fails |
| SpelledPlaceholders.RestoresIff | pkg/sanitizer/sanitizer.go:54-334 | for findings numbered apart whose values open no bracket, on any input, and for any values on input that spells no placeholder: every map order gives the input back exactly when no replacement hits an earlier placeholder and every copy of a recorded placeholder in the input touches what that placeholder replaced |
| SpelledPlaceholders.SpelledIff | pkg/sanitizer/sanitizer.go:54-334 | when no replacement touches a placeholder, recorded or spelled: exactly when the input spells none of the recorded placeholders |
| SpelledPlaceholders.PlacedIff | pkg/sanitizer/sanitizer.go:54-334 | for bracket-free values found outside all brackets: exactly the inputs that spell no recorded placeholder come back |
| Sanitizing.VaultRoundTrip | pkg/sanitizer/sanitizer.go:54-334 | the two loops together return the input under the condition of RehydrateUndoesSanitize, which RestoresIff shows to be exact for the findings it is about |
| Sanitizing.PlaceholderInjective | pkg/sanitizer/sanitizer.go:61-233 | placeholder name and number can be read back from the placeholder |
| Sanitizing.NumbersApart | pkg/sanitizer/sanitizer.go:61-233 | names and numbers that differ give different placeholders |
| Sanitizing.NumberedIsFaithful | pkg/sanitizer/sanitizer.go:61-233 | numbering findings apart rules out overwriting |
| Ibans.IbanLengths | pkg/sanitizer/sanitizer.go:87-95 | for IBANs of any lengths the restored text is longer than the input by as much as the last IBAN, taken once for each, is longer than all of them together |
| Ibans.IbanRoundTripIff | pkg/sanitizer/sanitizer.go:87-95 | a text with IBANs can only come back when they are on average as long as the last; IBANs of one length come back exactly when they are all equal |
| Ibans.SeparatedIbansIff | pkg/sanitizer/sanitizer.go:87-95 | any number of IBANs of any lengths, each followed by a character that none of them holds, come back exactly when they are all equal |
| Ibans.TwoIbansIff | pkg/sanitizer/sanitizer.go:87-95 | two IBANs of any lengths come back exactly when they are equal |
| Overwritten.SharedIff | pkg/sanitizer/sanitizer.go:61-233 | for input without brackets and findings that may share placeholders, those that share having values of one length: every map order gives the input back exactly when no original was overwritten by another |
| Overwritten.AlwaysFilled | pkg/sanitizer/sanitizer.go:328-334 | for input without brackets and findings that may share placeholders, of any lengths: every map order gives the same text, with each hole filled with what the map kept, so the input comes back exactly when that text is the input |
| Overwritten.TwoShareIff | pkg/sanitizer/sanitizer.go:87-95 | two findings that share a placeholder, of any lengths, such as two IBANs, among any others that do not: exactly when the two values are equal |
| BrokenPlaceholders.NestedPlaceholder | pkg/sanitizer/sanitizer.go:112-126 | a password equal to a placeholder's name is cut out of that placeholder, and one map order does not restore the text |
| BrokenPlaceholders.SwallowedPlaceholder | pkg/sanitizer/sanitizer.go:61-126 | a password that runs on behind an e-mail address swallows its placeholder, and one map order leaves it in the text |
| BrokenPlaceholders.SpelledPlaceholder | pkg/sanitizer/sanitizer.go:61-74 | a placeholder that the input spells in front of the finding is replaced with it, by the only order there is |
| BrokenPlaceholders.TouchedCopyRestores | pkg/sanitizer/sanitizer.go:112-126 | a copy that touches what is replaced does no harm |
| BrokenPlaceholders.OwnPlaceholderRestores | pkg/sanitizer/sanitizer.go:128-186 | a value that reads like its own placeholder comes back on every input |
| Watermark.ToBinary | pkg/watermark/watermark.go:116-122 | the concatenated eight-or-more-digit numerals of the runes |
| Watermark.FromBinary | pkg/watermark/watermark.go:124-131 | one byte for each whole group of eight bits, the rest dropped |
| Watermark.Encode | pkg/watermark/watermark.go:24-55 | delimiter, user bits, delimiter, timestamp bits, delimiter; every character of it is zero-width |
| Watermark.MarkCharacters | pkg/watermark/watermark.go:24-55 | character by character: U+200D in front, between and behind, U+200B for each 0 and U+200C for each 1 of the user and then of the timestamp |
| Watermark.MarkOfOne | pkg/watermark/watermark.go:24-55 | an instance, bit by bit |
| Watermark.Decode | pkg/watermark/watermark.go:58-113 | the first pair of neighbouring segments that reads as a non-empty user id and an in-range timestamp; an error when there is none |
| Watermark.MarkedParts | pkg/watermark/watermark.go:92-99 | the delimiter segments of a text with a mark in it are those in front, the two of the mark, those behind |
| Watermark.DecodesInContext | pkg/watermark/watermark.go:24-131 | a mark of a non-empty ASCII user id and a non-negative timestamp is read back exactly out of any text in which nothing in front of it reads as a mark |
| Watermark.ShortSegmentsInContext | pkg/watermark/watermark.go:92-113 | a prefix whose zero-width runs after the first are shorter than eight bits is never in the way |
| Watermark.EarlierMarkWins | pkg/watermark/watermark.go:97-110 | an earlier readable pair decides the result, not the appended mark |
| Watermark.RoundTripIff | pkg/watermark/watermark.go:24-131 | a mark on its own is read back exactly when the user id is non-empty ASCII and the timestamp is not negative |
| Watermark.NegativeTimestamp | pkg/watermark/watermark.go:44-50 | a negative timestamp is read back as another one |
| MemLimiter.Limiter.constructor | pkg/api/ratelimit.go:35-43 | a limiter without buckets, with capacity and rate from burst and period |
| MemLimiter.Limiter.Allow | pkg/api/ratelimit.go:45-68 | answer and new bucket of one call: refill, cap, and spend unless refused; what that means over whole runs is RefusedIff, RefusedCostsNothing and RateBound |
| MemLimiter.Limiter.Sweep | pkg/api/ratelimit.go:70-81 | exactly the buckets untouched for over half an hour go |
| MemLimiter.RunSane | pkg/api/ratelimit.go:45-68 | over every run tokens stay between nothing and the capacity |
| MemLimiter.RateBound | pkg/api/ratelimit.go:45-68 | over every run without eviction and every interval a client is admitted at most burst plus rate times length times |
| MemLimiter.RateBoundIff | pkg/api/ratelimit.go:51-55 | that bound holds for all runs exactly when the burst is at least one |
| Refusals.RefusedIff | pkg/api/ratelimit.go:45-68 | over every run: a call is refused exactly when, since some earlier call of the client, the admissions have used up all but less than one token of what a full bucket and the refill gave |
| Refusals.RefusedIffEvicting | pkg/api/ratelimit.go:45-81 | the same with eviction, for periods of at most half an hour |
| Refusals.RefusedCostsNothing | pkg/api/ratelimit.go:57-66 | over every run: without a refused call every other call is answered as it was |
| MemLimiter.SpacedIsNeverRefused | pkg/api/ratelimit.go:45-68 | a client whose calls are at least one token's time apart is never refused |
| MemLimiter.EvictionIsInvisible | pkg/api/ratelimit.go:70-81 | with a period of at most half an hour every call of every run is answered as if nothing were evicted |
| MemLimiter.EvictionInvisibleIff | pkg/api/ratelimit.go:70-81 | and exactly then |
| MemLimiter.SignupLimitIsEvicted | cmd/server/main.go:154 | the sign-up limit of five an hour, kept in memory, admits ten calls within 45 minutes |
| Redis.Client.Incr | pkg/cache/redis.go:83-96 | the counter's new value and an expiry that moves with every call |
| Redis.Client.GetVerdict | pkg/cache/redis.go:36-48 | a non-empty answer comes from a live entry, and a live text is handed out as it is |
| Redis.SetThenGet | pkg/cache/redis.go:36-58 | what is set is what is got until its time to live is over, and nothing afterwards; other keys are untouched |
| Redis.GotIsLive | pkg/cache/redis.go:36-48 | a read is non-empty exactly for a live entry with a non-empty value |
| Redis.Client.SetVerdict | pkg/cache/redis.go:51-58 | the new value with its expiry, nothing else changed |
| Redis.Client.InvalidateOrg | pkg/cache/redis.go:65-80 | the scan leaves exactly the keys without the organization's prefix |
| Redis.Client.BlockUser | pkg/cache/redis.go:99-107 | the user's lock with its expiry |
| Redis.Client.IsBlocked | pkg/cache/redis.go:110-121 | blocked exactly when the lock is live and says so; no counter is ever taken for a lock |
| Redis.BlockLasts | pkg/cache/redis.go:99-121 | a lock holds for its duration and touches no other user |
| Redis.OrgKeyInjective | pkg/cache/redis.go:64 | organization and hash are read back from a cache key |
| Redis.InvalidateIsExact | pkg/cache/redis.go:65-80 | an organization's invalidation removes its own keys and no one else's: 1 never touches 12 |
| RedisLimiter.Allow | pkg/api/ratelimit.go:96-108 | answer and counter of one call |
| RedisLimiter.KeyInjective | pkg/api/ratelimit.go:100-101 | limiter keys of different endpoints, clients or slots differ |
| RedisLimiter.CounterIsExact | pkg/api/ratelimit.go:96-108 | a counter does not expire inside its own slot, so it counts every call of the slot |
| RedisLimiter.AdmitsFirstBurst | pkg/api/ratelimit.go:96-108 | over every run a call is admitted exactly when fewer than `burst` calls of that client came before it in the slot |
| RedisLimiter.AdmittedInSlot | pkg/api/ratelimit.go:96-108 | of the calls in one slot exactly as many are admitted as there are, up to `burst` |
| RedisLimiter.WindowAdmitsFirst | pkg/api/ratelimit.go:96-108 | in clock time: between two multiples of the window exactly the client's first `burst` calls are admitted |
| RedisLimiter.WindowBound | pkg/api/ratelimit.go:96-108 | any interval as long as the window admits at most twice the burst |
| Anomaly.AnomalyDetector.CheckAccess | pkg/security/anomaly.go:21-29 | access is allowed exactly when no lock is live |
| Anomaly.AnomalyDetector.TrackRisk | pkg/security/anomaly.go:32-45 | low scores change nothing; high ones count, and lock from the sixth |
| Anomaly.AnomalyDetector.TrackUsage | pkg/security/anomaly.go:48-62 | usage counts on a key of its own |
| Anomaly.UserKeys | pkg/security/anomaly.go:37-54 | risk, lock and usage keys of all users are distinct, whatever the user ids hold |
| Anomaly.RunState | pkg/security/anomaly.go:32-45 | over every run the counter is the length of the current streak of gaps under ten minutes, and the lock is that of the latest streak of six |
| Anomaly.LockedIff | pkg/security/anomaly.go:21-45 | a user is locked at a moment exactly when some high-risk event of the preceding hour ended at least six with gaps under ten minutes |
| Anomaly.SixInTenMinutesLock | pkg/security/anomaly.go:32-45 | six high-risk events within ten minutes always lock, for an hour from the last |
| Anomaly.RenewedWindowLocks | pkg/cache/redis.go:82-96 | so do six events nine minutes apart |
| Anomaly.LowScoresNeverLock | pkg/security/anomaly.go:32-46 | scores of up to 69 never lock anybody out |
| Anomaly.FiveNeverLock | pkg/security/anomaly.go:38-45 | nor do five high-risk events |
| Anomaly.GapStartsAnew | pkg/security/anomaly.go:36-45 | nor do up to five on either side of a gap of ten minutes |
| Anomaly.SixLockForAnHour | pkg/security/anomaly.go:32-46 | six scores of 70 with gaps of up to a millisecond less lock until one hour after the last, and no longer |
| Injection.CalculateAttackWeight | pkg/security/injection.go:137-168 | each of the three word lists counts once |
| Injection.PredictRisk | pkg/security/injection.go:87-109 | role patterns, contradictions and word lists of the lower-cased text added up, at most 100 |
| AttackScores.ScoreIs | pkg/security/injection.go:87-168 | the score of every text from the words in it: 40 for a role, 50 for a contradiction, 10 for urgency, 15 for secrecy, 5 for persuasion, at most 100 |
| AttackScores.OneKind | pkg/security/injection.go:87-168 | instances: one text for each kind that shows nothing of the others |
| Injection.RiskMonotone | pkg/security/injection.go:87-168 | a text is at least as risky as everything it contains |
| Injection.ScanWindowed | pkg/security/injection.go:58-84 | the scan with its early return computes the greatest risk of all 500-word windows that start at multiples of 400 |
| Injection.WindowedSandwich | pkg/security/injection.go:58-84 | that value is at most the risk of all words joined and at least the risk of every run of up to 101 words |
| Injection.LongerSpansAreMissed | pkg/security/injection.go:58-84 | in a text of over 1000 words a contradiction of any width from 102 words on, worth 50, can score 0 |
| Injection.SpanGuaranteeIff | pkg/security/injection.go:58-84 | every run of n words of every text of over 1000 words is judged at least as severely by the windowed scan exactly when n is at most 101 |
| Injection.Detect | pkg/security/injection.go:29-55 | the external classifier's block first, otherwise the local score, in windows from 1001 words on, against the threshold |
| Injection.FieldsJoin | pkg/security/injection.go:40-45 | words joined by blanks are split into the same words |
| Injection.ScoreDropsIff | pkg/security/injection.go:43-47 | another word lowers the local score exactly when it is the 1001st and every window is less risky than the text was as a whole |
| Injection.OneWordHides | pkg/security/injection.go:43-84 | an instance: a text of 1000 words that scores 50 scores 0 with one more |
| Chunker.ChunkText | pkg/vector/parser.go:53-71 | a short text whole, otherwise one piece for every start inside the text |
| Chunker.ChunkLengths | pkg/vector/parser.go:53-71 | no chunk is longer than the chunk size, and none is empty unless the text is |
| Chunker.ReconstructsIff | pkg/vector/parser.go:53-71 | the first chunkSize - overlap runes of the chunks glue back to the text exactly when the text is cut or no longer than that |
| Chunker.PhrasesSurviveIff | pkg/vector/parser.go:62-68 | in a cut text every phrase of n runes stands in one chunk, letter by letter at its place in the text, exactly when n is at most overlap + 1 |
| Policy.AnalyzeRisk | pkg/policy/engine.go:105-189 | blocked exactly on a close vector match, health data, a hidden injection, or a sum of signals at the bar of the sensitivity; redacted when sensitive otherwise; the reason is that of the gravest finding, in a fixed order of all six, or says what the action is for when there is none |
| Policy.Matrix | pkg/policy/engine.go:110-151 | the score before the sensitivity adjustment is the sum of the signals unless a critical combination forces it |
| Verdicts.VerdictIff | pkg/policy/engine.go:105-189 | exactly which findings are refused and which pass, in points: obfuscation and foreign domain 30, leak 100, person 20, the two scores in hundredths, against 90, 80 and 50 |
| Verdicts.ForcedScore | pkg/policy/engine.go:135-151 | in the two critical combinations the score is 100, 110 at HIGH, with 20 more for a name that is not health data |
| Verdicts.SingleFindings | pkg/policy/engine.go:105-189 | one finding alone: a leak is refused at every sensitivity, a score from its own bar on, a name is redacted, the rest pass |
| Verdicts.Together | pkg/policy/engine.go:105-189 | any two of obfuscation, foreign domain and name are refused at HIGH only, all three at MEDIUM as well |
| Verdicts.Reasons | pkg/policy/engine.go:105-189 | the reason texts, and which goes before which |
| Policy.ActionMonotone | pkg/policy/engine.go:105-189 | stronger signals and a stricter sensitivity never soften the action |
| Policy.ScoreCanDrop | pkg/policy/engine.go:135-139 | the score is not monotone, at any sensitivity |
| Policy.DropsOnlyIntoBlock | pkg/policy/engine.go:135-145 | it drops only into one of the forced verdicts, which block |
| Gateway.GatherSignals | pkg/proxy/handler.go:179-242 | the findings of the enabled modules, and of no other, make up the risk context |
| Verdicts.AnswerIff | pkg/proxy/handler.go:179-316 | exactly which scanned requests are refused, from the request and the policy alone; any other is forwarded, redacted when something was found |
| Verdicts.CloseMatchIsBlocked | pkg/proxy/handler.go:198-203 | with the vector guard on, a match above 0.82 is refused at every sensitivity, with its reason |
| Verdicts.LeakIsBlocked | pkg/proxy/handler.go:179-245 | with leak detection on, so is a leak |
| Verdicts.HiddenAttemptIsBlocked | pkg/proxy/handler.go:179-245 | with injection detection on, so is an obfuscated attempt |
| Verdicts.SwitchedOffIsIgnored | pkg/proxy/handler.go:179-242 | what a switched-off detector finds changes neither the answer nor the record nor the store |
| Gateway.InferFlags | pkg/proxy/handler.go:234-242 | walking the map in any order sets the person and medical flags exactly when some placeholder names them |
| Gateway.StricterPolicyNeverSoftens | pkg/proxy/handler.go:179-245 | switching a detector on or raising the sensitivity never softens the decision on any request |
| Gateway.UpdateIsScoped | pkg/api/admin.go:196-213 | an update takes effect at once, drops all of the organization's cached verdicts and touches no other organization's policy or verdicts |
| Gateway.ProxyHandler.LogAndCache | pkg/proxy/handler.go:375-399 | one audit record, unless the insert fails, and one cached verdict with an hour to live in any case |
| Gateway.ProxyHandler.ServeHTTP | pkg/proxy/handler.go:101-316 | answer, store and audit log after one request, for every branch from lockout to forwarding; what they mean for each finding is AnswerIff, ScannedIsRecorded, RecordedScore and ScanIsCached |
| Verdicts.ScannedIsRecorded | pkg/proxy/handler.go:245-316 | a scanned request, refused or not, leaves one record exactly when the insert succeeds: whose it is, what was decided, and the reason or what was redacted |
| Verdicts.UnscannedIsNotRecorded | pkg/proxy/handler.go:110-177 | a request that is turned away or answered from the cache leaves none |
| Verdicts.RecordedScore | pkg/proxy/handler.go:147-253 | the recorded score: the points, the sensitivity's adjustment, and 30 once more for obfuscation |
| Verdicts.InjectionRaisesScore | pkg/policy/engine.go:110-151 | an injection finding raises the recorded score by its hundredths |
| Verdicts.ForeignDomainRaisesScore | pkg/policy/engine.go:110-151 | a foreign domain raises it by 30 |
| Verdicts.ScanIsCached | pkg/proxy/handler.go:375-399 | the verdict of a scan is kept for an hour under organization and content |
| Gateway.ProxyHandler.ServeConfig | pkg/api/admin.go:196-213 | the new policy, and the organization's cached verdicts gone |
| Gateway.Provenance | pkg/proxy/handler.go:160-177 | over every run each cached verdict is the decision on an earlier scanned request of that organization and hash, under the policy still in force, with no update in between |
| Gateway.NeverFastForward | pkg/proxy/handler.go:164-170 | "SAFE" is never in the cache, so no run forwards anything unscanned |
| Gateway.CacheOnlyRefuses | pkg/proxy/handler.go:160-177 | every answer is that of a gateway without a cache, or repeats a refusal of the same content under the same policy within the last hour |
| Gateway.ForwardedIsCheckedAndLogged | pkg/proxy/handler.go:245-316 | what is sent was allowed by the policy in force and is the redacted body when the policy says so; its record is in the audit log before that exactly when the insert succeeds |
| Gateway.RepeatsLeaveNoTrace | pkg/proxy/handler.go:171-175 | any number of repeats of refused content leaves audit log, counters and cache as they were until the verdict expires |
| Gateway.CachedRefusalAgreesIff | pkg/proxy/handler.go:145-177 | with findings fixed by the content, over all runs that end under a policy: a cached refusal agrees with a fresh scan exactly when the obfuscated spelling being refused means that the request itself is |
| Gateway.RefusalCarriesOver | pkg/proxy/handler.go:153-177 | in any run a cached refusal agrees with a fresh scan when the earlier requests with that hash were found no worse than something whose refusal implies this one's |
| Gateway.ObfuscatedCopyRefusesPlain | pkg/proxy/handler.go:145-161 | an instance of the disagreement: an obfuscated spelling's refusal is served to the plain prompt, which alone would be forwarded |
| Gateway.RefusedIff | pkg/proxy/handler.go:110-117 | over every run of the whole handler a request is turned away exactly when detection is on and a counted refusal of the last hour ended six with gaps under ten minutes |
| Lockouts.TurnedAwayIff | pkg/proxy/handler.go:110-117 | the same in numbers: six refusals with 70 points or more for the record, each less than ten minutes after the one before, the sixth less than an hour ago |
| Lockouts.ForwardedIsCounted | pkg/proxy/handler.go:306-309 | a forwarded request is counted while detection is on, for an hour from the last one |
| Lockouts.NothingSet | pkg/policy/engine.go:59-72 | an organization that has set nothing is judged by every detector, at MEDIUM |
| HealthRule.HealthRuleNeverFires | pkg/proxy/handler.go:234-242 | for everything the sanitizer can put into the map, the person-and-medical rule of the risk matrix does not apply |
| HealthRule.PersonIsNoticed | pkg/proxy/handler.go:234-242 | a redacted person's name is noticed, and the request is redacted or refused |
| AuditQuery.BuildQuery | pkg/storage/postgres.go:459-526 | the conditions select exactly the rows the filter asks for, NULLs included, and the placeholders are $1 to the number of arguments without gap or spare |
| AuditQuery.Extend | pkg/storage/postgres.go:468-510 | adding one condition with its own numbered argument leaves the meaning of the earlier ones alone |
| AuditQuery.SearchMeaning | pkg/storage/postgres.go:505-510 | the one search argument serves three columns, and a NULL in one does not hide a match in another |
| AuditQuery.QueryMeansFilter | pkg/storage/postgres.go:459-532 | what the database may answer is exactly: filter, sort newest first, skip the offset, take the limit (100 unless positive) |
| AuditQuery.PagesJoinIff | pkg/storage/postgres.go:512-530 | any answers to two consecutive pages join into an answer for both exactly when no tie of timestamps lies across the boundary |
| AuditQuery.TieRepeats | pkg/storage/postgres.go:512-530 | on such a tie one row can be on both pages and another on none |
| AuditQuery.ConsecutiveAnswers | pkg/storage/postgres.go:459-530 | without one, the answers to two queries of the builder that differ by one page join |
| AuditQuery.AnswersStayInOrg | pkg/storage/postgres.go:460-464 | no answer to any filter holds another organization's row |
| AuditAnswers.AnswerIs | pkg/storage/postgres.go:459-532 | field by field: an answer holds only rows that were asked for, newest first, and as many as are left behind the offset up to the limit, 100 unless positive |
| AuditAnswers.LeftOut | pkg/storage/postgres.go:459-532 | a row that was asked for is withheld only from a full answer in which no row is older |
| AuditQuery.SearchIsSubstringIff | pkg/storage/postgres.go:505-510 | the search is a case-insensitive substring search on all texts exactly when the search text has no per cent sign, underscore or backslash |

## Left out

- StreamSplits.StreamingExact: does not model the regular expressions of `SanitizeOutput`, which find the secrets; they are a list of literals, none of which may hold a bracket or occur in a marker.
- SpelledPlaceholders.RestoresIff: for a value that opens a bracket, on input that spells a recorded placeholder, only RehydrateUndoesSanitize is proved; the condition is not necessary there (BrokenPlaceholders.OwnPlaceholderRestores).
- RoundTrip.RoundTripIff: is stated for findings with different placeholders; for those that share one, Overwritten.SharedIff, TwoShareIff and the theorems of `Ibans.dfy` say what holds.
- Ibans.IbanRoundTripIff: for three or more IBANs of different lengths that are not all followed by a character foreign to them there is no condition on the values alone, only a necessary one on their total length and the comparison of texts of Overwritten.AlwaysFilled; three that stand side by side can come back although they differ.
- Overwritten.SharedIff: is stated for input without brackets, where what fills a hole cannot complete a placeholder that the text around it spells in part.
- Sanitizing.Sanitize: does not model what the regular expressions, the entity recognizers and the entropy test find; the findings are an arbitrary input, so every result holds for whatever they report.
- Copies.CopiesLeftIff: is stated for bracket-free values under placeholders of their own, and for a value no end of which is a start of it; where copies can overlap, counting them without overlaps can come out even although one was touched, so only CopiesAtMost and CopiesLeft are proved.
- LogProtocol.ChainStaysIntact: does not model a risk score outside the INTEGER column, a NUL byte in a text column, or the id sequence running over its 32 bits; the first two make the insert fail, which the model covers as a rollback.
- LogProtocol.StepKeepsInv: assumes the advisory lock is released at commit or rollback and that each statement sees what was committed before it, as PostgreSQL's default isolation gives.
- RedisLimiter.WindowBound: assumes a window of whole seconds, one clock for all instances, and no Redis errors (which let requests pass).
- MemLimiter.RateBound: uses reals, so the rounding of floating-point tokens is not modelled; the clock does not go back.
- Injection.PredictRisk: counts in hundredths, so float rounding is not modelled.
- Injection.Detect: takes the external classifier's answer as an input; the wording of the block reason is not modelled.
- Chunker.ChunkText: is stated for 0 <= overlap < chunkSize; outside that range the loop does not end or slices out of range. Text is a sequence of runes, so invalid UTF-8 is not modelled.
- Policy.AnalyzeRisk: uses reals for the two float scores; JSON parsing of the stored policy is not modelled.
- Gateway.Provenance: is stated for atomic requests and updates; a request in flight across a policy update can write a verdict of the old policy after the invalidation.
- Gateway.ForwardedIsCheckedAndLogged: whether the insert into the audit log succeeds comes with the request; why it fails is not modelled.
- Gateway.ProxyHandler.ServeHTTP: takes the detectors' findings, the normalized body, its hash and the encrypted log details from the request; authentication, provider selection, the vault key and forwarding are not modelled.
- Redis.Client.Incr: a numeric text counts as text, not as a number, and Redis errors are not modelled; a key is gone from the moment its expiry is reached.
- AuditQuery.BuildQuery: the query is its clauses, not SQL text; a comparison of two different types is unknown instead of an error, and rows always have a timestamp, a risk score and an organization.
- Watermark.Decode: the error texts are not modelled, only that there is an error.
- `memLimiter` takes a mutex around every operation; calls and sweeps are atomic here, in any order.
- HTTP routing, sessions, mail, metrics, the dashboard, embedding vectors, entropy, document parsing and the provider clients: input and output, or library code that is not part of this model.
