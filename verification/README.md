# genotp-go, modelled and proved in Dafny

This project models the core of the genotp-go one-time-password library and proves properties of
the model for every input, every run or every interleaving.

| files | what they model |
|---|---|
| `Wrappers`, `Words`, `BitStrings` | errors; Go's fixed-width words and bitwise operators, bit by bit; bit strings |
| `Base32` | `base32.go`: the bit-buffer decoder against section 6 of RFC 4648 |
| `Varint`, `ProtoFields` | `migration.go`: base-128 varints and tagged Protocol Buffers fields |
| `Utf8`, `SecretLaws` | UTF-8 runes, white space and trimming as Go's library reads them; `provisioning.go`: normalising a secret |
| `AccountCodec`, `AccountLaws` | `migration.go`: one migration account, encoded and decoded |
| `PayloadCodec`, `PayloadLaws` | `migration.go`: the migration payload, built and parsed |
| `ReplayStore`, `ReplayRuns`, `ReplayBounds` | `replay_store.go`: the bounded replay store and its runs |
| `Verifier`, `VerifierProtocol` | `verifier.go`: one call, and any number of threads interleaved at the lock sections |
| `Skew`, `SkewLaws` | `skew.go`: the clock-skew detector, its bounds and its convergence |
| `ConstantTime` | `constant_time.go`: branch-free comparison |
| `Otp`, `Hotp`, `Totp` | `hotp.go`, `totp.go`: codes, resynchronisation, validation windows, tracking |
| `TrackingRuns`, `EndToEnd` | the detector fed by tracked verification; window check followed by replay check |
| `Context` | `context.go`: canonical context bytes |

Conventions. Go strings and byte slices are sequences of bytes. Where the source updates an object
or an array in place, the model is a class or a method over an array; its contract equates the new
state with a function of the old one, and the lemmas are about that function. HMAC is an arbitrary
function from messages to digests of 20, 32 or 64 bytes. Clock readings are parameters.

## What the proofs found

These are places where a property one would expect holds only under a condition. The model follows
the code; the lemmas named give a failing input and the condition.

- The Base32 table writes out 128 of its 256 entries, so every byte from 0x80 on decodes as the
  letter `A` instead of being rejected (`Base32.HighBytesAccepted`, `Base32.RejectedExactly`).
- Normalising a secret is not neutral: white space outside ASCII, which the decoder reads as
  letters, is removed, and invalid UTF-8 grows. It drops only what the decoder skips if and only if
  the secret is valid UTF-8 without such white space (`SecretLaws.NormalizeKeepsExactly`,
  `SecretLaws.NoBreakSpaceVanishes`). A secret in valid UTF-8 decodes to the same bytes if and only
  if it holds no such white space or does not decode (`SecretLaws.DecodesSameExactly`).
- A negative batch field builds a payload that does not parse
  (`PayloadLaws.NegativeBatchDoesNotParse`, `PayloadLaws.BuildParseExactly`).
- `Verify` and `VerifyBound` accept exactly the window's codes if and only if the window does not
  overrun the counter range; any that does also accepts the code of counter 0, because an
  out-of-range counter is replaced by 0 (`Totp.ExactUnlessOverrun`, `Totp.WindowWrapsToZero`).
- Exhausted attempts do not lock the verifier while a call past the gate can still be accepted:
  its success zeroes the counter for everybody. Such a call was accepted already, or matches and
  has yet to read the clock, or its key is not live at its reading, or another waiting call's sweep
  drops its key (`VerifierProtocol.LockLiftsExactly`, `VerifierProtocol.ReachableLock`). Two
  threads reach such a state under every `maxAttempts` that lets calls in
  (`VerifierProtocol.LockIsLifted`). A replay in flight lifts the lock only if the store is cleared
  (`VerifierProtocol.ReplayDoesNotLift`, `VerifierProtocol.ClearingLiftsExactly`).
- The 32-bit attempts counter can wrap to zero when `maxAttempts` plus the number of threads
  exceeds 2^32, and only then (`VerifierProtocol.NeverWrapsExactly`).
- The replay store forgets a live key exactly when a fresh key arrives while as many keys are live
  as it can hold (`ReplayRuns.CapacityIsNeeded`, `ReplayRuns.CheckAgrees`,
  `ReplayBounds.EvictsExactly`).
- A code is used at most once inside its window, evictions apart, if and only if the replay time
  covers the window's length plus the delay between the window check and the store's clock
  reading. The default 90 s covers the default window only without any delay
  (`EndToEnd.OneTimeUseExactly`, `EndToEnd.DefaultCovers`, `EndToEnd.DefaultHasNoSlack`).
- SECURITY.md describes auto-adjust as compensating for drift. Fed by `VerifyTracking`, the
  detector records what remains after its own adjustment, so the only compensation of a client's
  skew that it can hold is half of it: a steady offset o exists if and only if 2 o is the skew, and
  any other offset is left within capacity + 38 of the client's codes, as long as the window
  reaches them and no earlier counter of it has the same code
  (`TrackingRuns.SteadyExactly`, `TrackingRuns.NoSteadyCompensation`,
  `TrackingRuns.FullCompensationExactly`).
- The bytes of a context determine its fields if and only if they hold at most one equals sign, so
  no context of two fields or more is determined by its bytes alone (`Context.DeterminedExactly`);
  colliding custom fields within the length limits exist (`Context.CustomFieldsCollide`). Between
  two contexts whose keys hold no equals sign and whose values hold no NUL the bytes do decide
  (`Context.ContextInjective`).

## Model

| member | source | states |
|---|---|---|
| Words.OrDisjoint | migration.go:427 | or-ing a value shifted past every bit of another is addition |
| Words.ShlWraps | base32.go:59 | a left shift that overflows a word keeps exactly the low bits of its operand |
| BitStrings.ChunkFlat | base32.go:26-28 | cutting a bit string inverts writing numbers with a fixed width, whatever short remainder follows |
| BitStrings.FlatChunk | base32.go:53-71 | writing cut groups back gives the bits, up to a remainder shorter than a group |
| Base32.DecodeBase32 | base32.go:30-74 | the count or the first of the two errors the scan meets; the destination holds exactly the decoded prefix and is otherwise unchanged, also on errors |
| Base32.PushGroup | base32.go:59-60 | shifting in five bits appends them to the pending bits although the 64-bit accumulator drops its high bits |
| Base32.PopByte | base32.go:62-69 | storing (buffer >> left) & 0xff moves the oldest eight pending bits to the destination |
| Base32.SeparatorsAre | base32.go:36-39 | exactly space, hyphen, equals sign and the five ASCII control spaces are dropped, wherever they stand |
| Base32.TableIs | base32.go:8-17 | letters of either case are 0 to 25, digits 2 to 7 are 26 to 31, other ASCII is rejected and bytes from 0x80 on are 0 |
| Base32.DecodingConverts | base32.go:53-71 | decoding is conversion of one big-endian number from base 32 to base 256, short of the bits that fill no byte |
| Base32.FirstErrorWins | base32.go:53-65 | the first invalid character or the first byte too many, whichever comes first, decides the error and what is stored |
| Base32.EncodeDecode | base32.go:26-74 | any letter case and any stripped separators: decoding a spelling of the encoding of data gives exactly data |
| Base32.TooSmallExactly | base32.go:62-65 | for all-valid input of m characters the count is floor(5m/8), and the buffer is too small exactly when that exceeds it |
| Base32.BufferSuffices | migration.go:187-191 | with len*5/8+1 bytes the buffer is never too small and the result is the decoded bytes or the invalid-secret error |
| Base32.EncodingIsCanonical | base32.go:26-28 | every encoding passes a check on the text alone and decodes to its data |
| Base32.DecodeEncode | base32.go:26-74 | every text that passes that check decodes, and encoding the bytes gives the text back |
| Base32.RejectedExactly | base32.go:8-17 | text is rejected exactly when a kept byte below 0x80 is no Base32 character; bytes from 0x80 on act like the letter A |
| Base32.HighBytesAccepted | base32.go:8-17 | any two bytes outside ASCII decode to one zero byte |
| Varint.AppendProtoVarint | migration.go:414-420 | the loop appends the base-128 encoding of the value |
| Varint.ReadProtoVarint | migration.go:422-437 | the loop returns the value modulo 2^64 and the offset after the first byte below 0x80 among the first ten, or an error |
| Varint.AccumulateSeven | migration.go:427 | value \|= (b & 0x7f) << shift adds the next seven bits and drops those past bit 63 |
| Varint.ReadVarint | migration.go:422-437 | a successful read consumes between 1 and 10 bytes and stays in bounds |
| Varint.ReadExactly | migration.go:422-437 | a read ends at the first byte below 0x80 and fails exactly when none of the first ten is |
| Varint.BytesAre | migration.go:414-420 | byte i of an encoding holds bits 7i to 7i+6, with the top bit on all bytes but the last, and none is spent on leading zeros |
| Varint.ReadBack | migration.go:414-437 | for every 64-bit value and any suffix the reader returns the value and the exact length, between 1 and 10 |
| Varint.ReadBackAt | migration.go:414-437 | the same at the end of any prefix |
| Varint.ReadLocal | migration.go:422-437 | a successful read depends only on the bytes it consumes |
| ProtoFields.AppendProtoBytesField | migration.go:403-407 | appends tag, length and bytes of a delimited field |
| ProtoFields.AppendProtoVarintField | migration.go:409-412 | appends tag and value of a scalar field |
| ProtoFields.ReadProtoBytes | migration.go:439-453 | returns the delimited bytes and the next offset, or an error for sizes past the data, including sums that overflow int |
| ProtoFields.ReadProtoScalar | migration.go:463-468 | a scalar is read only with wire type 0 |
| ProtoFields.SkipProtoField | migration.go:470-481 | skips exactly one unknown field of wire type 0 or 2 and rejects others |
| ProtoFields.ReadField | migration.go:103-178 | a field read advances by at least one byte, stays in bounds and has the kind its message expects |
| ProtoFields.ReadByTag | migration.go:103-178 | for every field number and wire type of either message: read as bytes, read as number, or unreadable |
| ProtoFields.DelimitedAre | migration.go:439-453 | a length and that many bytes after it, if there are that many |
| ProtoFields.FieldLocal | migration.go:422-481 | a field that reads successfully reads the same with anything behind it |
| ProtoFields.ScanConcat | migration.go:103-178 | the fields of a concatenation are the concatenated fields |
| ProtoFields.ScanWritten | migration.go:403-481 | scanning written fields returns exactly those fields |
| AccountCodec.DecodeMigrationAccount | migration.go:237-327 | the loop computes the fold of the account's fields, with the first error in byte order |
| AccountCodec.EncodeMigrationAccount | migration.go:181-235 | the encoder's checks in order, then exactly the listed fields written one after the other |
| AccountLaws.EncodedFieldsAre | migration.go:218-232 | the fields that are written, with the numbers of algorithm, digits and type and with the counter of HOTP accounts only |
| AccountLaws.EncodedBytesAre | migration.go:218-232 | the bytes of every encoded account, tags included |
| AccountLaws.EncodeErrorsAre | migration.go:181-205 | which accounts encode, and the error of the others: secret before algorithm before digits |
| AccountCodec.AppendAccountFields | migration.go:218-232 | the appends write secret, name, optional issuer, three enumerations and the HOTP counter |
| AccountCodec.IndexByte | migration.go:337 | the first occurrence, or -1 when there is none |
| AccountLaws.DecodeIsFold | migration.go:245-326 | on every byte string the decoder is the fold over the scanned fields |
| AccountLaws.FoldIsLastWins | migration.go:255-317 | the fold fails with the first invalid enumeration and otherwise keeps the last field of each number |
| AccountLaws.DecodedIs | migration.go:237-327 | what decoding returns without an invalid number: the last field of each number, TOTP, SHA1, six digits, no issuer and counter zero by default, period 30; an error without secret or name |
| AccountLaws.DecodeErrorIs | migration.go:343-390 | the first algorithm above 3 or digit count above 2 decides the error |
| AccountLaws.FieldOrderIrrelevant | migration.go:245-318 | encodings of the same fields in any order decode alike when no known number repeats |
| AccountLaws.UnknownFieldIgnored | migration.go:311-316 | a readable unknown field may be inserted anywhere, whatever follows |
| AccountLaws.DecodeEncoded | migration.go:181-327 | what decoding returns for every account that encodes, including the two rejected cases |
| AccountLaws.LabelRoundTrip | migration.go:213-216 | joining then splitting gives issuer and label back if and only if the label is canonical |
| AccountLaws.SplitMeans | migration.go:329-342 | a name is split at the issuer given apart, else at its first colon past the start, else not at all; both parts are trimmed |
| Utf8.TrimMeans | migration.go:333-338 | trimming cuts out a middle part of which no white-space spelling is a prefix or a suffix, and drops white space only |
| Utf8.RunesAreSpellings | provisioning.go:140-148 | a rune is read exactly where the UTF-8 spelling of a code point that is no surrogate stands |
| Utf8.SpacesAre | provisioning.go:150-166 | which code points are white space |
| SecretLaws.NormalizeRunes | provisioning.go:140-148 | equals signs and white space go, other runes stay, and a byte that starts no rune becomes U+FFFD |
| SecretLaws.NormalizeKeepsExactly | provisioning.go:140-164 | normalising drops only characters the decoder skips if and only if the secret is valid UTF-8 without white space outside ASCII |
| SecretLaws.NoBreakSpaceVanishes | provisioning.go:140-164 | a no-break space decodes to a zero byte and normalises to nothing |
| SecretLaws.DecodesSameExactly | provisioning.go:140-164 | for valid UTF-8, normalising keeps what a secret decodes to if and only if there is no white space outside ASCII or the secret does not decode |
| SecretLaws.BalancedSecret | provisioning.go:140-164 | an invalid byte may make up for removed white space: the condition is not necessary outside valid UTF-8 |
| AccountLaws.RoundTripExactly | migration.go:181-327 | an account encodes and decodes to itself if and only if it passes the listed checks |
| PayloadCodec.BuildPayload | migration.go:40-70 | the payload bytes of accounts and options, or the error of the first account that does not encode |
| PayloadCodec.AppendTrailer | migration.go:50-70 | version always, batch fields when non-zero, in the options in force |
| PayloadLaws.BuiltBytesAre | migration.go:40-70 | the bytes of everything that builds, tags included, negative batch fields sign-extended |
| PayloadLaws.BuildErrorIs | migration.go:42-48 | building fails with the error of the first account that does not encode, and only then |
| PayloadCodec.ParsePayload | migration.go:103-178 | the loop computes the fold of the payload's fields, with the first error in byte order |
| PayloadLaws.ParseIsFold | migration.go:103-178 | on every byte string the parser is the fold over the scanned fields |
| PayloadLaws.ParsedIs | migration.go:103-178 | parsing succeeds exactly when every field is readable, every account decodes and every number fits 31 bits, with accounts in order and the last number of each kind, zero by default |
| PayloadLaws.ParseConcat | migration.go:103-178 | after a payload that parses, another one appends its accounts and overrides the scalars it gives, or fails as it fails alone |
| PayloadLaws.UnknownFieldIgnored | migration.go:169-175 | a readable unknown field may be inserted anywhere, whatever follows |
| PayloadLaws.ParseBuilt | migration.go:36-179 | what parsing returns for everything that builds |
| PayloadLaws.BuildParseExactly | migration.go:36-179 | build then parse returns the accounts and the options in force if and only if every account is canonical and no batch field negative |
| PayloadLaws.NegativeBatchDoesNotParse | migration.go:61-70 | batch identifier -1 builds and does not parse |
| ReplayStore.InMemoryReplayStore.CheckAndRecord | replay_store.go:31-64 | first seen exactly when the key is not stored with an expiry past the reading, and then stored until reading plus ttl; other keys keep their expiry, and live ones their place while there is room; the new store is the specification's |
| ReplayStore.EvictingCall | replay_store.go:49-54 | a fresh key that meets a store full of n live keys costs the oldest tenth, at least one, their place, and no other |
| ReplayStore.InMemoryReplayStore.SweepExpired | replay_store.go:75-93 | the pass that reuses its own backing array leaves exactly the live entries, in order |
| ReplayStore.InMemoryReplayStore.EvictBatch | replay_store.go:95-104 | removes exactly the oldest batch |
| ReplayStore.InMemoryReplayStore.RemoveFromOrder | replay_store.go:66-73 | removes the one occurrence of the key and keeps the others in order |
| ReplayStore.InMemoryReplayStore.DeleteAt | replay_store.go:69 | append(order[:i], order[i+1:]...) drops element i |
| ReplayStore.InMemoryReplayStore.AppendOrder | replay_store.go:62 | appends in place or into a grown array |
| ReplayStore.InMemoryReplayStore.Reset | replay_store.go:106-113 | the store is as new |
| ReplayStore.CheckInv | replay_store.go:31-64 | every call keeps the order duplicate-free and equal to the keys, and the size within the bound |
| ReplayStore.RoomierInv | replay_store.go:49-54 | making room leaves space for one more key |
| ReplayStore.NotYetSwept | replay_store.go:81-91 | midway through the sweep the next key is still mapped and is kept exactly when live |
| ReplayRuns.Reachable | replay_store.go:31-113 | in every reachable state the order lists each key once and the size is bounded |
| ReplayRuns.CheckAgrees | replay_store.go:31-64 | a call answers like the naive map, and agrees with it afterwards if and only if fewer keys are live than fit |
| ReplayRuns.RefinesNaive | replay_store.go:31-113 | over every run with non-decreasing readings and room at each fresh insertion, every answer is the naive map's |
| ReplayRuns.CapacityIsNeeded | replay_store.go:49-53 | at the first insertion without room some live key would be accepted again |
| ReplayBounds.EvictionBound | replay_store.go:49-63 | two accepts of a key before its expiry have an evicting call and at least maxSize - maxSize/10 + 1 distinct other accepts between them, or maxSize for a store of fewer than twenty keys |
| ReplayBounds.EvictionBoundIsReached | replay_store.go:49-63 | for every capacity some run has two such accepts with exactly that number of others between them |
| ReplayBounds.EvictsExactly | replay_store.go:49-54 | a call loses an unexpired key if and only if its key is fresh and the store is full of unexpired keys |
| ReplayBounds.EvictionBoundMonotone | replay_store.go:49-63 | the same for non-decreasing readings, with a condition on the second reading only |
| ReplayBounds.CheckRemembers | replay_store.go:31-64 | a call below a key's expiry rejects that key, and otherwise keeps it or enough others were gathered |
| ReplayBounds.EvictRemembers | replay_store.go:95-104 | an eviction forgets a key only if all but one batch of the order is behind it |
| ReplayBounds.OrderIsByLatestAcceptance | replay_store.go:56-62 | in every reachable state the order slice is sorted by latest acceptance |
| ReplayBounds.SweepSchedule | replay_store.go:39-42 | a call past the sweep time drops every expired entry and moves the sweep time on by thirty seconds; other calls leave it |
| ReplayBounds.RejectionIsReplay | replay_store.go:44-47 | every rejection has an earlier accept of the same key that has not expired |
| Verifier.Verifier.VerifyInner | verifier.go:67-122 | true only below the limit for equal codes and contexts not seen; attempts are zeroed, counted up or, at the limit, left; the store changes only for equal codes and contexts, under the key code, NUL, context |
| Verifier.ReplayKeyInjective | verifier.go:12-17 | code and context determine the replay key, for codes without a NUL |
| VerifierProtocol.SequentialCall | verifier.go:67-122 | a thread that is not interrupted does what the sequential call does |
| VerifierProtocol.ReachableConsistent | verifier.go:67-122 | over every interleaving the accepts of a key are its true answers, given or due, and only matching calls got to the store |
| VerifierProtocol.TrueAnswersAreRight | verifier.go:75-84 | over every interleaving true is answered only where the code is the expected one and the request context the issued one |
| VerifierProtocol.ExactlyOnce | verifier.go:67-122 | over every interleaving at most one call on a key returns true while its first accept is unexpired and no call evicts, or too few other keys follow for an eviction to reach it |
| VerifierProtocol.OnlyMatchesTouchStore | verifier.go:76-90 | a step that changes the store is the check of a matching call or a clearing |
| VerifierProtocol.RateLimit | verifier.go:69-84 | over every interleaving of n threads attempts plus calls past the gate is at most maxAttempts - 1 + n, for every 32-bit maxAttempts |
| VerifierProtocol.NeverWrapsExactly | verifier.go:79-83 | no interleaving wraps the 32-bit counter if and only if maxAttempts + n is at most 2^32, or maxAttempts is 0 |
| VerifierProtocol.SequentialLimit | verifier.go:69-84 | one thread alone never exceeds maxAttempts |
| VerifierProtocol.Lockout | verifier.go:69-73 | once locked, every call returns false and the store changes only by clearing, until attempts are reset |
| VerifierProtocol.LockLiftsExactly | verifier.go:67-122 | calls alone lift exhausted attempts if and only if some call in flight was accepted, matches and has yet to read the clock, has a key that is not live at its reading, or waits beside a call whose sweep drops its key |
| VerifierProtocol.ClearingLiftsExactly | verifier.go:118-138 | when the store may be cleared too, a waiting replay also lifts them |
| VerifierProtocol.ReachableLock | verifier.go:67-122 | in every reachable state with exhausted attempts both conditions are exact |
| VerifierProtocol.LockIsLifted | verifier.go:67-122 | for every positive maxAttempts, two threads reach exhausted attempts that calls alone lift |
| VerifierProtocol.ReplayDoesNotLift | verifier.go:93-116 | a reachable replay in flight beside exhausted attempts lifts them only if the store is cleared |
| Skew.ClockSkewDetector.Record | skew.go:72-121 | the detector is what the specification says, and the aggregates equal their recomputation |
| Skew.ClockSkewDetector.Overwrite | skew.go:86-95 | a full ring drops its oldest sample and appends the new one, with sum and count adjusted |
| Skew.ClockSkewDetector.Grow | skew.go:77-84 | a ring that is not full appends the sample |
| SkewLaws.RecordKeeps | skew.go:72-106 | the samples and the last window after a record; below sixteen samples, or with auto-adjust off, offset and average stay |
| SkewLaws.RecordAdjusts | skew.go:106-120 | the average and the offset after an adjusting record, in whole numbers: nearest values of a fifth of the mean and four fifths of the average before, halves away from zero |
| Skew.ClockSkewDetector.Report | skew.go:153-200 | the report is the direct computation on the remembered offsets and the last window |
| Skew.ClockSkewDetector.EdgeHits | skew.go:172-180 | counting in storage order equals counting in time order |
| Skew.ClockSkewDetector.Reset | skew.go:141-151 | the ring, the offset and the average start over |
| SkewLaws.RemembersLatest | skew.go:72-102 | after any run the ring holds exactly the last capacity offsets, oldest first, and the latest window, clamped |
| SkewLaws.ReportOfConstant | skew.go:172-199 | what is reported for a client that is always off by the same amount |
| SkewLaws.ReportNumbers | skew.go:153-199 | the counts, the mean and the share of edge hits of every report; below eight samples the counts only |
| SkewLaws.ReportAdvice | skew.go:182-191 | the advice in whole numbers: at least a fifth of the offsets at the edge, else a sum of at least half their number |
| SkewLaws.RoundNear | skew.go:113-116 | rounding gives a nearest integer, away from zero at halves |
| SkewLaws.RunBounded | skew.go:98-120 | fed with offsets of at most w, the average stays within 1000 w and the offset within w |
| SkewLaws.PassiveIsZero | skew.go:106-135 | while auto-adjust is off, offset and average are zero |
| SkewLaws.ErrorStep | skew.go:109-113 | with constant input the scaled error becomes four fifths of itself rounded to a nearest integer, decreases strictly from 3 on and stays at most 2 |
| SkewLaws.ErrorFalls | skew.go:109-113 | with a ring of the constant input, the scaled error above 2 shrinks to four fifths with every record |
| SkewLaws.ConvergesBy | skew.go:72-121 | recording the same offset makes the current offset equal to it from record capacity + k + 1 on, for any k with 2000 w (4/5)^k <= 622 |
| SkewLaws.HoldingKept | skew.go:72-121 | the state so reached is kept by every further record of that offset |
| SkewLaws.Converges | skew.go:72-121 | from every state the current offset equals the recorded one from some point on, for good |
| ConstantTime.ConstTimeEqBytes | constant_time.go:30-50 | true exactly on equal byte strings |
| ConstantTime.ConstantTimeEqByteResult | constant_time.go:9-28 | 1 exactly on equal byte strings, else 0 |
| ConstantTime.TopBitIsNonzero | constant_time.go:48-49 | the top bit of diff \| -diff is set exactly when diff is not zero |
| Otp.MessageInjective | hotp.go:199-215 | counter and context determine the message, and the empty context gives the plain one |
| Otp.MessageIs | hotp.go:199-215 | eight counter bytes, most significant first, then for a context the tag genotp-ctx-v1, a NUL and the context |
| Otp.TruncateMeans | hotp.go:233-240 | truncation is the low 31 bits of the big-endian word at the offset, reduced, and never reads past a 20-byte digest |
| Otp.FormatOTP | hotp.go:242-249 | fills the first digits of the buffer from the right with the decimal digits and leaves the rest |
| Otp.DecimalUnique | hotp.go:242-249 | the digits are the only string of that many ASCII digits that reads as the number |
| Otp.DecimalReads | hotp.go:242-249 | the digits of a number below 10^n read back as the number |
| Otp.CodeMeans | hotp.go:191-216 | the code is the zero-padded decimal of the truncated digest |
| Otp.CodeDigits | hotp.go:233-249 | every digit of every code, in terms of four bytes of the digest |
| Otp.DecimalAt | hotp.go:242-249 | digit i is that decimal place, in ASCII |
| Otp.GenDigits | hotp.go:191-197 | the digits of a counter and context |
| Hotp.Verify | hotp.go:114-126 | accepts exactly the code of the counter |
| Hotp.VerifyWithResync | hotp.go:128-155 | the least counter of the look-ahead window, cut off at 2^64 - 1, whose code is the input, or false; windows above 10000 are refused |
| Totp.CheckedAddMeans | totp.go:276-290 | the wrapping comparisons detect exactly the sums outside 64 bits |
| Totp.VerifyBound | totp.go:141-171 | accepts exactly the codes of the window's counters, and counter 0's when the window runs past the range |
| Totp.Verify | totp.go:92-119 | the same without context |
| Totp.WindowExact | totp.go:107-118 | when the window fits, exactly the codes of counters in [max(0, c-w), c+w] |
| Totp.PeriodTwoFits | totp.go:96-103 | every window fits when the period is at least two seconds |
| Totp.WindowWrapsToZero | totp.go:268-274 | for every window that overruns the counter range, counter 0's code is accepted although no counter of the window has it |
| Totp.ExactUnlessOverrun | totp.go:107-118 | under every mac exactly the window's codes are accepted if and only if the window does not overrun the counter range |
| Totp.GeneratedIsAccepted | totp.go:77-119 | a code is accepted at any time within window * period of its generation |
| Totp.VerifyTracking | totp.go:173-208 | accepts exactly the window around the adjusted counter and records the first matching step |
| Totp.AdjustedIs | totp.go:178-190 | the window is centred on the time's counter plus the offset, or on the time's counter when the sum leaves the 64-bit range |
| Totp.TrackingAgrees | totp.go:173-208 | tracking accepts exactly the window around its centre, and at offset zero what Verify accepts |
| TrackingRuns.DriveIsRun | totp.go:173-208 | a run of tracked verifications is the detector's run on the first matching steps |
| TrackingRuns.SessionBounded | totp.go:173-208 | fed by tracking with windows of at most w, the average stays within 1000 w and the offset within w |
| TrackingRuns.AcceptedNearby | totp.go:178-205 | every code accepted belongs to a counter within w + window of the time's own |
| TrackingRuns.PassiveTrackingIsPlain | totp.go:173-208 | while auto-adjust is off tracking accepts exactly the plain window |
| TrackingRuns.RecordsRemainder | totp.go:178-203 | the code of a client `skew` steps off records skew minus the current offset, when no earlier counter of the window has it |
| TrackingRuns.SteadyIsHalf | totp.go:178-203 | an offset that stays put under a client's codes is half of the client's skew |
| TrackingRuns.HalfIsSteady | totp.go:178-203 | a detector that holds o is kept there by a client at twice o |
| TrackingRuns.NoSteadyCompensation | totp.go:178-203 | after any session with auto-adjust on, any offset but half the skew is left within capacity + 38 of the client's codes |
| TrackingRuns.SteadyExactly | totp.go:178-203 | some run of the detector leaves the offset at o for good under a client if and only if 2 o is the client's skew |
| TrackingRuns.FullCompensationExactly | totp.go:178-203 | the whole skew is compensated steadily if and only if it is zero |
| EndToEnd.InsideIsInterval | totp.go:97-109 | the seconds at which a counter is inside the window are one interval of length at most (2w+1) * period |
| EndToEnd.GateFindsCounter | totp.go:92-119 | the window check passes exactly when a counter inside the window has the code |
| EndToEnd.ReplayIsolation | verifier.go:12-17 | two generated codes share a replay key exactly when code and context are the same |
| EndToEnd.OneTimeUse | verifier.go:86-121 | with a time to live covering window and delay, a second accept inside the window needs an evicting call and enough other accepts in between |
| EndToEnd.OneTimeUseExactly | verifier.go:86-121 | for every capacity, window, period and delay that holds over all runs if and only if the time to live is at least (2w+1) * period plus the delay |
| EndToEnd.ReusedWhenShort | verifier.go:86-121 | with any shorter time to live a second use of the code succeeds with nothing in between |
| EndToEnd.DefaultCovers | verifier.go:10 | the default time to live covers period 30 with window 1 if and only if there is no delay |
| EndToEnd.DefaultHasNoSlack | verifier.go:10 | one nanosecond of delay between the two readings admits a second use, for every capacity |
| Context.OtpContextBuilder.SetField | context.go:164-168 | sets the field unless its value is too long |
| Context.OtpContextBuilder.Custom | context.go:100-105 | sets the prefixed field unless key or value is too long |
| Context.OtpContextBuilder.Build | context.go:107-123 | the canonical bytes of the fields, whatever order the map yields its keys in |
| Context.LessIs | context.go:108-112 | the order of keys: a proper prefix first, else the smaller byte where two keys first differ |
| Context.FieldsInByteOrder | context.go:107-123 | of two fields the one with the smaller key stands first, each as key, equals sign, value, NUL |
| Context.SmallContexts | context.go:107-123 | the bytes of a context of no field, one or two, in full |
| Context.ListingUnique | context.go:108-112 | a set of keys has exactly one increasing listing |
| Context.SetterOrderIrrelevant | context.go:164-168 | setters of distinct fields may be called in any order |
| Context.DeterminedExactly | context.go:107-123 | no other fields have the same bytes if and only if the bytes hold at most one equals sign |
| Context.CustomFieldsCollide | context.go:100-123 | one custom field and two of them, all within the length limits, have the same bytes |
| Context.ContextInjective | context.go:107-123 | of two contexts whose keys hold no equals sign and whose values hold no NUL, the bytes are the same exactly when the fields are |
| Context.EqualsCollides | context.go:115-120 | an equals sign may stand in the key or in the value |
| Context.NulCollides | context.go:115-120 | a value v NUL l = w under key k reads like the fields k = v and l = w, for every key l after k |

## Left out

- Skew.Recorded: uses exact reals for float64 and unbounded integers for int64, so rounding error in the average and overflow of the sample sum are not modelled.
- Skew.ClockSkewDetector.DisableAutoAdjust: is not interleaved with Record; its stores are atomic but outside the lock, and the zero-while-off property is stated for one caller at a time.
- ReplayStore.InMemoryReplayStore.CheckAndRecord: uses unbounded integers for expiry times and one clock for Go's wall and monotonic readings.
- Context.OtpContextBuilder.Build: collecting the keys and the library's sort are one method.
- Totp.Verify: calls VerifyBound with an empty context where the source repeats the loop.
- HMAC and hash functions, secret and HMAC providers, their error wrapping, and the buffer pools.
- base64, URL and URI handling around the migration payload, and `otpauth` URI building.
- The named setters of the context builder with their trimming, lower-casing and origin cutting.
- Generate, GenBound and HOTP.VerifyBound, which call the modelled code generation once.
- ClearSecret, memory zeroing and timing behaviour.
- Builder, configuration, batch, metrics, key generation and the WebAssembly bindings: thin wrappers.
