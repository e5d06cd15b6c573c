# Shadow6: a Dafny model of its protocols and data paths

This project models the parts of Shadow6 that hold real algorithms, and proves what they promise:
the authenticated record stream and the signed control plane of the Go core, capability grants and
their canonical JSON, the replay stores, the UDP relay written in C11, two byte pumps written in
Python, and the tool schemas of the control center. `dafny verify dfyconfig.toml` checks it all.

| files | what they model |
|---|---|
| `SecureStream.dfy`, `SecureStreamRuns.dfy`, `SecureStreamTruncation.dfy` | `aeadConn`: sealed records, reused buffers, half-close; whole runs of it |
| `SignedFields.dfy`, `AccessProtocol.dfy`, `DiscoveryRuns.dfy` | what identity keys sign; access grants over a broker that may lie; runs of discovery |
| `RpcPeer.dfy` | the concurrent request correlator and the broker's agent registry |
| `Text.dfy`, `PortableJson.dfy`, `SignedRequest.dfy`, `Grants.dfy`, `GrantRuns.dfy` | canonical JSON, signed capability requests, grants and runs of them |
| `Replay.dfy`, `ReplayStores.dfy`, `CrosedReplay.dfy` | bounded replay stores against an unbounded log |
| `HookCommand.dfy`, `HookArguments.dfy` | the rewriting and splitting of the success hook; what splitting means for every text |
| `Rle.dfy`, `TokenBucket.dfy`, `PeerTable.dfy`, `ReplyBatch.dfy` | the relay: codec, limiter, mappings and events, batched replies |
| `DuplexPump.dfy`, `RecordSession.dfy` | the two-way relay loop and the record loop |
| `ToolSchema.dfy` | argument checking and the strict form of a schema |
| `Bytes.dfy` | bytes and 32-bit lengths |

Signatures, the cipher and the digest are ideal: a signature of an honest key verifies only on bytes that
key has signed, opening inverts sealing, and the digest has no collisions. Clocks, sockets, kernels and
the adversary enter as arbitrary inputs (scripts, replies, event sequences), and the laws hold for all
of them. Clocks never go back where time matters, as the code assumes.

## Where the code does less than its callers may expect

These are proved, each with the exact condition under which the expectation does hold.

- After a failed `Write`, the copy loops still send the end marker. If the carrier stopped cleanly, after
  some of the records of that write, possibly none, but not all, a reader takes the truncated stream for
  a complete one, and otherwise no reader does (`SecureStreamTruncation.MarkerIsTrueIffNoCleanCut`). One
  byte that the carrier refuses is enough (`SecureStreamTruncation.RefusedByteThenEnd`).
- Nothing stops a data write after a failed one. What then arrives is a prefix of what was written exactly
  if what got out whole is one, and for a failed and a later write exactly if there was no clean stop, or the later
  data begins like what is missing (`SecureStreamTruncation.PrefixIffWhole`,
  `SecureStreamTruncation.LateDataIffLikeMissing`, `SecureStreamTruncation.LateByteReplacesLost`).
- A carrier that ends by itself is reported like the authenticated end exactly if it ends at a record boundary
  or right after a length (`SecureStreamRuns.CarrierEndIsToldIffClean`), so a torn record can pass for an end
  (`SecureStreamTruncation.BareLengthThenEnd`).
- On a sequenced session an empty input record is itself the end mark, so the mark comes after all input
  exactly if no acceptable record of the input is empty (`RecordSession.EndIsLastIffNoEmptyRecord`,
  `RecordSession.EmptyRecordEndsEarly`).
- The agent's signature covers the low 32 bits of the port only, and the client checks only that the
  port is positive. The port agrees exactly if it is a 32-bit number
  (`AccessProtocol.PortAgreesIffInRange`, `AccessProtocol.ShiftedPortStillVerifies`).
- Length prefixes of signed fields wrap at 2^32 bytes (`SignedFields.FieldsRoundTrip`,
  `SignedFields.LongFieldCollides`).
- The canonical JSON writes minus zero as zero, and nothing else is lost
  (`PortableJson.SameTextIffSameValue`, `PortableJson.MinusZeroIsZero`).
- The signed text fixes the two domains of a capability request exactly if neither has a line break, which
  only builds with isolation check (`SignedRequest.DomainsDeterminedIffNoBreaks`).
- The limiter is exact for packets at a positive clock. Packets at clock zero all pass if the burst is at
  least one, however many they are (`TokenBucket.RefusedIffOverfull`, `TokenBucket.ClockZeroIsUnlimited`).
- The nonce directory grows past its capacity exactly when a new entry comes while it is full, nothing can be removed
  and some entry cannot be inspected (`CrosedReplay.RetainOverfillsIff`, `CrosedReplay.BoundedIffNoneOverfills`,
  `CrosedReplay.UninspectedRunOverfills`).
- The retention of the nonce directory must cover how long a request is valid and how early its file may be stamped;
  with both at hand it is enough exactly if it is their sum or more (`CrosedReplay.NeverTwiceIffRetained`). The code's
  600 seconds leave no room for early stamps.
- Replacing a hook variable rescans replaced text. That is a single pass on all commands exactly if the replacement
  agrees with the variable nowhere it can overlap it (`HookCommand.AlwaysOnePassIffInert`), as ports and addresses do.
- An agent answers a signed discovery request once (`DiscoveryRuns.NoRequestAnsweredTwice`), but grants a signed request
  that comes through the broker as often as it comes (`DiscoveryRuns.BrokerGrantsAgain`).
- Only the top level of strict tool arguments is rid of nulls. The result is valid exactly if no required property
  is null there and the nulls further down fit (`ToolSchema.StrictArgumentsAreValid`, `ToolSchema.NestedNullSurvives`).

## Model

| member | source | states |
|---|---|---|
| `SecureStream.WriteFull` | Core-Go/data.go:225-237 | for any replies of the carrier, the bytes it took are a prefix of the data, and all of it on success |
| `SecureStream.ChunksContents` | Core-Go/data.go:110-114 | the records of a write carry its bytes in order and none of them is empty, so no data write emits an end marker |
| `SecureStream.BatchSizeExact` | Core-Go/data.go:100-107 | the size computed before sealing equals the size of the sealed batch |
| `SecureStream.AeadConn.SealRecord` | Core-Go/data.go:152-163 | appends one record under the next counter inside the given room and keeps what is before it |
| `SecureStream.AeadConn.SealAll` | Core-Go/data.go:108-114 | the buffer then holds exactly the records of the plaintext under consecutive counters |
| `SecureStream.AeadConn.Write` | Core-Go/data.go:85-119 | state, outcome and bytes on the wire, with its four refusals, for any carrier behaviour |
| `SecureStream.RecordLayout` | Core-Go/data.go:152-163 | the bytes of a record: a big-endian length of 28 and the plaintext, the prefix, the counter, and a body that opens to the plaintext under them |
| `SecureStreamRuns.WriteAnswers` | Core-Go/data.go:85-119 | a write answers with the number of its bytes exactly if the carrier took the whole batch in some number of good calls, with a carrier failure if not, and refuses a closed side, more than 1048576 bytes and an exhausted counter |
| `SecureStreamRuns.EofAnswers` | Core-Go/data.go:124-150 | the same for the end marker |
| `SecureStreamRuns.AnswersAddUp` | Core-Go/data.go:85-119 | over every run the counts that writes returned add up to what was written while nothing failed, and never to more |
| `SecureStream.AeadConn.WriteEof` | Core-Go/data.go:124-150 | closes the write side first, emits one empty record, and does nothing the second time |
| `SecureStream.AeadConn.Read` | Core-Go/data.go:165-223 | returns the bytes the record stream prescribes into a destination of any size, and waits, reports an end or fails as the carrier does when bytes run out; the buffer holding undelivered plaintext is not replaced meanwhile, and what was handed over is cleared there |
| `SecureStream.AeadConn.OpenFrame` | Core-Go/data.go:188-222 | hands over what fits and keeps the rest for later reads, cleared of what was handed over; unauthentic bytes are wiped from a destination they reached |
| `SecureStreamRuns.RefusedIff` | Core-Go/data.go:180-210 | a read refuses exactly lengths below 28 or above 1048604, then exactly bodies that do not open, and waits exactly while the record is incomplete |
| `SecureStreamRuns.DeliveredIsPrefix` | Core-Go/data.go:85-237 | over every run, unless the reader opened bytes around a torn record that nobody sealed, or read on past one after late data: delivered bytes are a prefix of what got out whole and an end comes only after all of that; if only the marker was sealed after a failure, they are a prefix of what was written |
| `SecureStreamRuns.ReadsAreExact` | Core-Go/data.go:165-223 | after any run, a read returns data exactly while some of what got out whole is undelivered, then the end exactly if a whole marker follows, also one sent after a failure, and else waits, unless something was sealed after a torn record |
| `SecureStreamRuns.CarrierEndIsToldIffClean` | Core-Go/data.go:180-198 | if the carrier ends by itself, the reader is told an end if and only if no record was torn, or one right after its length, and does not remember it |
| `SecureStreamRuns.EofIsSticky` | Core-Go/data.go:168-170 | after the end is reported nothing more is delivered, whatever follows |
| `SecureStreamRuns.NoncesNeverRepeat` | Core-Go/data.go:94-163 | over every mix of writes, markers and failures no nonce is used twice and the counter stays within 32 bits |
| `SecureStreamTruncation.MarkerIsTrueIffNoCleanCut` | Core-Go/data.go:85-150 | after a failed write, every reader can trust the end marker if and only if the carrier did not stop after some of the records, possibly none, but not all |
| `SecureStreamTruncation.RefusedByteThenEnd` | Core-Go/data.go:315-322 | a refused byte and the marker that follows make a reader see an end without the byte |
| `SecureStreamTruncation.BareLengthThenEnd` | Core-Go/data.go:180-198 | a byte of whose record only the length got out, and a carrier that then ends, make a reader see an end |
| `SecureStreamTruncation.PrefixIffWhole` | Core-Go/data.go:85-237 | after any run, every reader gets a prefix of what was written, until it meets a torn record, if and only if what got out whole is such a prefix |
| `SecureStreamTruncation.LateDataIffLikeMissing` | Core-Go/data.go:85-119 | after a failed and a later write this holds if and only if there was no clean stop, or the later data begins like what is missing |
| `SecureStreamTruncation.LateByteReplacesLost` | Core-Go/data.go:85-119 | a refused byte and a later one deliver the later one alone |
| `SecureStreamTruncation.ReadAll` | Core-Go/data.go:165-223 | some reads deliver exactly what got out whole, and then the end if it is marked |
| `SecureStreamTruncation.NoEndAfterTear` | Core-Go/data.go:180-223 | after a torn record no sequence of reads ever reports an end |
| `Bytes.BigEndian` | Core-Go/data.go:152-163 | lengths, counters and ports are written with the first byte counting most |
| `SignedFields.BuildPayload` | Core-Go/control.go:46-56 | the append loop builds the domain and the length-prefixed fields |
| `SignedFields.PayloadLayout` | Core-Go/control.go:46-56 | the payload is the name of the purpose and, field by field, a length and the field |
| `SignedFields.FieldsRoundTrip` | Core-Go/control.go:46-56 | the fields can be read back if and only if every length fits 32 bits |
| `SignedFields.LongFieldCollides` | Core-Go/control.go:50-54 | a field of 2^32 bytes encodes like other fields |
| `SignedFields.DomainsDiffer` | Core-Go/control.go:58-60 | payloads of two different purposes are never equal |
| `SignedFields.PayloadDetermines` | Core-Go/control.go:46-60 | equal payloads have the same purpose and the same fields |
| `AccessProtocol.GrantedIffAllowed` | Core-Go/data.go:384-416 | the agent answers exactly the well-formed requests for it that carry a valid signature of the registered client, while it has room |
| `AccessProtocol.OfferedIffAllowed` | Core-Go/data.go:601-626 | discovery answers exactly the well-formed, timely, unseen requests for it that carry a valid signature of the registered client, while it has room, and both its signatures are allowed steps |
| `AccessProtocol.AccessAgreement` | Core-Go/data.go:852-861 | if a client accepts, the agent signed for that client, agent, both keys and port, after verifying that client's signature over the same identities and key |
| `AccessProtocol.ClientAsked` | Core-Go/data.go:384-397 | if that client key is honest, its owner asked for this before: on the broker path for the very same request, address included, and by discovery with the same time stamp and nonce |
| `AccessProtocol.AskFound` | Core-Go/control.go:352-354 | a verified access request of an honest client was signed by it with the same identities, address and key |
| `AccessProtocol.GrantedWasAsked` | Core-Go/data.go:384-397 | a request through the broker that differs in any field from everything its honest client signed is never granted |
| `AccessProtocol.OfferedWasAsked` | Core-Go/data.go:601-626 | a discovery request that its honest client did not sign with this agent, key, time and nonce is never answered |
| `AccessProtocol.AuthAgreement` | Core-Go/control.go:58-60 | a verified authentication of an honest key was signed by it for this peer name, which it owns, and this nonce |
| `AccessProtocol.ExchangeCompletes` | Core-Go/data.go:384-416 | after any run, a client that asks an agent which knows its key is granted access if its request is well formed and there is room, and accepts the answer |
| `AccessProtocol.PortAgreesIffInRange` | Core-Go/control.go:356-360 | the accepted port is the agent's port if and only if it is a 32-bit number |
| `AccessProtocol.ShiftedPortStillVerifies` | Core-Go/control.go:356-360 | adding 2^32 to the port keeps the signature valid |
| `AccessProtocol.OfferAgreement` | Core-Go/data.go:724-731 | an accepted discovery offer was made for this nonce and key after the agent verified a request with them |
| `DiscoveryRuns.Answer` | Core-Go/data.go:601-626 | the discovery loop with its cache answers as prescribed with the cache's own verdict, and leaves the cache as one step of the store |
| `DiscoveryRuns.NoRequestAnsweredTwice` | Core-Go/data.go:550-626 | over every run of the loop, no two answers are to the same signed bytes |
| `DiscoveryRuns.BrokerGrantsAgain` | Core-Go/data.go:384-397 | after any run, a request granted through the broker can be granted again on the same signature |
| `RpcPeer.StepKeeps` | Core-Go/control.go:190-254 | every atomic step of callers, reader and closer keeps the invariant that a channel has at most one chance of a result |
| `RpcPeer.AtMostOneResult` | Core-Go/control.go:190-254 | over every interleaving a channel gets at most one result, and it carries that call's id |
| `RpcPeer.ExactlyOneChance` | Core-Go/control.go:203-235 | over every interleaving a call that waits has exactly one chance of a result: its entry, a hand that holds it, or the result itself |
| `RpcPeer.ResponseIsDelivered` | Core-Go/control.go:245-254 | after any run, when the reader takes a response to a waiting call, exactly that response reaches its channel and the caller can return with it |
| `RpcPeer.ClosingIsDelivered` | Core-Go/control.go:190-201 | and the closing notice likewise when the closer takes its entry |
| `RpcPeer.OthersAreLeftAlone` | Core-Go/control.go:203-254 | responses to other ids, timeouts and failed writes of other calls leave a waiting call its entry |
| `RpcPeer.NoSendBlocks` | Core-Go/control.go:195-198 | whoever took an entry from the table can always deliver to it at once |
| `RpcPeer.SweepFinishes` | Core-Go/control.go:190-201 | the closer always has a step to take while it holds the lock, and nobody can add to its work |
| `RpcPeer.CallersAreReleased` | Core-Go/control.go:220-235 | once closing began every waiting caller can return |
| `AgentRegistry.Broker.Register` | Core-Go/control.go:473-478 | replaces the agent's connection and closes the previous one |
| `AgentRegistry.Broker.CleanUp` | Core-Go/control.go:479-485 | removes the entry only if it is this connection's own |
| `AgentRegistry.NewestIsKept` | Core-Go/control.go:472-486 | over every run the table holds an agent's newest connection exactly until that one cleans up |
| `Text.SortStrings` | Core-Go/features.go:51-57 | the in-place insertion sort yields a sorted permutation |
| `Text.SortedUnique` | Core-Go/features.go:51-57 | a collection of strings has one sorted listing |
| `Text.LessIff` | Core-Go/features.go:51-57 | the order itself: the first difference decides, and a proper prefix comes first |
| `Text.DecimalPrefixFree` | Core-Go/crosed.go:100-100 | undelimited decimal numbers can be told apart when no digit follows |
| `Text.NoLeadingZero` | Core-Go/crosed.go:100-100 | a decimal number longer than one digit does not begin with zero |
| `PortableJson.WritePortableJson` | Core-Go/crosed.go:86-165 | the writer appends the canonical text and fails on exactly the values that are not portable |
| `PortableJson.EscapeText` | Core-Go/crosed.go:106-128 | each character by itself: quote and backslash behind a backslash, the five short escapes, other control characters as six characters with lower-case digits, everything else as it is |
| `PortableJson.UnchangedIffPlain` | Core-Go/crosed.go:105-129 | a string is written as it is if and only if it has no control character, quote or backslash |
| `PortableJson.ScalarTexts` | Core-Go/crosed.go:91-100 | the texts of null, true, false and numbers |
| `PortableJson.ArrayText` | Core-Go/crosed.go:130-140 | a list is its items in order, between commas and brackets |
| `PortableJson.ObjectText` | Core-Go/crosed.go:141-160 | an object is its fields by sorted key, each with a colon, between commas and braces |
| `PortableJson.PortableLimits` | Core-Go/crosed.go:87-104 | sixteen levels, integers of 53 bits, no fractions, strings of at most 16384 bytes in normal form without zeros |
| `PortableJson.SortedKeys` | Core-Go/crosed.go:142-146 | whatever order the map yields, the keys come out in the one sorted order |
| `PortableJson.QuotedPrefixFree` | Core-Go/crosed.go:105-129 | escaped strings determine their content and where they end |
| `PortableJson.PrintPrefixFree` | Core-Go/crosed.go:86-165 | the text of a value determines it and where it ends, through all nesting |
| `PortableJson.SameTextIffSameValue` | Core-Go/crosed.go:86-165 | two accepted values have the same text if and only if they are equal up to the sign of zero |
| `PortableJson.MinusZeroIsZero` | Core-Go/crosed.go:95-100 | minus zero is accepted and written as zero |
| `SignedRequest.TextDetermines` | Core-Go/crosed.go:60-83 | equal signed texts agree on version, mod, nonce, time, level, capabilities, payload and the joined domains, if the words in it hold no separator |
| `SignedRequest.TextLayout` | Core-Go/crosed.go:77-82 | the signed text line by line: version, mod, nonce, time, level, sorted capabilities between commas, digest of the payload, and the two domains |
| `SignedRequest.OrderDoesNotMatter` | Core-Go/crosed.go:75-80 | the order of capabilities does not change the signed text |
| `SignedRequest.DomainsDeterminedIffNoBreaks` | Core-Go/crosed.go:77-82 | no other domains have the same signed text if and only if neither domain has a line break |
| `Grants.CompiledCapabilities` | Core-Go/features.go:21-29 | the report lists, sorted and without repetition, exactly the capabilities of the build |
| `Grants.CompiledByLevel` | Core-Go/crosed.go:19-26 | which capability each level of a build has, and that application transport needs its own feature |
| `Grants.SignedPayload` | Core-Go/crosed.go:60-83 | the bytes that are verified are the signed text, and there are none for a payload that is not portable |
| `Grants.CheckCapabilities` | Core-Go/crosed.go:233-248 | passes exactly lists without repetition whose every member is permitted |
| `Grants.CheckDomains` | Core-Go/crosed.go:249-271 | passes exactly what the isolation policy allows |
| `Grants.HighestLevel` | Core-Go/crosed.go:279-284 | the maximum of the granted levels |
| `Grants.HandleRequest` | Core-Go/crosed.go:178-298 | grants exactly the grantable requests, with their own level and capabilities; an error-free denial carries nothing |
| `Grants.GrantIsIntersection` | Core-Go/crosed.go:233-287 | a granted capability is requested, in the policy, compiled and within the level, which is that of the highest one |
| `Grants.GrantedIffAvailable` | Core-Go/crosed.go:178-298 | without domains a request is granted if and only if it is fresh, trusted and signed, and asks without repetition for available capabilities only, at the level of the highest |
| `Grants.DomainsDecide` | Core-Go/crosed.go:249-271 | with domains it is granted if and only if moreover it names none, the same one twice, or a target that the policy lists |
| `Grants.SameTextSameGrant` | Core-Go/crosed.go:60-83 | two granted requests with equal signed bytes agree on everything but capability order and, without isolation, domains |
| `Grants.GrantIgnoresOrder` | Core-Go/crosed.go:233-298 | whether a request is granted does not depend on the order of its capabilities |
| `GrantRuns.Handle` | Core-Go/crosed.go:178-298 | the handler with its store: a grant is released exactly if all checks pass and the store retains the nonce, as one step of the store |
| `GrantRuns.NoTextGrantedTwice` | Core-Go/crosed.go:289-293 | over every run of the handler, no two granted requests have the same signed text |
| `GrantRuns.KeyBindsModAndNonce` | Core-Go/crosed_replay.go:26-28 | two requests share a directory entry if and only if they have the same mod and nonce |
| `GrantRuns.FreshNonceIsGranted` | Core-Go/crosed_replay.go:24-70 | over every run, a request that passes the checks is granted while the directory has room and works, unless its mod had a grant under that nonce or a failed write left the entry |
| `Replay.StoreFollowsLog` | Core-Go/data.go:556-575 | over every run the bounded store decides as the whole log would, and refuses a fresh request in its window only on saturation |
| `Replay.NoRequestTwice` | Core-Go/data.go:556-616 | if every acceptance outlives its request's window, no request is accepted twice |
| `Replay.NeverTwiceIffKept` | Core-Go/data.go:550-600 | over all runs of requests valid for at most w, none is accepted twice if and only if an acceptance is kept for w, or until the expiry where that is stamped |
| `ReplayStores.LpdReplayCache.Reserve` | Core-Go/data.go:556-575 | the pruning loop keeps exactly the live nonces and the reservation follows the store |
| `ReplayStores.LpdReplayCache.Serve` | Core-Go/data.go:594-616 | unauthentic or out-of-window requests leave the cache alone, others are one step of the store |
| `ReplayStores.DiscoveryNeverRepeats` | Core-Go/data.go:550-616 | no discovery request is answered twice |
| `ReplayStores.DiscoveryAnsweredIff` | Core-Go/data.go:556-616 | over every run a request reaches an answer if and only if it is authentic, within 30 seconds, its nonce was not taken in the last 60 seconds and fewer than 50000 were |
| `ReplayStores.ReplayWindow.AcceptUntil` | Application-Layer/shadow_protocols.py:244-251 | range check, expiry of old entries and reservation |
| `ReplayStores.ReplayWindow.Accept` | Application-Layer/shadow_protocols.py:239-242 | messages within 300 seconds are held until their own expiry |
| `ReplayStores.ReplayWindow.VerifyIdentity` | Application-Layer/shadow_protocols.py:199-228 | an assertion reserves its nonce only after every other check, as one step of the store |
| `ReplayStores.ReplayWindow.Decrypt` | Application-Layer/shadow_protocols.py:281-317 | a message that is not authentic never reserves an id |
| `ReplayStores.MessagesNeverRepeat` | Application-Layer/shadow_protocols.py:231-251 | no message is accepted twice, whatever its validity |
| `ReplayStores.MessageAcceptedIff` | Application-Layer/shadow_protocols.py:231-251 | over every run a chat message is accepted if and only if it is authentic, within 300 seconds, and no live message has its id or fills the window |
| `CrosedReplay.ReplayStore.Prune` | Core-Go/crosed_replay.go:74-99 | a full directory loses exactly its old entries that can be inspected and removed, and saturation is reported exactly if those seen to stay fill it |
| `CrosedReplay.ReplayStore.RetainDigest` | Core-Go/crosed_replay.go:40-70 | retained, replayed, saturated, unavailable or failed, with the entry removed again, if possible, when it cannot be written |
| `CrosedReplay.RetainOverfillsIff` | Core-Go/crosed_replay.go:40-99 | a directory within its capacity grows past it if and only if it is full and usable, the new entry stays, nothing can be removed and some entry cannot be inspected |
| `CrosedReplay.BoundedIffNoneOverfills` | Core-Go/crosed_replay.go:40-99 | over every run the directory stays within its capacity if and only if no attempt meets that condition |
| `CrosedReplay.UninspectedRunOverfills` | Core-Go/crosed_replay.go:83-87 | for every capacity some run, with files stamped in time, overfills the directory |
| `CrosedReplay.FreshRefusedOnlyIfFull` | Core-Go/crosed_replay.go:40-99 | a new digest is retained if and only if the directory is usable, its entry can be written, and there is room or some entry can go or is not counted |
| `CrosedReplay.GrantsNeverRepeat` | Core-Go/crosed.go:211-293 | if the retention covers validity and the lag of the stamps, no request is retained twice |
| `CrosedReplay.NeverTwiceIffRetained` | Core-Go/crosed_replay.go:16-19 | over all runs of requests valid for at most w with files stamped at most e early, none is retained twice if and only if the retention is at least w + e |
| `HookCommand.IndexString` | Core-Go/data.go:1070-1080 | the first match, or none |
| `HookCommand.StringReplaceAll` | Core-Go/data.go:1060-1068 | if replacing the first match comes to an end, the loop returns that end, and no match is left |
| `HookCommand.AlwaysOnePassIffInert` | Core-Go/data.go:1060-1068 | for every variable, rescanning ends with a single pass from left to right on all texts if and only if the replacement, laid over the variable at any offset, disagrees with it somewhere |
| `HookCommand.ShorterEnds` | Core-Go/data.go:1060-1068 | it ends for every replacement shorter than the variable |
| `HookCommand.SelfFeedingNeverEnds` | Core-Go/data.go:1060-1068 | a replacement that contains the variable never ends once there is a match |
| `HookCommand.PortIsInert` | Core-Go/data.go:1055-1055 | a decimal port disagrees with the port variable at every offset |
| `HookCommand.AddressIsInert` | Core-Go/config.go:156-180 | so does every address that can be accepted with the address variable |
| `HookCommand.ReplaceHookVariables` | Core-Go/data.go:1053-1058 | both replacements are single passes and keep the number of arguments |
| `HookArguments.VariablesAreFilledIn` | Core-Go/data.go:1053-1058 | port and address go where their variables were, and the text around them stays |
| `HookCommand.SplitCommand` | Core-Go/data.go:1082-1125 | the loop computes the split of the command |
| `HookArguments.SplitIsArguments` | Core-Go/data.go:1082-1125 | a command made of blanks, characters, escaped characters and quoted parts splits into the words between blanks, adjacent parts joined, quoted and escaped blanks kept, empty words left out |
| `HookArguments.EveryText` | Core-Go/data.go:1082-1125 | every text is such a command, followed at most by a lone backslash or an open quote |
| `HookArguments.LeftoverIsRejected` | Core-Go/data.go:1118-1125 | and it is rejected if and only if something of that kind is left over |
| `HookArguments.PlainWordsSplit` | Core-Go/data.go:1082-1125 | plain words between blanks split into themselves if and only if none is empty |
| `HookArguments.QuotedPartJoins` | Core-Go/data.go:1082-1125 | a plain word and a text in either kind of quotes next to it are one argument, with the blanks of the text |
| `HookCommand.SameArgumentCount` | Core-Go/data.go:990-994 | the rewritten command splits into as many arguments as the original, or is rejected like it |
| `HookCommand.SplitInvertsEscaping` | Core-Go/data.go:1082-1125 | splitting inverts backslash escaping if and only if no argument is empty |
| `Rle.RleEncode` | C11Relay/c11relay.c:242-266 | refuses only inputs that leave no room for the marker, and else writes the frame: raw exactly if twice the number of runs exceeds the length |
| `Rle.RleDecode` | C11Relay/c11relay.c:268-294 | accepts exactly the meaningful frames that fit, and never writes past its capacity |
| `Rle.RoundTrip` | C11Relay/c11relay.c:242-294 | decoding returns every datagram that fits, and the frame is at most one byte longer |
| `Rle.FrameMeans` | C11Relay/c11relay.c:268-294 | a zero byte and the datagram, or a one byte and pairs of a count and a value; which frames are malformed |
| `Rle.PairsConcatenate` | C11Relay/c11relay.c:278-291 | pairs after one another mean their runs after one another |
| `Rle.UniformFrame` | C11Relay/c11relay.c:249-263 | a run of two to 255 equal bytes becomes one pair |
| `Rle.VariedFrame` | C11Relay/c11relay.c:249-266 | a datagram without equal neighbours stays raw |
| `Rle.GreedyIsMinimal` | C11Relay/c11relay.c:249-263 | no list of pairs for a datagram is shorter than the greedy one |
| `Rle.EncodeIsOptimal` | C11Relay/c11relay.c:242-294 | no frame accepted for a datagram is shorter than the encoder's |
| `Rle.TransformPacket` | C11Relay/c11relay.c:456-467 | which side encodes and which decodes |
| `Rle.RelayPair` | C11Relay/c11relay.c:456-467 | through a front and a back relay, in either direction, a datagram within both limits arrives unchanged |
| `TokenBucket.RelayPeer.RateAllow` | C11Relay/c11relay.c:296-315 | one decision of the limiter |
| `TokenBucket.RefusedIffOverfull` | C11Relay/c11relay.c:296-315 | for every clock that never goes back: at clock zero a packet is refused if and only if the burst is below one, and later if and only if it would overfill some window that starts at a packet after clock zero and ends now |
| `TokenBucket.WindowsHold` | C11Relay/c11relay.c:296-315 | no window after clock zero with an admitted packet holds more than burst plus rate times its length |
| `TokenBucket.ClockZeroIsUnlimited` | C11Relay/c11relay.c:300-303 | at clock zero all packets pass, and they overfill their window exactly when they are more than the burst |
| `TokenBucket.RefillPerSecond` | C11Relay/c11relay.c:304-308 | a second earns the rate |
| `TokenBucket.UnlimitedPasses` | C11Relay/c11relay.c:297-299 | without a positive rate every packet passes |
| `PeerTable.Relay.FindPeer` | C11Relay/c11relay.c:329-341 | the first active mapping of the client, or none |
| `PeerTable.Relay.CreatePeer` | C11Relay/c11relay.c:343-387 | fills the first free slot under the next generation, or changes nothing |
| `PeerTable.Relay.ClosePeer` | C11Relay/c11relay.c:317-327 | frees the slot and its registration and keeps the generation |
| `PeerTable.Relay.CleanupIdlePeers` | C11Relay/c11relay.c:444-450 | closes exactly the mappings that were silent for the timeout |
| `PeerTable.Relay.Arrive` | C11Relay/c11relay.c:585-594 | finds or creates the client's mapping and notes the activity |
| `PeerTable.ArrivalServes` | C11Relay/c11relay.c:585-594 | in any valid table, a known client only has its own mapping marked as seen now, an unknown one gets the first free slot under the next generation if a socket opens, and nothing else changes |
| `PeerTable.SameClientIff` | C11Relay/c11relay.c:213-240 | two addresses are the same client if and only if both have the full length of their family and agree on address, port and scope |
| `PeerTable.ReachableIsValid` | C11Relay/c11relay.c:317-387 | in every reachable state active mappings have distinct clients and distinct registered sockets |
| `PeerTable.SkipNeverReturns` | C11Relay/c11relay.c:370-371 | within the creations of one batch a generation does not come back |
| `PeerTable.DeliveredIffStillThere` | C11Relay/c11relay.c:534-612 | an event of a batch is delivered to a slot if and only if that slot registered it and still holds the same mapping |
| `PeerTable.EventsReachTheirMapping` | C11Relay/c11relay.c:534-612 | so it reaches only the client for whom that mapping was made |
| `ReplyBatch.Select` | C11Relay/c11relay.c:108-121 | the messages that fit, in order, and the others counted as dropped |
| `ReplyBatch.SendableInOrder` | C11Relay/c11relay.c:108-121 | a message is handed on if and only if it fits 65535 bytes and the limit, in the order received |
| `ReplyBatch.AllReported` | C11Relay/c11relay.c:125-140 | messages reported with their own lengths all count, with these lengths |
| `ReplyBatch.SendReplyBatch` | C11Relay/c11relay.c:103-143 | for any kernel replies every message is counted once, the completed ones are a prefix in order, and the calls are bounded |
| `DuplexPump.Turn` | Benchmark/iperf_chain.py:224-243 | one turn keeps, in each direction, received equal to forwarded and pending, buffers bounded and shutdowns justified, also when a shutdown, a read or a write fails |
| `DuplexPump.Run` | Benchmark/iperf_chain.py:213-243 | the same over every run, with no empty read request, and a run that ends by itself is complete in both directions |
| `DuplexPump.TurnProgresses` | Benchmark/iperf_chain.py:224-245 | from any state of a run a turn fails only if some call does, ends the run exactly when all is drained, shuts down every direction that ended and drained, and moves bytes on every connection that is ready for something useful |
| `DuplexPump.Pump.Prepare` | Benchmark/iperf_chain.py:225-234 | shuts a direction down exactly when it is due and registers exactly what is to be waited for |
| `DuplexPump.Pump.Handle` | Benchmark/iperf_chain.py:236-245 | updates the buffers and sets for one reported connection as the turn prescribes |
| `DuplexPump.Copy` | Benchmark/iperf_chain.py:213-245 | the loop over its own buffers, sets and registrations computes that run |
| `RecordSession.RecordLoop.SendPending` | CLI/shadow6_connect.py:111-117 | sends or keeps the pending record, marks the end for an empty one on a sequenced session, and watches the input again |
| `RecordSession.RecordLoop.ReadStdin` | CLI/shadow6_connect.py:121-133 | reads at most what the current record lacks and hands over a complete one |
| `RecordSession.RecordLoop.WriteStdout` | CLI/shadow6_connect.py:140-146 | writes what the output takes and turns back to the socket when the record is out |
| `RecordSession.Serve` | CLI/shadow6_connect.py:96-148 | the loop over its own variables and registrations computes the run of its turns |
| `RecordSession.TurnKeeps` | CLI/shadow6_connect.py:110-145 | every turn keeps the framing of both directions and never registers anything twice |
| `RecordSession.TurnSends` | CLI/shadow6_connect.py:112-119 | a turn that can send sends the pending record and nothing else; once all input is read and sent, the next turn marks the end, or fails where there is no end mark |
| `RecordSession.TurnMoves` | CLI/shadow6_connect.py:120-145 | a turn that goes on reads the input offered up to what the record lacks, takes a record from the peer when none is being written, and else writes what the output takes |
| `RecordSession.WhyItEnds` | CLI/shadow6_connect.py:110-145 | a turn ends the session only for the end of the peer, input that stops inside a record, a record that is too long or a failed send, and goes on only when it met none of these |
| `RecordSession.ChunkingDoesNotMatter` | CLI/shadow6_connect.py:121-133 | the records sent and pending are exactly the parse of the input read, and no read asks for nothing |
| `RecordSession.SameInputSameRecords` | CLI/shadow6_connect.py:121-133 | two runs that read the same input have the same records, however it was cut |
| `RecordSession.EndIsLastIffNoEmptyRecord` | Deployment/connection_plan.py:322-350 | over all runs on some input, an end mark always comes after all input was read and sent, if and only if the session is not sequenced or no acceptable record of the input is empty |
| `RecordSession.EmptyRecordEndsEarly` | Deployment/connection_plan.py:328-329 | four zero bytes mark the end while more input may come |
| `RecordSession.NothingAfterTheMark` | Deployment/connection_plan.py:322-350 | after the mark nothing is sent or marked again, and a further record ends the session with an error |
| `RecordSession.OutputIsInOrder` | CLI/shadow6_connect.py:134-145 | the output is the encoding of the received records in order, as far as it was written |
| `ToolSchema.PlainAccepts` | Control-Center/shadow6_control.py:392-415 | which values each type takes by itself, within the default bounds |
| `ToolSchema.BoundsDecide` | Control-Center/shadow6_control.py:407-415 | tighter bounds on numbers, lengths and counts take away exactly the values outside them |
| `ToolSchema.EnumerationDecides` | Control-Center/shadow6_control.py:395-396 | an enumeration takes away exactly the values equal to none of its members |
| `ToolSchema.RequiredDecides` | Control-Center/shadow6_control.py:401-403 | requiring properties takes away exactly the objects without them |
| `ToolSchema.ClosingDecides` | Control-Center/shadow6_control.py:398-400 | closing a schema takes away exactly the objects with other properties |
| `ToolSchema.PropertyDecides` | Control-Center/shadow6_control.py:404-406 | listing a property takes away exactly the objects whose value of it is not accepted |
| `ToolSchema.ItemsDecide` | Control-Center/shadow6_control.py:410-411 | a schema for the items takes away exactly the lists with an item it does not accept |
| `ToolSchema.NullableAccepts` | Control-Center/shadow6_control.py:1107-1111 | an optional property accepts null and otherwise exactly what it did |
| `ToolSchema.StrictIffConvertible` | Control-Center/shadow6_control.py:1096-1120 | a schema has a strict form if and only if no part is a free-form object and every optional property has a type |
| `ToolSchema.StrictIsValidIff` | Control-Center/shadow6_control.py:1096-1120 | a value of the strict form satisfies the schema if and only if, at any depth, optional properties are null only where their schema takes null and required ones are listed |
| `ToolSchema.ValidIsStrictIff` | Control-Center/shadow6_control.py:1096-1120 | a value of the schema satisfies the strict form if and only if, at any depth, objects have exactly the listed properties with null for those they lack |
| `ToolSchema.StrictArgumentsAreValid` | Control-Center/shadow6_control.py:1394-1399 | for every object schema, strict arguments without their top-level nulls satisfy the schema if and only if no required property was null, the nulls below fit, and an enumeration of whole arguments lists the rest |
| `ToolSchema.ValidArgumentsAreReached` | Control-Center/shadow6_control.py:1394-1399 | for every object schema, valid arguments without nulls come from strict ones if and only if they use listed properties only, with complete values |
| `ToolSchema.NestedNullSurvives` | Control-Center/shadow6_control.py:1394-1399 | a null in a nested object passes the strict form and fails the schema |

## Left out

- Sockets, files, processes, the KCP and WebSocket libraries and key generation: only their results enter, as inputs.
- Reordering or replay of records on the carrier, forged records, and nonce prefixes across connections: the stream relies on the carrier below and on chance.
- ReplyBatch.SendReplyBatch: counters are unbounded numbers, because the 64-bit counters of the relay do not overflow in practice.
- TokenBucket.RelayPeer.RateAllow: uses real numbers, without the rounding of doubles.
- RpcPeer.AtMostOneResult: covers up to 2^64 calls on one connection, after which the id counter wraps.
- The broker's own checks on access requests: agreement between client and agent does not depend on them.
- PortableJson.WritePortableJson: takes decoded values as code points; UTF-8 encoding, normal form C and the strict decoder are not part of this model.
- Grants.HandleRequest: reading the two files and decoding keys and signatures are verdicts from outside.
- CrosedReplay.ReplayStore.RetainDigest: one process at a time; two at once can exceed the bound between listing and creation.
- HookCommand.StringReplaceAll: takes that the rewriting ends as given; when it does is decided for inert, shorter and self-containing replacements, because in general that is the termination of a one-rule rewriting system.
- HookCommand.AddressIsInert: describes the texts `net.ParseIP` takes by their characters, which covers more than it accepts.
- RecordSession.Serve: the byte budget of a session is one of the errors a session call may raise.
- PeerTable.EventsReachTheirMapping: does not account for the datagrams a clamped receive batch discards.
- The grant idle timer, the retry loops, webhooks, the other cores, deployment, routing and audit scripts: plumbing or plain validation.
