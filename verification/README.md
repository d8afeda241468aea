# OmaSend: a verified model of the engine

OmaSend moves clipboards and files between a desktop engine (Rust) and an Android client
(Kotlin) on a local network. This project models the stateful core of both and proves what
that core keeps over whole runs, under every interleaving and for every input: the trust store
and the two-device pairing protocol, the shared counters, the HTTP reader, the rate limiter,
the caches, the parsers and codecs, and the arithmetic.

`dafny verify dfyconfig.toml` checks everything.

## How the model is laid out

State that the source edits in place is a class here, and loops are loops; each method is tied
to a function of the old state, and the properties are proved about that function. Code that
other threads can enter between two memory accesses is a state machine with one step per access.

| file | models |
|---|---|
| `Pairing.dfy`, `PairingStore.dfy` | the trust store: the four operations on a map, and the list of records that refines it |
| `PairingRuns.dfy` | runs of the store: who issued which code and token, how often a code was compared |
| `PairHandler.dfy`, `PairInterleavings.dfy`, `PairingTraces.dfy` | the HTTP entrance to pairing: PIN check, rate limiter and store in one server, with one request at a time and with concurrent threads |
| `TwoNode.dfy` | two devices with delayed, lost, repeated or forged messages between them |
| `PinLimiter.dfy`, `PinInterleavings.dfy` | the per-address rate limiter, and the same with concurrent requests |
| `ConnectionLimiter.dfy`, `Staging.dfy`, `EncryptedUploads.dfy` | the counters shared between threads |
| `HttpReader.dfy`, `HeaderText.dfy` | header and body reading from a stream cut into arbitrary reads, and what the header text asks for |
| `Transfer.dfy` | the pending-transfer slot: request, decision, uploads |
| `HashRing.dfy`, `ImageEviction.dfy`, `ClipStaging.dfy` | the caches of both ends |
| `Stun.dfy`, `ImageHeader.dfy`, `Base64.dfy`, `PercentCoding.dfy` | parsers and codecs |
| `OmaId.dfy`, `Envelope.dfy`, `SpeedCalculator.dfy` | identifiers, the pairwise envelope, the transfer rate |
| `Prelude.dfy`, `Bits.dfy`, `Utf8.dfy`, `Addresses.dfy`, `Ordering.dfy` | shared vocabulary |

## Where the code and its promises part

Each of these is modelled as the code does it, with lemmas that give an input and the exact
condition. For the two STUN parsers the condition is for responses with nothing behind the length
they give, and behind a non-IPv4 address it compares what either parser goes on to read.

- The trust store saves after a failed read as if the file had been empty, so everybody else's
  record is lost: `Pairing.OtherRecordsKeptExactly`, `PairingRuns.OtherRecordLost`.
- "Revoked after 5 failed attempts" counts only attempts whose outcome could be saved:
  `PairingRuns.FiveGuessesExactlyIfSaved`, `PairingRuns.SixComparisonsHappen`. An unsaved attempt
  tells nothing about the code: `Pairing.UnsavedCheckRevealsNothing`.
- The documentation (README.md:26) lets a stored peer address be loopback; `complete_remote_pairing` and
  `store_completed_pairing` both refuse loopback, and so does the model. Only an address hint may
  be loopback, and then no completion can match it:
  `PairingRuns.CompletableExactlyIfNotLoopback`, `PairingRuns.LoopbackHintIsAccepted`.
- A header that ends after byte 61441 of a stream longer than 64 KiB can lose body bytes,
  depending on how the stream is cut: `HttpReader.FramingIndependentOfCutsExactly`,
  `HttpReader.LateStreamCanLoseBytes`.
- Pruning the limiter's table goes by the age of a window and can lift a running block:
  `PinLimiter.BlockSurvivesExactly`, `PinInterleavings.BlockIsLifted`.
- A pending transfer whose save fails keeps its file listed, so that name can be stored again:
  `Transfer.NeverMoreThanApprovedExactly`, `Transfer.OneFileStoredTwice`.
- JPEG fill bytes are skipped in pairs, and the `<html` pattern is compared with windows of the
  wrong width: `ImageHeader.FillBytesAreSkippedExactlyInPairs`, `ImageHeader.HtmlWindowNeverMatches`,
  `ImageHeader.HtmlPictureIsAccepted`.
- The Android STUN parser loses its place behind a non-IPv4 address attribute, and takes the first
  address of either kind where the engine prefers XOR-MAPPED-ADDRESS:
  `Stun.Ipv6FirstMakesThemDiffer`, `Stun.ParsersAgree`. It also reads error responses:
  `Stun.ErrorResponseReadByClientOnly`, `Stun.ErrorResponseMakesThemDiffer`.
- The two validators of an OmaID differ outside ASCII digits, spaces and hyphens:
  `OmaId.ValidatorsAgreeExactly`, `OmaId.ValidatorsDiffer`.
- A percent sign followed by a plus sign and a hex digit decodes to one byte, because the number
  parser accepts a sign: `PercentCoding.StandardExactlyIfUnsigned`,
  `PercentCoding.SignedTripleDecodes`. The round trip is not affected.
- Beyond a size of about 92 PB the product behind the percentage overflows: the percentage drops on
  the way, and a finished transfer does not show 100: `SpeedCalculator.PercentNeverDecreasesExactly`,
  `SpeedCalculator.PercentDropsBeyondTheLimit`, `SpeedCalculator.FinishedShowsHundredExactly`.

## Model

| member | source | states |
|---|---|---|
| PairingStore.PairingStore.AddPairedPeer | src/rendezvous.rs:394-424 | The list after adding equals the map step: an existing record is returned untouched, a new one is appended unconfirmed with a fresh token, and every failing path leaves the list alone; identifiers stay unique |
| PairingStore.PairingStore.BeginLocalPairing | src/rendezvous.rs:430-465 | The list edit (retain, push, save) replaces exactly the record of that identifier by a pending one; a bad hint, missing randomness, lock or save failure changes nothing |
| PairingStore.PairingStore.CompleteRemotePairing | src/rendezvous.rs:472-533 | The in-place edits of the found record amount to confirming it for the right code and source in time, or to counting the wrong guess and revoking the code at the fifth; a failed save keeps the old list |
| PairingStore.PairingStore.StoreCompletedPairing | src/rendezvous.rs:541-578 | The initiator's edit stores a confirmed record at a local, non-loopback address only for a well-formed token |
| PairingStore.PairingStore.VerifyPeerAuthToken | src/rendezvous.rs:369-388 | A token is accepted exactly for a confirmed record of that identifier that holds it, or holds none |
| PairingStore.ConstantTimeEq | src/rendezvous.rs:278-287 | The comparison that never stops early decides equality |
| PairingStore.ViewWithout | src/rendezvous.rs:446-461 | Retaining all other identifiers' records removes exactly one key from the map the list stands for and keeps identifiers unique |
| PairingStore.ViewUpdate | src/rendezvous.rs:494-530 | Editing one record in place changes exactly its own entry of the map the list stands for |
| Pairing.OtherRecordsKeptExactly | src/rendezvous.rs:337-346 | Another peer's record survives an operation unchanged if and only if the file could be read or the request is one that writes nothing: a failing lock or save, an invalid identifier, a missing draw, a bad hint, address or token, or a completion |
| Pairing.BlindBeginLosesRecords | src/rendezvous.rs:337-346 | Starting a pairing while the file cannot be read removes every other peer's record |
| PairingRuns.OtherRecordLost | src/rendezvous.rs:444-464 | A run of two pairing commands from the empty store after which the first peer's record is gone |
| Pairing.NoStrangerAppears | src/rendezvous.rs:394-578 | No operation creates a record for anyone but the identifier it names |
| Pairing.RefusalChangesNothing | src/rendezvous.rs:394-578 | A refused operation changes the store if and only if it is a wrong guess at a pending code and could be saved; every other refusal, a failed save included, leaves it as it was |
| Pairing.UnsavedCheckRevealsNothing | src/rendezvous.rs:500-533 | A check whose outcome cannot be saved gets the same answer whatever code was presented, and changes nothing |
| Pairing.LoopbackHintNeverCompletes | src/rendezvous.rs:472-515 | While the address on record is loopback no completion for it is granted |
| PairingRuns.CompletableExactlyIfNotLoopback | src/rendezvous.rs:430-533 | In every reachable store, some completion of a pending pairing would be granted if and only if its pairing command gave no address or one that is not loopback |
| PairingRuns.LoopbackHintIsAccepted | src/rendezvous.rs:442-444 | For every valid identifier a pairing command with a loopback address is accepted, and no completion of it is ever granted |
| PairingRuns.CompletionIsExplained | src/rendezvous.rs:430-533 | In every run from an empty store, a granted completion has an earlier local pairing command for the same normalised identifier that issued exactly that code and the token handed out, with nothing in between that replaced the record, at most 600 s before, after fewer than five wrong guesses, and from the hinted address if one was given |
| PairingRuns.ConfirmationNeedsCompletion | src/rendezvous.rs:472-578 | A confirmed record that stems from an issued code was confirmed by a later granted completion for that identifier |
| PairingRuns.ConfirmedRecordsAreActive | src/rendezvous.rs:210-216 | In every reachable store, confirmed means active at a local non-loopback address, without a code, and originating from one of the two pairing commands for that identifier |
| PairingRuns.CodeComparedAtMostFiveTimes | src/rendezvous.rs:503-530 | In every run the comparisons with an issued code, less those whose outcome could not be saved, number at most five |
| PairingRuns.UnsavedGuessesAreNotCounted | src/rendezvous.rs:503-533 | While saving fails, a pending code is compared once more with every repetition of a guess, without any bound, and the store never changes |
| PairingRuns.FiveGuessesExactlyIfSaved | src/rendezvous.rs:503-533 | After any saved run, however often one guess is repeated its code is compared at most five times in all, if and only if the guess can be saved or is not checked against a pending code |
| PairingRuns.SixComparisonsHappen | src/rendezvous.rs:503-533 | A run from the empty store in which one code is compared six times |
| PairingRuns.RecordsAreCanonical | src/rendezvous.rs:411-421 | Every stored record sits under its own valid normal form and is displayed in format |
| PairingRuns.TokenAcceptedExactly | src/rendezvous.rs:369-388 | In every reachable store a token is accepted if and only if a confirmed record holds that very token, so the branch for records without a token is never taken |
| TwoNode.StoredOnlyAfterConfirmation | src/main.rs:2555-2622 | With delayed, lost, repeated and forged messages, whenever the initiator stores a completed pairing the responder had confirmed it under that very token before |
| TwoNode.TokensStayEqual | src/rendezvous.rs:472-578 | From then on both devices hold that token for each other as long as the responder has not been disturbed since its confirmation nor the initiator since it stored |
| TwoNode.DisturbanceBreaksAgreement | src/rendezvous.rs:541-578 | The proviso is exact: a disturbing step keeps the token if and only if it stores that same token for that same peer |
| PairHandler.Server.HandleRequest | src/main.rs:4164-4318 | One request runs limiter check, PIN, second check, completion and recording as the specified step on limiter table and trust store together; a pairing attempt from loopback is refused before the second check, the store and its recording |
| PairHandler.LimiterRuns | src/main.rs:4289-4312 | Every run of the server is a run of the limiter in which each recorded attempt had passed the check |
| PairHandler.StoreRuns | src/main.rs:4294-4314 | Every run of the server is a run of the trust store, so all whole-run properties of the store hold behind HTTP |
| PairHandler.PairedWasIssuedLocally | src/main.rs:4257-4308 | Whoever is answered PAIRED presented a code the local user issued for that identifier at most ten minutes before, and receives the token drawn then |
| PairInterleavings.LimiterRuns | src/main.rs:4164-4312 | With one thread per connection, at most four per address, and every check, PIN, completion and recording a step of its own, every run of the server is a run of the limiter under its own interleavings |
| PairInterleavings.CountsHold | src/main.rs:4164-4312 | In every interleaving each address has at most four connections, and those let through and not yet recorded are among them |
| PairingTraces.GrantHasOrigin | src/rendezvous.rs:430-533 | In any machine whose events run at most one store operation each, every granted completion goes back to an event that issued its code and token for that identifier at most ten minutes before |
| PairInterleavings.AtMostTwelveCodesRefused | src/main.rs:4282-4312 | However the requests interleave, the store refuses at most twelve codes from one address in any 60 s without a recorded success of its own, and at most eleven while the table is never pruned |
| PairInterleavings.GrantWasIssuedLocally | src/main.rs:4257-4308 | However the requests interleave, a granted completion presented a code the local user issued for that identifier at most ten minutes before, and the token granted is the one drawn then |
| PinLimiter.PinRateLimiter.RecordPinAttempt | src/main.rs:3526-3560 | Pruning, window reset, saturating count and block as one step on the table, with the returned verdict |
| PinLimiter.PinRateLimiter.IsPinRateLimited | src/main.rs:3509-3524 | True if and only if the address has a block that has not run out |
| PinLimiter.BlockedExactlyFromFive | src/main.rs:3549-3559 | In every run with a monotone clock a block is set if and only if the failure count is at least five, and no window starts in the future |
| PinLimiter.AtMostSevenTolerated | src/main.rs:3526-3560 | No closed 60-second interval without a success of an address holds more than seven of its failures that are let pass, even though pruning forgets windows |
| PinLimiter.SevenAreReached | src/main.rs:3543-3559 | That bound is tight: a run reaches seven |
| PinLimiter.AtMostEightGuesses | src/main.rs:3509-3560 | If every attempt asks first, at most eight failing attempts of one address fit into any 60 s without its success |
| PinInterleavings.AtMostTwelveGuesses | src/main.rs:3509-3560 | Under every interleaving of up to four concurrent requests per address, each asking and recording in two steps, at most twelve of its failing attempts fall into any 60 s without its success, and at most eleven while the table is never pruned |
| PinInterleavings.ElevenAreReached | src/main.rs:3509-3560 | The second bound is tight: an interleaving reaches eleven |
| PinInterleavings.TwelveAreReached | src/main.rs:3509-3560 | So is the first: an interleaving in which a crowd of other addresses has an old block pruned reaches twelve |
| PinLimiter.BlockSurvivesExactly | src/main.rs:3534-3536 | Somebody else's attempt leaves a running block in force if and only if the table holds at most 1000 entries or the blocked window is younger than 300 s |
| PinInterleavings.BlockIsLifted | src/main.rs:3534-3536 | A run with a monotone clock that reaches more than 1000 entries, with an address blocked whose window is 300 s old, and in which somebody else's attempt then lifts that block |
| ConnectionLimiter.EveryInterleavingIsSafe | src/main.rs:88-126 | Under every interleaving of single accesses, the global counter is the number of guards not yet dropping and at most 32, and each address's entry is its held plus half-dropped guards, at most 4 and never a stored zero |
| ConnectionLimiter.NoUnderflow | src/main.rs:94-95 | The unlocked decrement never wraps around |
| ConnectionLimiter.AllGoneMeansEmpty | src/main.rs:92-107 | When no call and no guard is left the counter is zero and the map empty |
| ConnectionLimiter.RefusedExactlyAtALimit | src/main.rs:109-126 | A caller is refused if and only if the counter it read is at 32 or its address has four guards, half-dropped ones included |
| Staging.EveryInterleavingConserves | src/main.rs:2907-2945 | Under every interleaving the staged total is the sum of the live reservations and at most 200 MiB, and a name is on disk if and only if exactly one request owns it or its removal was tried and failed |
| Staging.ReleasedExactlyOnce | src/main.rs:2934-2945 | The step that ends a reservation subtracts what it held without wrap-around, and the guard's second release on the same path subtracts nothing |
| Staging.AllDoneMeansEmpty | src/main.rs:3058-3088 | When every request is done, nothing is reserved and the stage files left are exactly those that could not be removed; none if every removal works |
| EncryptedUploads.NeverMoreThanTwo | src/main.rs:2951-2977 | Under every interleaving of loads and spuriously failing compare-and-swaps the counter is the number of guards and at most two |
| HttpReader.Connection.ReadHttpHeaders | src/main.rs:3233-3338 | The loop over reads of at most 4096 bytes delivers what the specified fill delivers: block, rest of the buffer, rest of the stream, with the content length its text asks for, or a rejection |
| HttpReader.Connection.ReadHttpBody | src/main.rs:3341-3471 | A delivered body is the next content-length bytes, in memory or in one new stage file with its reservation; every refused or failed body gives back the reservation, and the file unless it cannot be removed; and it is delivered whenever nothing stands against it |
| HttpReader.FillIsFaithful | src/main.rs:3243-3292 | However the stream is cut, a header block that is found is the prefix up to the first blank line within 65536 bytes, and bytes go missing only when the buffer is full |
| HttpReader.FillSucceedsExactly | src/main.rs:3243-3292 | On a stream that does not fail the header is found if and only if the first blank line ends within 65536 bytes |
| HttpReader.FramingIndependentOfCutsExactly | src/main.rs:3262-3292 | No cut loses body bytes if and only if the header ends by byte 61441 or the whole stream fits into 65536 bytes |
| HttpReader.LateStreamCanLoseBytes | src/main.rs:3262-3292 | A stream whose header ends at byte 61442, and a way to cut it that loses body bytes |
| HttpReader.BodyIsTheNextBytes | src/main.rs:3361-3382 | Whatever the reads, a completed body is the next wanted bytes and the rest stays unread |
| HttpReader.BodyDeliveredExactly | src/main.rs:3361-3382 | On a stream that does not fail the body is delivered if and only if enough bytes are there |
| HttpReader.ReadingIndependentOfCuts | src/main.rs:3233-3471 | A safely framed request is read as its bytes alone determine or not at all, for every cut and every way to read a length out of the header block, and as they determine if no read fails |
| HttpReader.Connection.ReadRequest | src/main.rs:3473-3485 | Reading headers and then body on one connection delivers exactly the request that the bytes and their cuts determine, whether it ends up in memory or in a file, unless a large body cannot be staged |
| HttpReader.SentRequestIsReadBack | src/main.rs:3233-3471 | A request sent as lines with one content-length line, a blank line and a body is read back as it was sent, however the stream is cut, if the block ends by byte 61441 and no read fails |
| HeaderText.ParseHead | src/main.rs:3245-3262 | The loop over the lines and the test of the request line decide what a header block asks for, on any bytes |
| HeaderText.LengthIsTheLastGiven | src/main.rs:3247-3259 | The content length is what the last line giving one says, or 0, and the block is refused if and only if some line asks for more than 100 MiB |
| HeaderText.LinesUndoJoin | src/main.rs:3247 | Splitting into lines undoes joining with carriage return and line feed |
| HeaderText.HeadIsUnderstood | src/main.rs:3245-3262 | A block that gives a decimal length once, wherever among its lines, is understood to ask for just that |
| Transfer.Receiver.HandleRequest | src/main.rs:4420-4478 | The loop over the listed files builds two lists in lockstep with cleaned names; the request is refused if and only if the saturated size and 25 MiB exceed the free space |
| Transfer.Receiver.HandleDecision | src/main.rs:4539-4557 | The answer changes status and expiry only, for the matching unexpired token, and never the lists |
| Transfer.Receiver.HandleUpload | src/main.rs:4571-4672 | An upload is stored exactly when it passes token, status, expiry, listing, size, body, digests and writing in that order, and strikes one occurrence off each list |
| Transfer.StrikeName | src/main.rs:4662-4667 | Finding the first position and removing it is removing the first occurrence, if any |
| Transfer.StepConservesExactly | src/main.rs:4660-4672 | A stored name was still remaining, and it is taken off the remaining ones if and only if the slot could be saved; the last one clears the slot |
| Transfer.UploadsConserve | src/main.rs:4571-4672 | For every run of uploads and decisions, approved plus unsaved names equal remaining plus stored, as multisets, and the lists stay in lockstep |
| Transfer.NeverMoreThanApprovedExactly | src/main.rs:4583-4672 | While a transfer is open, going on with every save succeeding can store more than was approved if and only if the save after some stored file has failed |
| Transfer.OneFileStoredTwice | src/main.rs:4660-4672 | One file approved, two uploads, the first save failing: it is stored twice |
| Transfer.ClearedExactlyWhenComplete | src/main.rs:4668-4672 | In every run the slot is cleared if and only if something was approved and all of it, besides what could not be struck off, has been stored; when saves succeed, if and only if every approved file has been stored |
| Transfer.NothingStoredBeforeAcceptance | src/main.rs:4571-4581 | An untrusted sender stores nothing in any run without an acceptance under that token |
| HashRing.ClipboardVault.RecordHash | android/app/src/main/java/io/omarchy/omasend/repository/ClipboardVault.kt:137-151 | Remove, evict in a loop, append: the hash becomes the newest entry and at most 63 others stay, in order |
| HashRing.ClipboardVault.ProcessLocal | android/app/src/main/java/io/omarchy/omasend/repository/ClipboardVault.kt:318-347 | A local text is sent and recorded exactly if it is not blank and its hash is not known |
| HashRing.RingRefinesHistory | android/app/src/main/java/io/omarchy/omasend/repository/ClipboardVault.kt:137-151 | After any history the ring is, in order, the newest 64 entries of the history without repeats, each at its last occurrence |
| HashRing.KnownExactlyWithinCapacity | android/app/src/main/java/io/omarchy/omasend/repository/ClipboardVault.kt:137-158 | A recorded hash is still known if and only if fewer than 64 distinct other hashes were recorded since |
| HashRing.NoEchoWithinCapacity | android/app/src/main/java/io/omarchy/omasend/repository/ClipboardVault.kt:216-220 | In any run, a text received from a peer is sent back by the listener only after at least 64 other distinct hashes |
| ImageEviction.ImageCache.EvictLruCacheIfNeeded | android/app/src/main/java/io/omarchy/omasend/repository/ClipboardVault.kt:85-111 | The loop leaves exactly the specified survivors and removes the thumbnails of exactly the evicted images, deletions failing or not |
| ImageEviction.ShortestOldestPrefixGoes | android/app/src/main/java/io/omarchy/omasend/repository/ClipboardVault.kt:85-111 | If deletions succeed, exactly the shortest oldest prefix goes, so what stays is the longest newest-first run within 20 files and 50 MiB |
| ImageEviction.LimitsHoldOrNothingDeletable | android/app/src/main/java/io/omarchy/omasend/repository/ClipboardVault.kt:94-109 | Whatever deletions fail, afterwards both limits hold or nothing deletable is left |
| ClipStaging.StagingDir.CleanupClipStaging | src/main.rs:1398-1465 | Both loops, over links, old temporary files and files, leave exactly what the specified passes leave, removals failing or not |
| ClipStaging.CleanupLeavesTidy | src/main.rs:1436-1462 | For every directory, apart from what cannot be removed, the survivors are at most 20 and 50 MiB, every surviving thumbnail has a surviving image with its hash, and no link or old temporary file is left |
| ClipStaging.ImageRemovedExactlyForLackOfRoom | src/main.rs:1444-1453 | An image is removed if and only if the files kept before it leave no room and it can be removed |
| ClipStaging.SecondCleanupRemovesNothing | src/main.rs:1398-1465 | If everything can be removed, cleaning up again in the same order removes nothing that has not become an old temporary file, duplicates and deleted thumbnails included |
| Stun.ParseStunResponse | src/rendezvous.rs:792-859 | The offset loop returns what the attribute-by-attribute scan of the body returns, in bounds on any bytes |
| Stun.ScanLoop | src/rendezvous.rs:810-858 | The loop with its offset and fallback refines the recursive scan |
| Stun.ParsingUndoesSerialisation | src/rendezvous.rs:792-859 | For every list of attributes laid out with 4-byte padding, whatever the padding, parsing gives the first IPv4 XOR-MAPPED-ADDRESS un-XORed, else the first IPv4 MAPPED-ADDRESS, else nothing |
| Stun.ReportedAddressIsTheMappedOne | src/rendezvous.rs:816-836 | The address a server puts into an XOR-MAPPED-ADDRESS is the address reported, behind any other attributes |
| Stun.ParseStunBindingResponse | android/app/src/main/java/io/omarchy/omasend/network/WanDiscoveryEngine.kt:193-268 | The loop that moves buffer position and offset apart returns what the two-position scan returns, without reading past the datagram |
| Stun.ParsersAgree | android/app/src/main/java/io/omarchy/omasend/network/WanDiscoveryEngine.kt:210-268 | For every success response with nothing behind the length it gives: both parsers agree if it has no address attribute or the first is an IPv4 XOR-MAPPED one; if the first is an IPv4 MAPPED one, if and only if no XOR-MAPPED one follows or the first that does says the same; and if the first is not IPv4, if and only if the client finds behind it, in spite of its lag, what the engine finds |
| Stun.ClientRefinesScan | android/app/src/main/java/io/omarchy/omasend/network/WanDiscoveryEngine.kt:210-268 | On any buffer, the client with its two diverging positions reads what a plain scan reads in which an address attribute of another family is left early and as many bytes are missing at the end |
| Stun.LoneForeignAddressIsNone | android/app/src/main/java/io/omarchy/omasend/network/WanDiscoveryEngine.kt:217-255 | If the first address attribute is not IPv4 and the last attribute, both report nothing |
| Stun.Ipv6FirstMakesThemDiffer | android/app/src/main/java/io/omarchy/omasend/network/WanDiscoveryEngine.kt:217-255 | With an IPv6 address first the engine reports the IPv4 address behind it and the client reports none |
| Stun.ErrorResponseReadByClientOnly | android/app/src/main/java/io/omarchy/omasend/network/WanDiscoveryEngine.kt:197-199 | The client reads an error response like a success response, and the engine rejects it |
| Stun.ErrorResponseMakesThemDiffer | android/app/src/main/java/io/omarchy/omasend/network/WanDiscoveryEngine.kt:197-199 | An error response from which the client reports an address and the engine none |
| ImageHeader.ValidateImageHeader | src/main.rs:1126-1256 | The verdict on any bytes, with both dimensions of every accepted image in 1..8192 |
| ImageHeader.ScanJpeg | src/main.rs:1166-1210 | The marker loop stays in bounds, ends, and finds what the recursive scan finds |
| ImageHeader.FrameSizeIsReported | src/main.rs:1165-1219 | Any JPEG of plain marker segments followed by a frame header is reported with that frame's width and height, if within the limits |
| ImageHeader.FillBytesAreSkippedExactlyInPairs | src/main.rs:1177-1182 | Behind any segments and any number of fill bytes the frame is found if and only if that number is even, where no other byte starts a marker |
| ImageHeader.PngSizeIsReported | src/main.rs:1145-1163 | A PNG is reported with the big-endian width and height of its IHDR chunk, whatever the chunk length says and whatever follows |
| ImageHeader.LossyWebPSizeIsReported | src/main.rs:1226-1232 | A lossy WebP is reported with the low fourteen bits of its two size fields, whatever their scale bits |
| ImageHeader.LosslessWebPSizeIsReported | src/main.rs:1233-1238 | Unpacking the two 14-bit fields undoes packing sizes less one, whatever the flag bits |
| ImageHeader.ExtendedWebPSizeIsReported | src/main.rs:1239-1244 | An extended WebP is reported with its canvas size, stored less one in 24 bits each |
| ImageHeader.HtmlWindowNeverMatches | src/main.rs:1134-1144 | The HTML pattern never matches, so the pre-check is decided by the other three |
| ImageHeader.HtmlPictureIsAccepted | src/main.rs:1134-1163 | A PNG with `<html` in its first 1024 bytes that is accepted |
| Base64.Base64Encode | src/main.rs:1060-1083 | The chunk loop produces the groupwise encoding |
| Base64.Base64Decode | src/main.rs:1085-1124 | Marker, whitespace, length and character checks, and the groupwise decoding, on any bytes |
| Base64.DecodeUndoesEncode | src/main.rs:1060-1124 | Decoding gives back every byte sequence, with whitespace inserted anywhere in its encoding |
| Base64.DecodeUndoesEncodeBehindPrefix | src/main.rs:1086-1090 | ... and behind any prefix that ends with the first `;base64,` |
| Base64.EncodedIsSpaced | src/main.rs:1060-1124 | The plain round trip, for every byte sequence |
| PercentCoding.UrlEncode | src/main.rs:1946-1956 | The loop over the bytes of a text writes unreserved ones as they are and all others as percent and two upper-case digits |
| PercentCoding.UrlDecode | src/main.rs:5283-5303 | The loop over the bytes of a text decodes percent triples, a plus sign in place of the first digit included, turns plus into space, copies the rest, and makes text of it with every ill-formed piece replaced |
| PercentCoding.DecodeUndoesEncode | src/main.rs:1946-1956 | On bytes, decoding undoes encoding in front of anything |
| PercentCoding.TextRoundTrip | src/main.rs:5283-5303 | Decoding undoes encoding for every text |
| PercentCoding.TripleExactly | src/main.rs:5288-5293 | A percent sign starts a decoded triple if and only if two hexadecimal digits follow, or a plus sign and one |
| PercentCoding.StandardExactlyIfUnsigned | src/main.rs:5288-5293 | The decoder agrees with the standard one on a text if and only if no percent sign in it is followed by a plus sign and a hexadecimal digit |
| PercentCoding.SignedTripleDecodes | src/main.rs:5288-5293 | `%+F` decodes to one byte, which the standard decoder leaves as three |
| Utf8.DecodeUndoesEncode | src/main.rs:5302 | Making text of the bytes of a text gives the text back |
| PercentCoding.EncodedIsQuerySafe | src/main.rs:1946-1956 | An encoded name holds only unreserved bytes and percent signs |
| OmaId.LuhnChecksum | src/rendezvous.rs:59-72 | The loop computes the digit that completes the leading fifteen |
| OmaId.LuhnVerify | src/rendezvous.rs:75-94 | True if and only if there are 16 digits, each at most 9, whose weighted sum is a multiple of ten |
| OmaId.CheckDigitIsTheOnlyOne | src/rendezvous.rs:59-94 | Of the ten digits exactly the computed one completes fifteen digits to a number that verifies |
| OmaId.SingleDigitErrorIsRejected | src/rendezvous.rs:75-94 | Changing any one digit of a valid number makes it invalid |
| OmaId.AdjacentSwapIsRejectedExceptZeroNine | src/rendezvous.rs:75-94 | Swapping two unequal neighbours of a valid number goes unnoticed if and only if they are 0 and 9 |
| OmaId.FormatKeepsIdentity | src/rendezvous.rs:97-125 | Formatting keeps the digits and the verdict and is idempotent, on every text |
| OmaId.KotlinIsValid | android/app/src/main/java/io/omarchy/omasend/crypto/OmaIdentity.kt:57-74 | The client's loop accepts exactly the texts that are 16 decimal digits of any script with a Luhn sum of 0 once hyphens, spaces and outer blanks are removed |
| OmaId.ValidatorsAgreeExactly | android/app/src/main/java/io/omarchy/omasend/crypto/OmaIdentity.kt:57-74 | For every text: if only ASCII digits are left once hyphens, spaces and outer blanks are removed, client and engine give the same verdict, and otherwise they never both accept |
| OmaId.ValidatorsDiffer | android/app/src/main/java/io/omarchy/omasend/crypto/OmaIdentity.kt:57-74 | Sixteen Arabic-Indic zeros pass the client only, a letter before sixteen zeros the engine only |
| OmaId.ValidatorsAgreeOnDigitGroups | android/app/src/main/java/io/omarchy/omasend/crypto/OmaIdentity.kt:57-123 | On digits, spaces and hyphens both validators agree, and both ends print an accepted identifier alike |
| OmaId.GenerateDigits | android/app/src/main/java/io/omarchy/omasend/crypto/OmaIdentity.kt:88-105 | Any fifteen draws are kept and completed by their check digit to a number that verifies |
| OmaId.GenerateRandomOmaId | android/app/src/main/java/io/omarchy/omasend/crypto/OmaIdentity.kt:88-105 | The generated text is in groups, has the draws and their check digit for digits, and passes both validators |
| Envelope.SessionKeyIsSymmetric | src/rendezvous.rs:705-719 | Both ends derive the same key |
| Envelope.SessionKeyIgnoresSpelling | src/rendezvous.rs:705-719 | The key does not depend on how either identifier is formatted |
| Envelope.KeyMaterialIdentifiesThePair | src/rendezvous.rs:706-713 | Two pairs of 16-digit identifiers share key material if and only if they are the same unordered pair |
| Envelope.HexRoundTrip | src/rendezvous.rs:737-764 | Hex decoding undoes hex encoding |
| Envelope.EnvelopeRoundTrip | src/rendezvous.rs:721-771 | Whatever one device seals for another the other opens to the same bytes, for every plaintext and every spelling on either side |
| SpeedCalculator.TransferSpeedCalculator.Update | android/app/src/main/java/io/omarchy/omasend/network/TransferSpeedCalculator.kt:21-72 | Whatever clock and byte count do, a sample is taken after 150 ms or at the end if time has passed and the count has not fallen, the smoothed rate is the mean of the rates sampled, percent is in 0..100 and speed and estimate are not negative |
| SpeedCalculator.SmoothedRateIsBetween | android/app/src/main/java/io/omarchy/omasend/network/TransferSpeedCalculator.kt:31-43 | After any run the smoothed rate lies between the smallest and the largest rate sampled |
| SpeedCalculator.EtaIsTheWholeSeconds | android/app/src/main/java/io/omarchy/omasend/network/TransferSpeedCalculator.kt:52-57 | The estimate is the whole seconds the rest takes at this rate, and at least one |
| SpeedCalculator.PercentNeverDecreasesExactly | android/app/src/main/java/io/omarchy/omasend/network/TransferSpeedCalculator.kt:58-62 | For every 64-bit total: within it, more bytes never lower the percentage, if and only if a hundred times the total is below the 64-bit limit or the total is one of the three largest |
| SpeedCalculator.PercentDropsBeyondTheLimit | android/app/src/main/java/io/omarchy/omasend/network/TransferSpeedCalculator.kt:58-62 | For every other total, a byte count at which one byte more lowers the percentage |
| SpeedCalculator.LargestTotalsShowNothing | android/app/src/main/java/io/omarchy/omasend/network/TransferSpeedCalculator.kt:58-62 | The three largest totals show 0 throughout |
| SpeedCalculator.FinishedShowsHundredExactly | android/app/src/main/java/io/omarchy/omasend/network/TransferSpeedCalculator.kt:58-62 | A finished transfer shows 100 if and only if a hundred times its size is below the 64-bit limit |

## Left out

- PairInterleavings.AtMostTwelveCodesRefused: the four connections per address are built into the steps, as `ConnectionLimiter.EveryInterleavingIsSafe` has it, and a completion in the store is one step, as the file lock has it.
- PairingRuns.CodeComparedAtMostFiveTimes: comparisons whose outcome could not be saved are not bounded, see `PairingRuns.FiveGuessesExactlyIfSaved`.
- Transfer.UploadsConserve: uploads on one token follow one another, as the sender sends them; overlapping uploads read the slot before the other writes it.
- Transfer.Receiver.HandleUpload: the expected digests from query and header take precedence over the approved ones, so a stored file need not match the approved hash; hashing itself is an input, and so are free-disk checks and unique file names.
- Stun.ParsersAgree: responses with more bytes in the datagram than their length field gives are not compared; the engine ignores these bytes and the client reads them.
- ImageHeader.FrameSizeIsReported: fill bytes are covered in pairs, and the markup pre-check is a premise.
- ClipStaging.SecondCleanupRemovesNothing: files with equal times are listed the second time in the order of the first, and removals succeed; modification times can always be read, and sizes do not overflow 64 bits.
- OmaId.KotlinIsValid: upper-casing is a parameter that keeps digits and makes none, and the decimal digits are those of the basic plane in one version of Unicode.
- SpeedCalculator.TransferSpeedCalculator.Update: real numbers instead of doubles, and no overflow outside the percentage.
- HttpReader.Connection.ReadHttpHeaders: of the header text only the content length and the shape of the request line are modelled, not method, path, query and the other headers.
- Staging.EveryInterleavingConserves: stage names are whatever the caller draws, and a rename either fails or moves the file.
- Mutex poisoning: locks are always obtained in the limiter, staging and rate-limiter models.
- Legacy records: runs of the trust store start from an empty file, not from one written by an earlier version.
- Text of addresses: address hints and stored addresses are parsed values, with printing and parsing taken as inverse.
- Random draws, clocks and file failures are inputs of each step; the bias-free drawing of codes is not modelled.
- Hash and cipher internals: key derivation, sealing and opening are parameters, and only opening after sealing is assumed; the anchor and rendezvous records built on the same ciphers are not modelled.
- JSON, routing and the other HTTP endpoints: requests are already parsed values, and only the pairing, transfer and upload handlers are modelled.
- Standard sorting is modelled as one stable sort, and the Android ring's set as a sequence in insertion order.
- The desktop's clipboard echo check is not modelled: its handler writes hash and clipboard in two steps another thread can split.
- Discovery, visibility, the tunnel, NAT keep-alive, notifications, child processes and everything on screen: input and output without a provable core.
- File permissions, owner checks, sandboxing and memory wiping: properties of the operating system.
