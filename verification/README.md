# Verification of the command-authentication protocol

A client (a key paired with a vehicle) sends authenticated commands to the subsystems of a
vehicle. Both endpoints keep state: the client's `Signer` a counter, an epoch and an idea of the
vehicle's clock; the vehicle's `Verifier` a counter, a 64-bit replay window, an epoch and a clock.
The client wraps the Signer in a session, and a dispatcher routes responses to pending requests.
This project models those objects and proves what they promise over whole runs and across the two
endpoints, together with the metadata encoding they authenticate, the Schnorr signatures, the BLE
framing, the proxy's per-VIN lock and the retry loops around them.

`dafny verify dfyconfig.toml` checks everything.

## Layout

| file | contents |
|---|---|
| Primitives, GoTime, Wire | bytes and fixed-width integers; Go's wall/monotonic times; the messages, and the laws assumed of the cryptographic primitives (`Suite.Lawful`, `Codec.Lawful`) |
| ReplayWindow | `updateSlidingWindow` and `SlidingWindow` against the set of accepted counters |
| Metadata, Peer | the tag-length-value encoding, and what each kind of message authenticates |
| VerifierSpec, Verifier, VerifierRuns | the Verifier as functions on its state, as an object that does the same in place, and over all runs |
| SignerSpec, Signer, SignerRuns | the same for the Signer |
| RoundTrips, Synchronisation, Guarantees, Lifetime, Authenticity | both endpoints: round trips, the cross-endpoint clock invariant, resynchronisation, skew and lifetimes, and what is accepted of messages that no Signer need have made |
| Session, SessionRoundTrips, SessionCache, Routing, Dispatcher | session life cycle, what the vehicle reads after failed attempts, cache, routing of responses, the tables of the dispatcher |
| Exchange | a command and its answer, and session info, through both endpoints and the dispatcher |
| Errors, Retry, Duplication | which answers are retried, and how often a command can be executed, without and with copies made by the network |
| VinLock | all interleavings of `lockVIN` and `unlockVIN` |
| BleFraming | sender and incremental reassembler |
| Nonce, Schnorr | section 3.2 of RFC 6979 and section 3.3 of RFC 8235 over an abstract cyclic group |

Each method of an imperative source file is a method that updates the same fields and is proved
equal to a function on the state; the properties are proved about runs of those functions. The
handler table is the exception: its runs are those of the state machine in Routing, and lemmas beside
the dispatcher show that its methods make the steps of that machine. Every
reading of a clock, every draw of random bytes, every error of the connector and every choice of a
`select` is an explicit argument, so the theorems hold for all of them.

## Where the code does not keep a promise

- **Lifetime.** Expiration times are whole seconds, so a message can outlive its requested lifetime, by
  less than a second (`OverrunByRounding`); `StrictLifetimeExactly` says exactly when it cannot. If its
  expiration time comes out as zero there is no limit at all; `LifetimeEnforcedUnlessZero` proves that
  this is the only exception to the one-second promise, `ZeroExpiration` says when it arises, and
  `LifetimeEnforcedInEveryRun` carries the promise over to acceptance by Verify after any run.
- **Counter rollover.** `AuthorizeHMAC` lacks the guard that `Encrypt` has; counters strictly increase
  exactly as long as it is not called on the last counter (`CounterStep`, `RolloverRepeatsPair`).
- **setTime** can go back within an epoch through session info with a short epoch field, and only
  then (`SetTimeStep`, `SetTimeCanGoBack`).
- **Request binding.** The error of adding the request hash is discarded, so a response is not bound
  to a request identifier longer than 255 bytes (`ResponseBindsRequest`). It takes a tag of more than
  254 bytes to make one (`RequestIDFits`).
- **Swallowed error.** `Decrypt` reports an error in computing metadata as success with counter 0; this
  needs a vehicle name over 255 bytes, which `NewSigner` refuses (`DecryptSwallowsNothing`).
- **Timestamps** wrap after 2^32 seconds without a call (`TimestampExact`, `TimestampWraps`).
- **Closed receivers** get nothing more, except a response whose handler had already been looked up
  when they were closed, and exactly then can one still come (`ClosedReceiversGetNothingExactly`,
  `ResponseAfterClose`).
- **A missing Signer.** An encrypted response to a request on a session that has no Signer yet ends in
  a nil dereference; `Dispatcher.Dispatcher.Deliver` says exactly when, and
  `Dispatcher.ResponseBeforeHandshake` gets there. So do LoadCache without a private key and RequestID
  on a short tag without spare capacity (`LoadCache`, `Post`).
- **A stuck session.** For an unknown authentication method authorize returns with the session's lock
  held, exactly if the ready signal is picked before the context ends (`UnknownMethodExactly`,
  `Dispatcher.Dispatcher.AuthorizeFor`); `Dispatcher.UnknownMethodSticks` gets there.
- **An emptied command.** If drawing the nonce fails after the metadata has been checked, the payload is
  already gone; authorize repeats the attempt and then authorises an empty command
  (`RetryEmptiesCommand`). A command arrives as it is if and only if this did not happen
  (`SessionRoundTrips.RoundTripExactly`).
- **Retries under duplication.** A second copy of an accepted message is refused with a fault that
  clients retry, so Vehicle.Send authorises the command again and it is accepted twice
  (`CopyExecutesTwice`). `RefusedExactly` says when the vehicle refuses so. Only copies can do this: with
  truthful answers, one copy of a retried message was accepted and another refused
  (`OnlyCopiesExecuteTwice`, `HonestExactly`); without copies a call is accepted at most once
  (`AtMostOneAcceptance`).
- **Old cache entries.** Loading an entry that was saved before later authorisations takes the counter
  back and repeats (epoch, counter) pairs (`OldEntryRepeatsPair`, `LoadedCounterIsNewer`); the vehicle
  accepts none of them twice.
- **Status ERROR without a fault** counts as success (`AnswersThatAreSuccess`).
- **BLE.** A list of messages survives every cutting of its frames if and only if none is longer than
  1024 bytes (`BleFraming.RoundTripExactly`); the sender does not check this, and its two-byte header
  wraps. After any header that announces more, the receiver's state depends on the cutting if and only if
  anything follows (`OversizedHeaderDependsOnChunks`).

## Model

| member | source | states |
|---|---|---|
| ReplayWindow.UpdateKeepsTracking | internal/authentication/window.go:9-50 | one call accepts a counter iff it was not used and is at most 32 below every used counter, and the bitmap then describes the enlarged set, for every jump including shifts of 64 or more; on rejection counter and bitmap are unchanged |
| ReplayWindow.SlidingWindow.Update | internal/authentication/window.go:52-68 | the struct keeps describing its set of accepted counters, accepts exactly the fresh ones, and is unchanged on rejection |
| ReplayWindow.WindowExact | internal/authentication/window.go:52-68 | after any sequence of calls the next decision equals that of a reference that remembers every accepted counter |
| ReplayWindow.AcceptedOnce | internal/authentication/window.go:52-68 | no counter is accepted twice in one run |
| ReplayWindow.StaleBitsIrrelevant | internal/authentication/window.go:9-50 | bits that stand for no counter never influence a decision, now or later |
| Tlv.EncodingInjective | internal/authentication/metadata.go:34-84 | equal authenticated byte strings come from equal field lists and equal trailing messages |
| Tlv.Metadata.Add | internal/authentication/metadata.go:34-50 | a nil value adds nothing; tags out of order and values over 255 bytes are refused and change nothing; otherwise the field is appended to the encoding |
| Tlv.Metadata.AddUint32 | internal/authentication/metadata.go:52-56 | appends the four big-endian bytes of the value; the only possible error is the tag order |
| Tlv.Metadata.Checksum | internal/authentication/metadata.go:80-84 | the hashed string is the encoding of all fields, the end marker and the message |
| Peer.ExtractMetadata | internal/authentication/peer.go:34-71 | the object filled step by step holds exactly the fields of the request, each error arises in its case, and none of the ignored errors of Add can occur |
| Peer.RequestPreimageInjective | internal/authentication/peer.go:34-80 | the hashed string determines signature type, domain, verifier name (nil or not), epoch, expiry, counter, flags (written only if nonzero) and payload |
| Peer.ComputeHmacTag | internal/authentication/peer.go:74-80 | the object-based computation yields the MAC of the terminated request fields, or the error of extractMetadata |
| Peer.ComputeSessionInfoHmac | internal/authentication/native.go:76-88 | the object-based computation yields the MAC of the terminated fields, a nil name or challenge writing none, or the error of a field that is too long |
| Peer.SessionInfoPreimageInjective | internal/authentication/native.go:76-88 | the hashed string of session info determines vehicle name and challenge, each nil or not, and encoded info |
| Peer.ComputeResponseData | internal/authentication/peer.go:105-117 | the object-based computation yields the digest of the response fields, with the request hash left out if it does not fit |
| Peer.ResponseBindsRequest | internal/authentication/peer.go:105-117 | two request identifiers authenticate alike iff they are equal or neither is encoded |
| Peer.RequestIDFits | internal/authentication/peer.go:82-103 | the identifier of an authorised request is encoded iff its tag has at most 254 bytes or is cut to 16 |
| Peer.RequestIDParts | internal/authentication/peer.go:82-103 | the identifier is one byte for the method and the tag, which for a VCSEC HMAC is cut to 16 bytes; other requests have none |
| Peer.ResponsePreimageInjective | internal/authentication/peer.go:105-117 | the hashed string determines domain, name, counter, flags, encoded request hash and fault |
| Verifier.Verifier.NewVerifier | internal/authentication/verifier.go:28-50 | a Verifier in a fresh epoch, or the error of the first failing step |
| Verifier.Verifier.RotateEpochIfNeeded | internal/authentication/verifier.go:63-73 | the whole new state, including the last counter and a partly overwritten epoch when the random source fails |
| Verifier.Verifier.AdjustClock | internal/authentication/verifier.go:147-185 | the whole new state for every combination of wall and monotonic clock; every exit goes through rotation |
| Verifier.Verifier.GetSignedSessionInfo | internal/authentication/verifier.go:81-122 | session info after one clock adjustment, its tag, and the state left behind |
| Verifier.Verifier.SignatureError | internal/authentication/verifier.go:52-61 | the error that carries signed session info, or an internal error |
| Verifier.Verifier.VerifySessionInfo | internal/authentication/verifier.go:264-297 | the checks in the source's order, with the wrapped 32-bit difference |
| Verifier.Verifier.Verify | internal/authentication/verifier.go:189-262 | result and whole new state equal the composition of clock adjustment, judgement and counter use |
| Verifier.Verifier.Encrypt | internal/authentication/verifier.go:303-328 | the encrypted response or the error, with no change of state |
| Authenticity.VerifyExactly | internal/authentication/verifier.go:189-297 | for any message at all: Verify accepts it iff it is authentic, for this domain and epoch, in time and not used before, and returns its content; authentic means that the HMAC tag is the MAC of the metadata and payload, or that the ciphertext opens under the metadata |
| Authenticity.AcceptedInRunIsAuthentic | internal/authentication/verifier.go:227-262 | in every run, every accepted message is authentic under the Verifier's own key, name and epoch in force |
| Authenticity.OneTagAccepted | internal/authentication/verifier.go:257-259 | of two messages that differ in their HMAC tag only, at most one is accepted |
| Authenticity.AlteredHmacRefused | internal/authentication/verifier.go:247-262 | a tag accepted twice, in whatever states, belongs to one payload, domain, flags, counter, expiry, name and epoch, if the MAC separates the strings |
| Authenticity.AlteredGcmRefused | internal/authentication/verifier.go:227-245 | the same for the metadata of a ciphertext, if digests and GCM bind it |
| Authenticity.ForgeryChangesNothing | internal/authentication/verifier.go:189-225 | a message that is not authentic is refused and uses up no counter |
| Authenticity.FaultExactly | internal/authentication/verifier.go:264-297 | which fault a rejection with session info reports: the first cause in the source's order |
| Authenticity.RefusalExactly | internal/authentication/verifier.go:189-245 | which error is returned without session info |
| Authenticity.FailedDrawIsInternal | internal/authentication/verifier.go:189-193 | after a failed draw every call reports an internal fault |
| Authenticity.RejectionsAreRetried | pkg/protocol/error.go:200-220 | a client that is told the fault tries again iff an expiration time beyond the epoch is not the only cause |
| Authenticity.EncryptResponseExactly | internal/authentication/verifier.go:303-328 | a response is encrypted iff the name is short enough and a nonce can be drawn |
| VerifierRuns.VerifyEffect | internal/authentication/verifier.go:189-225 | Verify changes state only by one clock adjustment and then a window update or a second adjustment made to report an error |
| VerifierRuns.AdjustEffect | internal/authentication/verifier.go:63-73 | the three outcomes of an adjustment: failed draw, new epoch, same epoch |
| VerifierRuns.EpochsEnd | internal/authentication/verifier.go:147-185 | a wall clock that goes back or ahead by more than a year, or an exhausted counter, starts a new epoch; one that goes on is at most 2^30 seconds old |
| VerifierRuns.UndisturbedClock | internal/authentication/verifier.go:147-185 | nothing changes while the clocks agree to a second and the epoch is young enough |
| VerifierRuns.NewVerifierStartsRun | internal/authentication/verifier.go:28-50 | a Verifier exists iff the exchange succeeds, the name is short and random bytes can be drawn, and is then at the start of its own epoch |
| VerifierRuns.HistoryInvariant | internal/authentication/verifier.go:189-225 | in every run counter and window describe exactly the counters accepted in the current epoch |
| VerifierRuns.AtMostOnce | internal/authentication/verifier.go:189-225 | over every run of messages, info requests, clock jumps and rotations with fresh epoch identifiers, no (epoch, counter) pair with a nonzero counter is accepted twice |
| VerifierRuns.CopiesAcceptedOnce | internal/authentication/verifier.go:189-225 | however often the network duplicates, delays and reorders a message with an epoch and a nonzero counter, at most one copy is accepted in any run |
| VerifierRuns.CounterIsLargestAccepted | internal/authentication/verifier.go:189-225 | within an epoch the counter is the largest accepted one, or 0, up to and including the last counter; only the state after a failed draw is excluded |
| VerifierRuns.RotationNeedsNoClearing | internal/authentication/verifier.go:63-73 | after rotation every answer in every later run equals that of a Verifier with any other window, such as a cleared one |
| VerifierRuns.TimestampExact | internal/authentication/peer.go:29-31 | a timestamp is the whole seconds elapsed iff these fit into 32 bits |
| GoTime.AfterIsPositive | internal/dispatcher/receiver.go:55-57 | a time is after another iff the difference is positive, wall or monotonic |
| VerifierRuns.ClockNeverRunsBackwards | internal/authentication/verifier.go:147-185 | within an epoch an adjustment never lowers a later timestamp, whatever the wall clock does |
| VerifierRuns.AdjustmentCatchesUp | internal/authentication/verifier.go:147-185 | after an adjustment that keeps the epoch the clock is at most a second behind the wall clock |
| VerifierRuns.TimestampWraps | internal/authentication/peer.go:29-31 | the input on which a timestamp starts again at zero |
| VerifierRuns.FailClosed | internal/authentication/verifier.go:63-73 | after a failed rotation no message verifies and no session info is issued, in an error or otherwise, until a draw succeeds |
| Signer.Signer.NewSigner | internal/authentication/signer.go:25-46 | the new Signer's whole state, or the error |
| Signer.Signer.ImportSessionInfo | internal/authentication/signer.go:71-82 | the same, with the clock set from the time at which the info was generated |
| Signer.Signer.NewAuthenticatedSigner | internal/authentication/signer.go:49-62 | a Signer only if the tag of the session info is right |
| Authenticity.HandshakeSucceeds | internal/authentication/signer.go:49-62 | what a vehicle signs makes a Signer with its epoch, counter, key and time, for every lawful client key that leads to the same session key |
| Authenticity.HandshakeThenAccepted | internal/authentication/signer.go:49-62 | the first message of that Signer, GCM or HMAC, is accepted with its payload if it arrives in time and neither other messages nor a rotation intervene |
| Authenticity.HandshakeIsAuthentic | internal/authentication/signer.go:54-60 | a Signer is made only of info whose tag is the MAC of exactly this name, challenge and info, under the session key that the info's own key leads to |
| Authenticity.OneHandshakeTag | internal/authentication/signer.go:58-60 | of all tags for one info and challenge at most one makes a Signer |
| Authenticity.HandshakeFault | internal/authentication/signer.go:49-82 | why a handshake fails: the first cause in the source's order |
| Authenticity.SigningExactly | internal/authentication/verifier.go:103-122 | a vehicle signs session info iff it has an epoch and the fields fit, and which tag it then makes |
| Authenticity.IssuedInfoSays | internal/authentication/verifier.go:81-93 | signed info decodes to the Verifier's counter, epoch, key, handle and time |
| Signer.Signer.UpdateSessionInfo | internal/authentication/signer.go:99-112 | the whole new state: nothing changes for another key or for older info of the same epoch; the counter never goes down |
| SignerSpec.CopyIntoExactly | internal/authentication/signer.go:99-112 | a short epoch field overwrites only the bytes it has |
| Signer.Signer.UpdateSignedSessionInfo | internal/authentication/signer.go:117-130 | the same after checking the tag; nothing changes on an error |
| Authenticity.ResyncIsAuthentic | internal/authentication/signer.go:117-130 | info is taken notice of iff its tag is right for this challenge, it decodes and is about the same key; otherwise nothing changes and the first cause is reported |
| Authenticity.ReplayedInfoRefused | internal/authentication/signer.go:117-124 | a tag is good for one challenge and one info, if the MAC separates the strings |
| Authenticity.HelloTakesEffect | internal/dispatcher/session.go:117-136 | signed info of the paired vehicle makes a Signer where there is none and updates the one there is |
| Signer.Signer.Encrypt | internal/authentication/signer.go:132-176 | message, error and counter, including what an early error leaves in the message |
| Authenticity.EncryptExactly | internal/authentication/signer.go:132-176 | Encrypt succeeds iff the counter is not exhausted, the command's metadata can be written and a nonce can be drawn; otherwise the first cause is reported |
| Signer.Signer.AuthorizeHmac | internal/authentication/signer.go:187-213 | message, error and counter, which wraps to 0 |
| Authenticity.AuthorizeHmacExactly | internal/authentication/signer.go:187-213 | AuthorizeHMAC succeeds iff the metadata can be written |
| Signer.Signer.Decrypt | internal/authentication/signer.go:219-242 | the decrypted message and its counter, or the error; a metadata error is reported as success with counter 0 |
| Authenticity.ResponseIsAuthentic | internal/authentication/signer.go:219-242 | a response is delivered iff it opens under its metadata and the identifier of the request; otherwise the message is untouched |
| Authenticity.ResponseToOneRequest | internal/authentication/signer.go:219-242 | a response decrypts under one request identifier only, if digests and GCM bind the metadata |
| Authenticity.ExportSays | internal/authentication/signer.go:86-94 | a Signer in step with a vehicle exports the info that the vehicle would issue |
| SignerRuns.CounterStep | internal/authentication/signer.go:170-194 | one operation keeps the counter from going down, and issues a larger one than before, iff it is not a rollover |
| SignerRuns.IssuedCountersIncrease | internal/authentication/signer.go:99-194 | over any interleaving of Encrypt, AuthorizeHMAC and UpdateSessionInfo without rollover, epoch changes included, issued counters strictly increase |
| SignerRuns.RolloverRepeatsPair | internal/authentication/signer.go:187-194 | without the guard the same (epoch, counter) pair is issued twice, after session info that a vehicle can issue |
| SignerRuns.PeerKeyFixed | internal/authentication/signer.go:99-112 | the verifier's key never changes |
| SignerRuns.SetTimeStep | internal/authentication/signer.go:99-112 | setTime is kept from going back iff the info is foreign, not older, or carries a whole epoch identifier |
| SignerRuns.SetTimeCanGoBack | internal/authentication/signer.go:99-112 | the input on which it goes back |
| SignerRuns.SetTimeNondecreasing | internal/authentication/signer.go:99-112 | setTime is nondecreasing over every run that stays in one epoch |
| RoundTrips.GcmRoundTrip | internal/authentication/signer.go:132-176 | a message that Encrypt seals verifies iff domain, epoch, expiry and counter conditions hold, and then to the original payload |
| RoundTrips.HmacRoundTrip | internal/authentication/signer.go:187-213 | the same for AuthorizeHMAC, also on the counter that wraps to zero |
| RoundTrips.ResponseRoundTrip | internal/authentication/verifier.go:303-328 | Signer.Decrypt restores payload and counter of what Verifier.Encrypt produces under the same request identifier |
| RoundTrips.DecryptSwallowsNothing | internal/authentication/signer.go:219-242 | an undecrypted message is reported as success iff the vehicle name exceeds 255 bytes |
| RoundTrips.NewSignerBoundsName | internal/authentication/signer.go:25-46 | which no Signer that NewSigner makes has |
| Synchronisation.ClocksStayInOrder | internal/authentication/signer.go:99-112 | over every joint run with delayed, repeated and reordered session info, and cache entries loaded at any time after they were saved: in a shared epoch setTime is at most the vehicle's time and the epoch start of the Signer, and of every saved one, is not before the vehicle's |
| Synchronisation.HandshakeInOrder | internal/authentication/signer.go:49-82 | the Signer that NewAuthenticatedSigner makes of issued session info establishes that invariant |
| Synchronisation.ReloadIsImport | internal/authentication/signer.go:71-94 | import after export restores the whole Signer except for the clock, which follows the stored time |
| Synchronisation.LoadedCounterIsNewer | internal/dispatcher/dispatcher.go:516-536 | a loaded entry issues counters above the replaced Signer's iff its own is not below |
| Synchronisation.OldEntryRepeatsPair | internal/dispatcher/dispatcher.go:516-536 | saving, authorising, loading and authorising issues the same (epoch, counter) pair twice |
| Guarantees.RejectionResyncs | internal/authentication/signer.go:99-130 | the session info in any Verifier error is adopted by the Signer from every reachable pair of states and brings it to the Verifier's epoch and counter |
| Guarantees.ResyncInOneRoundTrip | internal/authentication/verifier.go:52-61 | the Signer's next message, GCM or HMAC, is then accepted with its payload if its lifetime covers latency, transit and one second and neither other messages nor a rotation intervene; the vehicle's clock may be adjusted |
| Guarantees.SkewBound | internal/dispatcher/dispatcher.go:198-201 | session info that a Signer adopts in time puts its epoch start at or after the vehicle's and less than latency + 1 s + processing delay after it |
| Guarantees.HandshakeSkewBound | internal/dispatcher/session.go:122-126 | the same for the Signer that a handshake creates, which also has the vehicle's epoch, counter and key |
| Guarantees.CacheCyclesBoundSkew | internal/dispatcher/dispatcher.go:492-536 | n cycles of saving and loading keep the lower bound and add less than n seconds plus the save delays |
| Lifetime.LifetimeEnforcedInEveryRun | internal/authentication/verifier.go:189-225 | whatever happens between authorisation, by Encrypt or AuthorizeHMAC, and arrival, if Verify accepts the message it does so less than a second after its lifetime, or its expiration time is zero |
| Lifetime.SenderStaysInOrder | internal/authentication/signer.go:99-112 | the Signer that authorised a message stays in order with the vehicle over every run, although the session has moved on |
| Lifetime.LifetimeEnforced | internal/authentication/verifier.go:276-283 | the checks of a vehicle in order with the Signer refuse a message with a nonzero expiration time a second or more after its lifetime |
| Lifetime.StrictLifetimeExactly | internal/authentication/verifier.go:276-283 | a message never outlives its lifetime at all iff it expires outside the epoch, or the fraction of a second cut off and the Signer's lag make up for the rounding |
| Lifetime.LifetimeEnforcedUnlessZero | internal/authentication/verifier.go:276-283 | the one-second promise holds at every instant iff the expiration time is nonzero |
| Lifetime.ZeroExpiration | internal/authentication/signer.go:132-165 | the expiration time is zero iff the message is to expire within a second of the epoch's start |
| Lifetime.OverrunByRounding | internal/authentication/verifier.go:276-283 | an input on which a message is accepted almost a second late |
| Session.Session.ProcessHello | internal/dispatcher/session.go:117-136 | signer present, ready and signal closed stay equivalent, the signal is closed once, a failed hello changes nothing, and a Signer is never lost |
| Session.Session.FromCache | internal/dispatcher/dispatcher.go:518-529 | a session from a cache entry is valid iff the import succeeds |
| Session.Session.Authorize | internal/dispatcher/session.go:61-98 | the loop equals its recursive specification for every script of selects, failures and session info arriving in between; the session never becomes unready; the lock is left held exactly for an unknown method |
| Session.UnknownMethodExactly | internal/dispatcher/session.go:67-86 | the lock stays held iff the method is unknown and some pass picks the ready signal with a Signer present before one ends the context; for a session with a Signer this is the first pass |
| Session.UnauthenticatedPasses | internal/dispatcher/session.go:76-77 | without authentication the message passes unchanged and no counter is used |
| Session.AuthorizedCounterIsNew | internal/dispatcher/session.go:61-98 | whatever fails or arrives in between, authorize never lowers the counter, and an authorised message carries the Signer's latest epoch and counter, the latter larger than every earlier one |
| SessionRoundTrips.AuthorizedPayload | internal/dispatcher/session.go:61-98 | for every script of failed attempts and session info, what Verify accepts is the original payload, or the empty one if a repeated attempt lost it |
| SessionRoundTrips.RoundTripExactly | internal/authentication/signer.go:156-164 | a nonempty command arrives as it is iff no repeated attempt failed to draw its nonce after the other checks |
| SessionRoundTrips.RetryEmptiesCommand | internal/authentication/signer.go:156-164 | for every command and session, the script after which the vehicle passes the empty command |
| Session.Session.Decrypt | internal/dispatcher/session.go:48-59 | decrypts, then applies the request's sliding window to the response counter |
| SessionCache.CacheRoundTrip | internal/dispatcher/dispatcher.go:492-536 | loading what was cached for a list of domains, in memory or stored, restores exactly those of them that had a Signer, with counter, epoch and keys |
| SessionCache.StoreIsCache | internal/dispatcher/session.go:20-24 | stored entries are those of a clock without monotonic readings |
| Dispatcher.Dispatcher.CacheRestoresEverySession | internal/dispatcher/dispatcher.go:492-536 | what Cache returns for the whole table always loads, and brings back every session that had a Signer and no other |
| SessionCache.OneBadEntrySpoilsAll | internal/dispatcher/dispatcher.go:516-536 | loading succeeds iff every entry can be imported |
| Routing.RoutedByRequest | internal/dispatcher/dispatcher.go:245-290 | a message is looked up under a request's key iff it comes from its domain to its return address and, except for VCSEC, names its UUID |
| Routing.DistinctKeys | internal/dispatcher/dispatcher.go:385-413 | two requests have different keys iff their random draws tell them apart |
| Routing.RoutingIsExact | internal/dispatcher/dispatcher.go:158-180 | in every run no live handler is overwritten or lost, a message finds a handler iff that request is live and the message answers it, and everything delivered answers its request |
| Dispatcher.CreateHandlerIsOpen | internal/dispatcher/dispatcher.go:158-174 | the change CreateHandler makes to the table is the step Open of that state machine |
| Dispatcher.CloseHandlerIsClose | internal/dispatcher/dispatcher.go:176-180 | the change CloseHandler makes is the step Close |
| Dispatcher.LookupIsArrive | internal/dispatcher/dispatcher.go:286-294 | what Lookup finds is what the step Arrive finds |
| Routing.ClosedReceiversGetNothing | internal/dispatcher/dispatcher.go:176-180 | a closed receiver for which no message is on its way gets nothing in any continuation |
| Routing.ClosedReceiversGetNothingExactly | internal/dispatcher/dispatcher.go:286-313 | a closed receiver gets nothing more in any continuation iff no message had been looked up for it |
| Routing.ResponseAfterClose | internal/dispatcher/dispatcher.go:286-313 | the run in which a looked-up response arrives after Close |
| Dispatcher.Receiver.Enqueue | internal/dispatcher/dispatcher.go:310-314 | appends if there is room; encrypted responses ever queued on one receiver keep pairwise distinct counters |
| Dispatcher.Dispatcher.CreateHandler | internal/dispatcher/dispatcher.go:158-174 | registers an unused receiver under its key and changes no other entry |
| Dispatcher.Dispatcher.CloseHandler | internal/dispatcher/receiver.go:47-51 | removes exactly the entry of the receiver's key |
| Dispatcher.Dispatcher.AuthorizeFor | internal/dispatcher/dispatcher.go:415-431 | authorises iff the domain's session is ready and some attempt succeeds; no other session changes; exactly this session is left locked iff it is ready, the method is unknown and the first select picks the signal |
| Dispatcher.UnknownMethodSticks | internal/dispatcher/session.go:73-83 | for every message and loadable session, the steps that leave the session locked |
| Dispatcher.Dispatcher.Send | internal/dispatcher/dispatcher.go:379-461 | exactly when the caller gets a receiver, which message is handed to the connector, and that the receiver holds the key and the request identifier of that message; the handler is in the table exactly then, unless marshalling fails; which error is returned |
| Dispatcher.Dispatcher.Lookup | internal/dispatcher/dispatcher.go:245-294 | finds the handler registered under the message's key, if any |
| Dispatcher.Dispatcher.CheckForSessionUpdate | internal/dispatcher/dispatcher.go:182-224 | only the session of the request's domain can change, only within the latency bound and with a tag, and no session becomes unready |
| Dispatcher.Dispatcher.Decrypt | internal/dispatcher/dispatcher.go:226-243 | a no-op for plaintext; otherwise fresh, replayed, undecryptable or a crash, each in exactly its case |
| Dispatcher.Dispatcher.Deliver | internal/dispatcher/dispatcher.go:301-314 | queued, full, replayed, undecryptable or crashed, each in exactly its case, and what is queued |
| Exchange.DeliverAnswer | internal/dispatcher/dispatcher.go:245-315 | an answer the vehicle encrypts under a pending request's identifier is looked up to its receiver and queued with payload and counter, iff the counter is fresh and there is room |
| Exchange.CommandAndAnswer | internal/dispatcher/dispatcher.go:379-461 | for every authorised command Send hands over, with its UUID and return address, the answer under its identifier is the first thing the receiver gets |
| Exchange.HelloThroughDispatcher | internal/dispatcher/dispatcher.go:182-224 | session info signed for the UUID of the request it answers takes effect |
| Exchange.ConsideredHelloBoundsSkew | internal/dispatcher/dispatcher.go:198-201 | whatever the dispatcher lets through bounds the new Signer's clock by the latency limit |
| Dispatcher.ResponseBeforeHandshake | internal/dispatcher/session.go:48-54 | for every request and encrypted answer, the steps that reach that crash |
| Dispatcher.Dispatcher.Cache | internal/dispatcher/dispatcher.go:492-512 | for any range over the table, the entries of the sessions that have a Signer |
| Dispatcher.Dispatcher.LoadCache | internal/dispatcher/dispatcher.go:516-536 | all entries are loaded into ready sessions, or the table stays as it is; without a private key it crashes iff the first entry decodes |
| Dispatcher.Dispatcher.Await | internal/dispatcher/dispatcher.go:103-124 | what the two selects decide, in each case, and what the session has heard by then |
| Dispatcher.Dispatcher.TryStartSession | internal/dispatcher/dispatcher.go:96-125 | what a pass returns: an error if the request does not get out, otherwise what the selects decide; the request's handler is removed again |
| Dispatcher.Dispatcher.StartSession | internal/dispatcher/dispatcher.go:73-94 | for every script of replies, timeouts, session info for any domain and cache loads: success iff the session was ready at the start or the last pass got its request out and its last select picks the ready signal while the session is ready, and then there is a usable Signer; passes before it decided nothing; that session is still in the table unless a cache load replaced it; no handler is left behind |
| Errors.AnswersThatAreRetried | pkg/protocol/error.go:123-264 | an answer is retried iff its fault is on the list, or there is no fault and the status is WAIT |
| Errors.AnswersThatAreSuccess | pkg/protocol/error.go:231-264 | an answer is a success iff it has no fault, no bad session info, and the status OK or ERROR |
| Errors.RetriedFaultNumbers | pkg/protocol/error.go:195-220 | the retried faults by number, and the one that admits success |
| Errors.NominalFollowsDetails | pkg/protocol/error.go:144-158 | a wrapped error is classified as the error it wraps |
| Retry.TransmitLoop | internal/dispatcher/dispatcher.go:444-460 | the loop equals its recursive specification |
| Retry.SendLoop | pkg/vehicle/vehicle.go:201-257 | the loop of attempts, each authorised on the session's Signer, equals its recursive specification |
| Retry.TransmitReports | internal/dispatcher/dispatcher.go:444-460 | the transmissions report no error iff the last one had none; otherwise the connector's final error or the context's |
| Retry.AuthoriseReports | internal/dispatcher/dispatcher.go:415-431 | why no message gets to the connector: refused, no session, or the context |
| Retry.TryReports | pkg/vehicle/vehicle.go:201-214 | an attempt reports success iff its message was taken by the connector and answered with success; otherwise the error of the step that failed |
| Retry.SuccessExactly | pkg/vehicle/vehicle.go:236-257 | a call reports success iff the last attempt's message was taken by the connector and its answer has no fault, no bad session info and the status OK or ERROR |
| Retry.SendReports | pkg/vehicle/vehicle.go:236-257 | which error is reported otherwise: that of the last attempt, or the context's in place of a retriable one |
| Retry.AttemptsMade | pkg/vehicle/vehicle.go:236-257 | attempts are made as long as they fail with a retriable error and the context lasts |
| Exchange.SentCarriesCommand | pkg/vehicle/vehicle.go:181-199 | what a vehicle accepts of a call is its payload, or the empty one if authorize lost it, with its domain, flags, UUID and return address |
| Retry.AtMostOneExecution | pkg/vehicle/vehicle.go:201-257 | with an honest connector and vehicle one call executes the command at most once, over any number of attempts and transmissions |
| VerifierRuns.RefusedExactly | internal/authentication/verifier.go:215-224 | in any run, a message that passes every other check is refused iff its counter was accepted before in the epoch or lies more than 32 below one that was; a reported fault is then INVALID_TOKEN_OR_COUNTER |
| Duplication.AtMostOneAcceptance | pkg/vehicle/vehicle.go:201-257 | if retriable answers come from vehicles that refused the message or never got it, and no message is delivered twice, a vehicle in any run accepts at most one message of one call, over any number of attempts, delays and reorderings |
| Duplication.OnlyCopiesExecuteTwice | pkg/vehicle/vehicle.go:236-257 | if with such answers two messages of one call are accepted, then a retried message was accepted in one copy and refused in another |
| Duplication.HonestExactly | pkg/protocol/error.go:106-136 | with such answers, no retried message was accepted iff none was accepted in one copy and refused in another |
| Duplication.CopyExecutesTwice | internal/authentication/verifier.go:215-224 | for every command and every pair of peers in step with quiet clocks, the run with one duplicated message in which the vehicle accepts the command twice although each answer is true of the copy it answers |
| Retry.ErrorsTellTheTruth | pkg/protocol/error.go:106-136 | an error that excludes success means that nothing was executed |
| Retry.DishonestConnectorExecutesTwice | internal/dispatcher/dispatcher.go:444-460 | the connector's promise is needed |
| Retry.FreshCounters | pkg/vehicle/vehicle.go:236-257 | the messages one call hands to the connector carry strictly increasing counters, above the session's at the start, with failures, session info and other commands of the client in between |
| VinLock.StepKeepsInv | pkg/proxy/proxy.go:113-139 | every step of every goroutine keeps map, channels and phases consistent |
| VinLock.MutualExclusion | pkg/proxy/proxy.go:451-455 | in every interleaving at most one call holds each VIN, no channel is closed twice and the panic is unreachable |
| VinLock.MapSizeIsNumberOfOwners | pkg/proxy/proxy.go:113-139 | the map has one entry for each holder that has not yet deleted its own |
| VinLock.ReleaseCannotBeBlocked | pkg/proxy/proxy.go:131-139 | over every continuation by other calls, a holder still owes its close, its remaining steps stay possible, and making them closes its channel |
| VinLock.NoLostWakeUp | pkg/proxy/proxy.go:113-139 | a call blocked on a channel can proceed, or waits for a call that still has to close it and enables it by doing so, whatever other calls do before |
| VinLock.TimedOutExactly | pkg/proxy/proxy.go:113-129 | in every run a call has failed iff its own context ended while it waited |
| VinLock.TryStoreWaitsOrHolds | pkg/proxy/proxy.go:115-128 | a call that finds the mutex taken waits for its owner, and one that finds it free has it |
| VinLock.BlockedThenServed | pkg/proxy/proxy.go:113-139 | in every reachable state, a call that finds the mutex taken waits on its owner's channel, can time out, and after the owner's remaining steps its own receive and retry end in holding the mutex, if nobody stores in between |
| VinLock.CanAlwaysAcquire | pkg/proxy/proxy.go:113-139 | in every reachable state, a call that is still trying can get the mutex by release steps of others and its own steps |
| BleFraming.Connection.Flush | pkg/connector/ble/ble.go:74-94 | delivers one complete frame, drops an oversized buffer, or does nothing |
| BleFraming.Connection.Rx | pkg/connector/ble/ble.go:105-113 | a timeout clears the buffer; then frames are delivered until none is complete; terminates |
| BleFraming.Connection.Send | pkg/connector/ble/ble.go:115-134 | the blocks written are full except for the last, and concatenate to the frame, or to a proper beginning of it exactly if a write fails; terminates |
| BleFraming.ReassemblyExact | pkg/connector/ble/ble.go:74-113 | for any cutting of the beginning of a frame stream, exactly the complete messages are delivered in order and exactly the partial frame is kept |
| BleFraming.RoundTrip | pkg/connector/ble/ble.go:74-134 | any cutting of the frames of a message list delivers that list |
| BleFraming.RoundTripExactly | pkg/connector/ble/ble.go:74-134 | every cutting of the frames of a list delivers that list iff no message exceeds 1024 bytes, lengths whose header wraps included |
| BleFraming.OversizedHeaderDependsOnChunks | pkg/connector/ble/ble.go:74-94 | after any messages, any header over the limit and any rest of the stream, the receiver's state depends on the cutting iff there is a rest |
| BleFraming.InboxGetsWhatFits | pkg/connector/ble/ble.go:74-113 | for any capacity and cutting, an inbox nobody reads gets exactly the first messages that fit, in order |
| BleFraming.ReadersGetMessages | pkg/connector/ble/ble.go:70-113 | for any capacity, cutting and interleaved reads, what is delivered is a sublist of the messages in order, and exactly the complete ones if the inbox is never full after a call of rx |
| Nonce.DeterministicNonce | internal/schnorr/sign.go:14-98 | the result is the first candidate in [1, q-1] of the K/V sequence of section 3.2 of RFC 6979 |
| Nonce.FirstInRangeUnique | internal/schnorr/sign.go:14-98 | which determines it |
| Nonce.IsHmacDrbg | internal/schnorr/sign.go:14-98 | the sequence is that of HMAC_DRBG (section 10.1.2 of NIST SP 800-90A), seeded with the private key and the reduced hash |
| Nonce.OctetsReduce | internal/schnorr/sign.go:14-98 | the reduced hash keeps the value modulo the order, in 32 bytes |
| Schnorr.Sign | internal/schnorr/sign.go:100-145 | the signature for the deterministic nonce, and Verify accepts it |
| Schnorr.Verify | internal/schnorr/schnorr.go:64-84 | accepts iff cA + rG has the coordinates in the signature, with c unreduced |
| Schnorr.Challenge | internal/schnorr/schnorr.go:49-62 | the digest of four length-prefixed parts |
| Schnorr.PreimageInjective | internal/schnorr/schnorr.go:49-62 | those parts can be read back, a message of any length included, if the three before it are shorter than 2^32 bytes |
| Schnorr.ChallengeBinds | internal/schnorr/schnorr.go:64-84 | what Verify hashes for a well-formed key and signature determines commitment, key and message, without any bound |
| Schnorr.AcceptsExactlyTheResponse | internal/schnorr/schnorr.go:64-84 | for a key aG and a commitment vG the verifier accepts r iff r = v - ac modulo the order |
| Schnorr.AcceptedHasForm | internal/schnorr/schnorr.go:64-84 | whatever is accepted, the key is an encoded point A, the signature has 96 bytes, and it begins with the coordinates of rG + cA |
| Schnorr.SignaturesVerify | internal/schnorr/sign.go:100-145 | completeness: every signature verifies, for every key, nonce and message |

## Left out

- AES-GCM, HMAC, SHA-256, key agreement and P-256 are functions about which only round-trip and group laws are assumed; no computational hardness is modelled.
- Protobuf and JSON: `unmarshal(marshal(i))` gives `i` back, and marshalling session info does not fail; only the fields the modelled code reads are kept.
- The replay bitmap is an integer below 2^64 with Go's shifts and or defined on it, not a bit-vector.
- Go drops the monotonic reading outside the years 1885 to 2157 and limits the range of times; the model has neither limit, but saturates durations as Go does.
- Messages are values: an operation that rewrites its message in the source returns the rewritten one, also when it fails; aliasing of messages and byte slices is not modelled, and neither is the signer identity field.
- A Session keeps its Signer by value instead of by reference; nothing else refers to it in the source.
- Locks: a method is one critical section or a sequence of them; goroutines interleave between methods. Fine-grained interleavings are modelled for the VIN lock and for routing only.
- Session.AuthorizedCounterIsNew: for HMAC, assumes that no attempt finds the counter exhausted, as the source has no guard there.
- Dispatcher.Dispatcher.StartSession: what other goroutines do is placed before the selects of each pass.
- SignerRuns.IssuedCountersIncrease: assumes that AuthorizeHMAC is not called on the last counter; `CounterStep` shows that this is necessary.
- SignerRuns.SetTimeNondecreasing: assumes session info with 16-byte epochs; `SetTimeStep` shows exactly what other info does.
- Synchronisation.ClocksStayInOrder: the client's wall clock is not stepped and both monotonic clocks run at the same rate, since times loaded from a cache are compared by wall clock.
- VerifierRuns.ClockNeverRunsBackwards: bounds the time since the epoch's start by 2^32 seconds; `TimestampWraps` shows why.
- Lifetime.StrictLifetimeExactly: like LifetimeEnforcedUnlessZero, for expirations from 96 years before to 2^32 seconds after the epoch's start; 32-bit expiration times repeat beyond.
- Lifetime.LifetimeEnforcedInEveryRun: lifetimes that end 96 years or more before the epoch are excluded, because their expiration times wrap around (`Sensible`), and so are arrivals 2^32 seconds after its start (`TimestampWraps`).
- Nonce.DeterministicNonce: partial correctness; `limit` stands for the assumption that the loop ends.
- BleFraming.RoundTrip: no timeout occurs, and the inbox has room for all messages; `InboxGetsWhatFits` and `ReadersGetMessages` drop the second condition.
- Dispatcher.Dispatcher.Post: a tag slice is taken to have no capacity beyond its length; RequestID panics on a short tag only then.
- VinLock.NoLostWakeUp: no fairness is modelled; a woken call may lose the race for the next turn.
- The random nonce of AES-GCM is an argument; that it does not repeat is not modelled.
- SetSessionInfo, the listen goroutine, Start, Stop and StartSessions (whose aggregate of errors carries no clean promise).
- HTTP forwarding, accounts, OAuth, command parsing, vehicle actions, the cache's eviction and files, BLE scanning, keyrings and command-line tools.
