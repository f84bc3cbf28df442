# Verified model of the passkey authenticator

This project models a software FIDO2 authenticator and proves what its layers promise, separately
and composed: CTAP HID framing and reassembly, 2-of-3 FROST key generation and signing, the
credential service, and the message loop of the virtual device. `dafny verify dfyconfig.toml`
checks everything.

## How it is laid out

| files | models |
|---|---|
| `Bytes` | machine integers, big-endian encodings, debug and release builds |
| `CtapHidPacket`, `CtapHidMessage`, `CtapHidReassembler` | packets, splitting, and the reassembly state machine of `src/ctap_hid.rs` |
| `CtapHidRuns`, `CtapHidHistory`, `CtapHidDelivery`, `CtapHidLoss` | whole runs of the reassembler: independence, exact history, delivery, loss and reordering |
| `PrimeField`, `Ed25519` | arithmetic modulo a prime; the signature scheme over an abstract group |
| `Backend`, `FrostDkg`, `FrostSigning`, `FrostBackend`, `LocalBackend`, `BackendRuns` | the two credential backends and their common contract |
| `Authenticator`, `AuthenticatorRuns` | the credential service of `src/authenticator.rs` |
| `CtapRequests`, `CtapMeaning` | reading CTAP2 requests, and what that means position by position |
| `CtapReplies`, `CborWitness` | how a host reads the replies; that such a host can exist |
| `Device`, `DeviceReplies`, `DeviceRuns`, `DeviceEnds`, `DeviceLoop` | the message loop of `src/linux_uhid.rs` |

Code that updates things in place is a class or a method with the source's loops; each is proved
to do what a specification function says, and the theorems are about those functions. `Step` is
the specification of `handle_packet`, `Fragments` of `to_packets`, `HandleMessage` of
`handle_message`, and so on. `DeviceLoop.Serve` closes the gap at the top: the device object,
driven by any events, makes exactly the runs that the theorems on whole runs speak about.

A Rust `+=` that may overflow is modelled for both builds: `Debug` panics, `Release` wraps.
Everything random or external (nonces, polynomials, handles, channel numbers, the person's answer,
decoded CBOR, SHA-256) is a parameter, so each theorem holds for every value of it.

## What is said of the bytes

Statements about requests and replies do not repeat the code that reads or builds them. What a request
asks is stated by positions in its CBOR map (`AsksToRegister`, `AsksToAssert`). What a reply says is
what a host reads from its bytes (`ReadRegistration`, `ReadAssertion`), for every pair of CBOR
functions in which decoding undoes encoding (`Inverts`); `CborWitness` shows that such a pair exists.
Statuses, commands and constants are written out as numbers. The layouts of reports, authenticator
data and signatures are pinned byte by byte (`ReportLayout`, `AttestedLayout`, `SignatureLayout`).

## Three bounds on a message

They are different numbers, and each theorem says which one it needs.

| bytes | what stops beyond it |
|---|---|
| 7609 = 57 + 128 · 59 | sequence numbers reach 0x80 and a continuation reads as an init on the wire (section 11.2.4 of CTAP 2.1) |
| 15102 = 57 + 255 · 59 | the `u8` sequence counter overflows: a debug build panics, in `to_packets` and in `handle_packet` alike |
| 65535 | the `u16` byte count is truncated |

Loss safety needs only the last: the count, not the sequence numbers, keeps a message with missing
packets from being delivered. Trusting the order of what arrives needs distinct sequence numbers,
which last up to 15161 = 57 + 256 · 59 bytes.

`src/ctap_hid.rs:48` says sequence numbers run from 0x00 to 0x7f. `to_packets` itself does not
stop there; the model follows the code, and `FragmentsInWireForm` says when the comment is right.

## The cryptography

A suite is a prime order `q > 3` and functions `exp`, `add`, `mul` on 32-byte encodings such that
`exp` is a homomorphism whose kernel is the multiples of `q`; hashes are arbitrary functions.
Key generation is Pedersen's with degree-one polynomials; signing follows sections 4.2 to 4.6 and
5.1 to 5.3 of RFC 9591; verification is the equation of section 5.1.7 of RFC 8032. That these laws
can be met is proved too (`LawsAreSatisfiable`).

RFC 9591 has no encoding for the identity element, and the library reports an error when it meets
one. So "any two of three sign" is not true of every conceivable draw: it fails when the group key,
a nonce commitment or the group commitment is the identity. `UsableExactlyWhen` gives that condition
in terms of the scalars drawn, `ZeroNonceIsUnusable` a failing draw for every suite, and
`SomeDrawIsUsable` one that succeeds; `SignWith` proves that signing succeeds if and only if the draw
is usable. Likewise a key is created if and only if it has an encoding (`EncodableKey`).

## Questions to the person

A question is an action of the device object: `ConfirmUserPresence` appends the answer to its log
`asked`, and every contract says whether the log grew. Whether a message asks is `Prompts`, which
looks only at the request and the credential store. "Said yes" below always means that the message
asked, and that the answer was yes.

## Model

| member | source | states |
|---|---|---|
| CtapHidPacket.ParseBuffer | src/ctap_hid.rs:81-126 | Filling a zeroed array in place gives the packet that the 64- or 65-byte report layout describes, or nothing when the buffer is too short for its kind. |
| CtapHidPacket.SerializePacket | src/ctap_hid.rs:129-145 | Writing the fields in place leaves exactly the 64-byte report of the packet. |
| CtapHidPacket.ReportLayout | src/ctap_hid.rs:129-145 | Every byte of a report is where the standard puts it: channel in bytes 0 to 3, command or sequence number in 4, then byte count and data, or data; numbers most significant byte first. |
| CtapHidPacket.ParseSerialize | src/ctap_hid.rs:81-145 | A packet survives serialising and parsing if and only if its first byte says what it is: bit 7 set for an init, clear for a continuation. |
| CtapHidPacket.SerializeParse | src/ctap_hid.rs:81-145 | Every 64-byte report parses, and serialising the result gives the report back. |
| CtapHidPacket.ParseIgnoresFraming | src/ctap_hid.rs:81-126 | Any report-ID byte in front of a 64-byte report changes nothing, nor do zeros appended to a shorter report that is accepted. |
| CtapHidPacket.ParsedIsWireForm | src/ctap_hid.rs:94-125 | The parser never yields an init without bit 7 or a continuation numbered 0x80 or more. |
| CtapHidMessage.ContCount | src/ctap_hid.rs:167-182 | The number of continuations is the least that can carry the payload. |
| CtapHidMessage.ToPackets | src/ctap_hid.rs:150-185 | Splitting ends, panics exactly in a debug build above 15102 bytes, and otherwise returns the packets that carry the payload 57 and then 59 bytes at a time with consecutive numbers. |
| CtapHidMessage.FragmentsInWireForm | src/ctap_hid.rs:159-179 | All packets of a message keep their kind on the wire if and only if its command has bit 7 set and its payload has at most 7609 bytes. |
| CtapHidReassembler.Extend | src/ctap_hid.rs:226-230 | A continuation keeps the entry invariant: length 57 + 59 times the packets taken, counter in step, data still missing. |
| CtapHidReassembler.Step | src/ctap_hid.rs:194-247 | Any packet keeps the invariant of the whole channel table. |
| CtapHidReassembler.CtapHidReassembler.HandlePacket | src/ctap_hid.rs:194-247 | The in-place update returns and leaves what `Step` says, never subtracts below zero, and panics exactly in a debug build when a counter of 255 would be incremented. |
| CtapHidRuns.RunConcat | src/ctap_hid.rs:194-247 | A run of one stretch of packets after another is the composition of the two runs, in state and in deliveries. |
| CtapHidRuns.StepIsLocal | src/ctap_hid.rs:194-247 | One packet reads and changes only its own channel's entry, and delivers only on its own channel. |
| CtapHidRuns.NonInterference | src/ctap_hid.rs:194-247 | On every channel, any run leaves and delivers exactly what a reassembler fed only that channel's packets would. |
| CtapHidRuns.WireStep | src/ctap_hid.rs:219-230 | With parsed packets a counter never passes 0x80, so it cannot overflow. |
| CtapHidRuns.WireRun | src/ctap_hid.rs:96-247 | Whatever bytes arrive, no counter overflows in any run, and every delivered message has bit 7 set and at most 7609 bytes, whatever count was claimed. |
| CtapHidHistory.EntryIsAttempt | src/ctap_hid.rs:194-247 | After any run, what is stored for a channel is exactly its latest multi-packet attempt if that is unbroken and incomplete, and nothing otherwise. |
| CtapHidHistory.DeliveredExactlyWhen | src/ctap_hid.rs:194-247 | A packet delivers a message if and only if it is a single-packet init carrying it, or the continuations since the latest multi-packet init on its channel are numbered 0, 1, 2, ... and this is the first to reach the byte count; command and payload are then those of that attempt. |
| CtapHidHistory.LatestMeans | src/ctap_hid.rs:204-224 | The latest attempt is, by position, the last multi-packet init on the channel and all continuations there after it. |
| CtapHidLoss.ReorderingIsSafe | src/ctap_hid.rs:150-247 | However one message's packets are lost, repeated and reordered, a delivery is that message and nothing else: if and only if it has at most 65535 bytes and continuations that share a sequence number are interchangeable; up to 15161 bytes none share one. |
| CtapHidLoss.TooFewPackets | src/ctap_hid.rs:150-247 | Up to 65535 bytes, fewer packets than were sent deliver nothing, in any order and with any repetitions. |
| CtapHidLoss.LossIsSafe | src/ctap_hid.rs:150-247 | Every proper subsequence of a message's packets delivers nothing if and only if the message has at most 65535 bytes. |
| CtapHidLoss.TruncatedDelivers | src/ctap_hid.rs:159-164 | Above 65535 bytes the truncated count makes a proper prefix of the packets deliver a shorter message. |
| CtapHidLoss.ReplacedDelivers | src/ctap_hid.rs:150-247 | Where two continuations share a number but differ, sending one in place of the other delivers a message that is not the original. |
| CtapHidDelivery.Delivers | src/ctap_hid.rs:150-247 | From any valid table the consecutive packets of a message of at most 65535 bytes return nothing until the last, then that message; a single-packet message leaves every partial one alone. |
| CtapHidDelivery.CountersAgree | src/ctap_hid.rs:150-230 | The receiver's counter overflows on a message's packets exactly when the sender's did: above 15102 bytes. |
| CtapHidDelivery.InMemoryRoundTrip | src/ctap_hid.rs:150-247 | Packets give the message back if and only if it has at most 65535 bytes. |
| CtapHidDelivery.WireRoundTrip | src/ctap_hid.rs:81-247 | Reports give the message back if and only if its command has bit 7 set and it has at most 7609 bytes. |
| CtapHidDelivery.QueueDelivered | src/ctap_hid.rs:150-247 | Messages sent back to back on one channel arrive in order, once each, whatever is interleaved on other channels, and leave nothing stored there. |
| CtapHidDelivery.InterleavedDelivery | src/ctap_hid.rs:81-247 | For any messages on distinct channels and any order-preserving interleaving of their reports behind report IDs: each is delivered once, intact, at its own last report; nothing else is; the table ends empty. |
| PrimeField.Inverse | src/backend/frost.rs:214-216 | Every nonzero residue modulo a prime has the inverse that interpolation divides by. |
| PrimeField.Interpolate | src/backend/frost.rs:214-224 | Any two points of a line give its value at zero. |
| Ed25519.SchnorrVerifies | src/backend/local_ed25519.rs:42-51 | A nonce plus challenge times key, reduced and encoded, satisfies the verification equation for that key. |
| Ed25519.SignatureLayout | src/backend/local_ed25519.rs:50 | A signature is the nonce commitment, then the response with byte i of weight 256^i. |
| Ed25519.LawsAreSatisfiable | src/backend/frost.rs:5-6 | Every prime order that fits in 32 bytes has a suite that meets the assumed laws. |
| FrostDkg.RoundOne | src/backend/frost.rs:107-115 | The first loop files each participant's secret and broadcasts its commitments. |
| FrostDkg.Distribute | src/backend/frost.rs:134-139 | Inserting one sender's packages files each under its receiver and adds nothing else. |
| FrostDkg.RoundTwo | src/backend/frost.rs:118-140 | The nested maps end up as the exact transpose of what was sent: each receiver has f_j(i) from the two others and nothing from itself; "missing round-one state" never occurs. |
| FrostDkg.Part3Deals | src/backend/frost.rs:146-158 | Every check of part three passes on what was routed, and it yields the share of the summed polynomial and the public package of that polynomial. |
| FrostDkg.RoundThree | src/backend/frost.rs:143-177 | All three participants derive the same public package; no "missing" or "different" error is reachable. |
| FrostDkg.GenerateCredential | src/backend/frost.rs:102-178 | For all random polynomials the ceremony succeeds and hands out what a trusted dealer holding their sum would; each share lies under its verifying share and the one group key. |
| FrostDkg.AnyTwoSharesInterpolate | src/backend/frost.rs:20-24 | Any two stored shares determine the logarithm of the group key, which no step computes. |
| FrostSigning.GroupNonceExp | src/backend/frost.rs:207-217 | The group commitment of a pair is the image of their combined nonce. |
| FrostSigning.UsableExactlyWhen | src/backend/frost.rs:200-224 | A signing run meets no identity element if and only if neither the key nor any nonce nor the combined nonce is a multiple of the order. |
| FrostSigning.ZeroNonceIsUnusable | src/backend/frost.rs:200-224 | A zero nonce makes signing fail, in every suite. |
| FrostSigning.SomeDrawIsUsable | src/backend/frost.rs:200-224 | In a concrete suite a concrete pair signs every message. |
| FrostSigning.TwoResponses | src/backend/frost.rs:214-224 | Two signers' responses add up to the combined nonce plus challenge times group secret. |
| FrostSigning.SignerAnswers | src/backend/frost.rs:209-217 | Each of the two answers with its Lagrange-weighted response if no identity element turns up, and otherwise both report an error. |
| FrostSigning.AggregateVerifies | src/backend/frost.rs:220-230 | Aggregating any pair's answers succeeds and the result verifies under the one group key, so the check after aggregation cannot fail. |
| FrostSigning.RoundOneCommit | src/backend/frost.rs:191-204 | In either order of the pair, the commitments collected are those of the two signers. |
| FrostSigning.RoundTwoAnswer | src/backend/frost.rs:208-217 | The loop collects both answers exactly when no identity element turns up. |
| FrostSigning.SignWith | src/backend/frost.rs:180-237 | An invalid pair is refused; a valid one, in either order, for every message and all nonces, succeeds if and only if no identity element turns up, with a signature that verifies under the group key. |
| FrostBackend.SelectedSignersAvailable | src/backend/frost.rs:87-100 | A pair is found if and only if at least two participants are available; it is valid, both are available, and it is the preferred one when that is available. |
| FrostBackend.SignSucceedsWhen | src/backend/frost.rs:279-292 | Signing succeeds if and only if the handle is live, at least two participants are available now and the draws are usable, and then verifies under the key returned at creation. |
| FrostBackend.FrostBackend.New | src/backend/frost.rs:39-45 | A new backend has no credentials, prefers 1 and 2, and has everyone available. |
| FrostBackend.FrostBackend.WithSigningParticipants | src/backend/frost.rs:49-56 | Exactly two distinct participants numbered 1 to 3 are accepted as preferred. |
| FrostBackend.FrostBackend.SetParticipantAvailable | src/backend/frost.rs:64-85 | Exactly one entry changes, and only for a participant numbered 1 to 3. |
| FrostBackend.FrostBackend.SelectedSigners | src/backend/frost.rs:87-100 | The search over candidates finds a pair if and only if at least two participants are available. |
| FrostBackend.FrostBackend.FreshHandle | src/backend/frost.rs:263-269 | The loop returns a drawn handle that is not in use. |
| FrostBackend.FrostBackend.CreateCredential | src/backend/frost.rs:241-277 | An empty relying-party id is refused; success stores exactly one new credential under a fresh handle and returns its group key; failure stores nothing. |
| FrostBackend.FrostBackend.Sign | src/backend/frost.rs:279-292 | An unknown handle is refused; a signature verifies under the key of the handle. |
| FrostBackend.FrostBackend.DeleteCredential | src/backend/frost.rs:294-299 | Exactly the named credential goes, and an unknown one is reported. |
| LocalBackend.SignsForItsKey | src/backend/local_ed25519.rs:45-51 | The reference backend meets the signing contract for every live handle. |
| LocalBackend.LocalEd25519Backend.CreateCredential | src/backend/local_ed25519.rs:17-43 | As for FROST: refused, or exactly one new credential under a fresh handle. |
| LocalBackend.LocalEd25519Backend.Sign | src/backend/local_ed25519.rs:45-51 | An unknown handle is refused; every other call yields a signature that verifies. |
| LocalBackend.LocalEd25519Backend.DeleteCredential | src/backend/local_ed25519.rs:53-58 | Exactly the named credential goes, and an unknown one is reported. |
| BackendRuns.LiveWasCreated | src/backend/mod.rs:72-83 | In every run of either backend a handle is live exactly when created and not deleted since, with the key its creation returned. |
| BackendRuns.SignaturesVerifyUnderCreationKey | src/backend/mod.rs:72-83 | In every run, "not found" is reported exactly for handles not live, and each signature verifies under the key returned by the call that created its handle. |
| BackendRuns.SameHandles | src/backend/frost.rs:240-300 | Driven through the same calls, FROST never holds a handle that the local backend does not, and holds all of them as long as every key generated has an encoding. |
| BackendRuns.FrostMatchesLocal | src/backend/frost.rs:240-300 | After any run, the next create, sign or delete gets the same reply from both backends if and only if FROST holds the credential named, a new key has an encoding, and for a signature two participants are available and the draws are usable. |
| BackendRuns.DriveFrost | src/backend/frost.rs:240-300 | A FROST backend object driven through any calls ends in the state and gives the replies of that run. |
| BackendRuns.DriveLocal | src/backend/local_ed25519.rs:16-59 | A local backend object likewise. |
| Authenticator.AuthenticatorDataFields | src/authenticator.rs:132-135 | The 37 bytes decode to the hash, the user-present flag and, at 33 to 36, the counter. |
| Authenticator.SelectCredential | src/authenticator.rs:157-163 | The first allow-listed id registered for this relying party, or none exactly when there is none. |
| Authenticator.AuthenticatorService.Register | src/authenticator.rs:89-111 | Either the backend failed and nothing changed, or one record with counter 0 is filed under the new handle's bytes; the store keeps agreeing with the backend. |
| Authenticator.AuthenticatorService.Select | src/authenticator.rs:157-163 | The search returns the first match. |
| Authenticator.AuthenticatorService.HasMatchingCredential | src/authenticator.rs:113-115 | True if and only if some allow-listed id matches. |
| Authenticator.AuthenticatorService.Assert | src/authenticator.rs:117-155 | All or nothing: a failing backend changes nothing; success moves one counter, and the signature is over the returned data and the hash, under the credential's key. No lookup fails. |
| AuthenticatorRuns.EveryCredentialAccounted | src/authenticator.rs:89-155 | After any run a credential exists exactly if it was registered; it is filed under its own live handle, for its relying party; its counter is min(assertions made with it, 2^32 - 1). |
| AuthenticatorRuns.RegistrationIsFresh | src/authenticator.rs:93-105 | Registration never overwrites, and store and backend agree at every point of a run. |
| AuthenticatorRuns.OnlySelectedMoves | src/authenticator.rs:139-147 | No call other than a successful assertion with a credential changes it; a failing sign changes nothing. |
| AuthenticatorRuns.AssertionMeaning | src/authenticator.rs:117-155 | Every successful assertion uses the first allow-listed credential registered for that relying party, carries the number of assertions made with it, and verifies under the key its registration returned. |
| CtapRequests.ParseGetAssertionRequest | src/linux_uhid.rs:677-729 | The nested loops read the request that `ReadGetAssertion` specifies; what that is, the next rows say. |
| CtapMeaning.AssertionRequestMeans | src/linux_uhid.rs:677-729 | A request is found if and only if its map has a last text keyed 1 and a last byte string keyed 2 of 32 bytes; the fields are then those, the ids of the last array keyed 3, and presence unless waived. |
| CtapMeaning.IdsMean | src/linux_uhid.rs:704-743 | The allow list is, in order, the first byte string under "id" of each descriptor map that has one. |
| CtapMeaning.WaivesMeans | src/linux_uhid.rs:692-719 | Presence is waived if and only if the last boolean "up" over all option maps is false. |
| CtapMeaning.RpIdMeans | src/linux_uhid.rs:745-775 | The relying party is the first "id" text of the first entry keyed 2 that is a map with an "id"; an entry keyed 2 that is no map, or whose "id" is no text, gives none. |
| CtapMeaning.UserIdMeans | src/linux_uhid.rs:777-800 | The user id is the first byte string under "id" in the first entry keyed 3. |
| CtapMeaning.OffersMeans | src/linux_uhid.rs:802-838 | An algorithm is offered if and only if some map in the first entry keyed 4 has it as its first 64-bit integer under "alg". |
| CtapRequests.PresenceWaivedExplicitly | src/linux_uhid.rs:690-719 | User presence is waived only by an options entry that says `up: false`. |
| CtapRequests.AttestedRoundTrip | src/linux_uhid.rs:576-586 | Attested authenticator data and its fields determine each other, for ids up to 65535 bytes. |
| CtapRequests.AttestedLayout | src/linux_uhid.rs:576-586 | Every field of attested authenticator data is at the offset the standard gives, numbers most significant byte first. |
| CborWitness.SomePairInverts | src/linux_uhid.rs:589-606 | There is a pair of functions in which decoding undoes encoding for every CBOR value of the model. |
| Device.UhidAuthenticator.SendMessage | src/linux_uhid.rs:867-905 | Exactly the reports of the message are written, in order, unless splitting it panics. |
| Device.UhidAuthenticator.ConfirmUserPresence | src/linux_uhid.rs:849-865 | Puts exactly one question and returns its answer, or nothing when none can be read. |
| Device.UhidAuthenticator.RegisterCredential | src/linux_uhid.rs:374-441 | Each branch of a registration request stores, replies and asks as specified; the backend keeps its contract, and creates the key exactly if it can. |
| Device.UhidAuthenticator.AssertCredential | src/linux_uhid.rs:608-675 | Likewise for an assertion request: the person is asked exactly if presence is wanted and a credential matches. |
| Device.UhidAuthenticator.HandleEvent | src/linux_uhid.rs:259-287 | One turn changes tables, asks and writes reports exactly as the step relation says for this answer and this drawn channel number; reassembly never panics, whatever arrives. |
| DeviceLoop.Serve | src/linux_uhid.rs:253-290 | For any events, answers and draws the device makes a run of the step relation over a backend that keeps its contract, asks exactly the questions and writes exactly the reports of that run, and stops early only at a turn that ends the loop or, in a debug build, at a reply of more than 15102 bytes, of which nothing is written. |
| DeviceLoop.StopsExactlyWhen | src/linux_uhid.rs:253-468 | In such a run a turn ends the loop if and only if it completes a message that must. |
| DeviceReplies.RegistrationRequestMeans | src/linux_uhid.rs:374-388 | A registration request is read as exactly the relying party, and the offer of EdDSA, that its map says by position. |
| DeviceReplies.RegistrationReplyRead | src/linux_uhid.rs:548-606 | From the reply to a registration a host reads format "none", the relying party's hash, flags 0x41, counter 0, a zero AAGUID, the credential's id, and a COSE key with type 1, algorithm -8, curve 6 and the credential's public key. |
| DeviceReplies.RegistrationReplies | src/linux_uhid.rs:374-441 | Without a relying party or user id the reply is 0x14; the selection probe gets 0x35 on a yes; without EdDSA 0x26, unasked; a no gets 0x27; on a yes the created credential is stored with counter 0 and its id and key are sent. |
| DeviceReplies.AssertionReplyRead | src/linux_uhid.rs:644-668 | From the reply to an assertion a host reads the credential's id and type, the authenticator data and the signature, each where it belongs. |
| DeviceReplies.AssertionReplies | src/linux_uhid.rs:608-675 | Without a relying party or hash the reply is 0x14; without a match 0x2e, unasked; a no gets 0x27; otherwise the first matching credential's counter moves by one, and a host reads its id, the data with that counter, and the signature. |
| DeviceReplies.AssertedIsSent | src/linux_uhid.rs:608-675 | A message makes an assertion if and only if it is a GetAssertion answered with status 0, and a host reads just that assertion. |
| DeviceReplies.NoIsDenied | src/linux_uhid.rs:404-456 | A CBOR message that asks and is answered no gets exactly 0x27, changes no credential and asserts nothing. |
| DeviceReplies.OtherCborReplies | src/linux_uhid.rs:330-462 | Selection gets 0x00 on a yes and 0x27 on a no; getInfo gets version FIDO_2_0, a zero AAGUID and the two options; an empty or unknown command gets nothing. |
| DeviceReplies.HidReplies | src/linux_uhid.rs:292-340 | A PING gets its payload; an INIT of eight bytes or more gets its nonce in bytes 0 to 7, the drawn channel number in 8 to 11, the versions and capabilities 0x0c; a shorter one nothing; a WINK an empty reply; unknown commands nothing. |
| DeviceReplies.U2fReplies | src/linux_uhid.rs:494-546 | Every U2F request gets its fixed reply, byte by byte; only the presence probe asks. |
| DeviceRuns.PromptedExactlyWhen | src/linux_uhid.rs:292-468 | A message asks the person if and only if its request and the store call for it: the selection probe, a registration that can be served, an assertion that wants presence and matches, a selection, or a U2F registration probe. |
| DeviceRuns.UnaskedAnswerIsIgnored | src/linux_uhid.rs:292-468 | Where no question is put, what the person would have said makes no difference. |
| DeviceRuns.MessageIsProper | src/linux_uhid.rs:292-468 | Handling a message replies at most once, on its channel; stores only after a yes to a registration for that relying party; claims presence only after a yes in that turn; and the Firefox probe stores nothing. |
| DeviceRuns.EveryCredentialWasConsentedTo | src/linux_uhid.rs:417-427 | In every run each stored credential goes back to a turn whose completed message, read by position, asks to register for its relying party and offers EdDSA, which asked, and was answered yes. |
| DeviceRuns.EveryTurnIsProper | src/linux_uhid.rs:253-468 | In every run nothing is sent except as the one reply to a message just completed, and presence is never claimed without a question answered yes in that turn. |
| DeviceRuns.DeviceRunsService | src/linux_uhid.rs:253-468 | Every run of the device is a run of the credential service. |
| DeviceRuns.EveryAssertionTracesBack | src/linux_uhid.rs:608-675 | What a host reads from any assertion that leaves the device verifies under the public key that a host read from an earlier reply to a consented registration for the same relying party and the same credential id; the id is allow-listed, and the flag and the counter, the number of assertions with that credential that left the device, are in the data read. |
| DeviceEnds.LoopEndsIfBackendFails | src/linux_uhid.rs:292-468 | A message ends the loop if and only if its CBOR does not decode, it asks and no answer can be read, or the backend fails; the second lookup after the question never fails. |
| DeviceEnds.LoopEndsExactlyWhen | src/linux_uhid.rs:292-468 | The same in terms known beforehand: the request, the store, the backend's contents, the answer and the draws. |
| DeviceEnds.LocalEndsOnlyAtEmptyId | src/linux_uhid.rs:414-441 | Over the local backend the third case is exactly a registration for the empty relying-party id that was answered yes. |
| DeviceEnds.FrostEndsExactlyWhen | src/linux_uhid.rs:292-675 | Over FROST it is that, or a drawn key without an encoding, or an assertion with fewer than two participants available or unusable draws. |
| DeviceRuns.PingIsEchoed | src/linux_uhid.rs:294-302 | In every run a PING reply never overflows a counter or truncates a count, and a host with any table recovers exactly the payload. |
| DeviceRuns.InterleavedMessagesArrive | src/linux_uhid.rs:253-288 | In a run, messages interleaved on distinct channels are each completed once, at their own last report, whatever follows byte 65 of an event. |
| DeviceRuns.InterleavedPingsEchoed | src/linux_uhid.rs:253-302 | PINGs so sent are each echoed once, at their own last report, and nothing else is sent. |

## Left out

- GenerateCredential: the zero-knowledge proofs of knowledge in parts one and two, and the library's refusal of an identity commitment in them, are not modelled.
- FreshHandle: that the random generator eventually yields an unused 32-byte handle is assumed of the draws, here and in every caller; nothing is said about how soon.
- HandlePacket: after a panic the state of the reassembler is unspecified.
- FrostMatchesLocal: replies are compared as success or kind of error, not byte by byte, since the two backends draw different keys.
- Serve: takes a finite list of events where the source waits for more; a failed read or write of the device file is not modelled.
- Secrecy and unforgeability: only correctness of the ceremonies is proved.
- SHA-256, scalar and curve arithmetic, clamping of keys: abstract functions with the laws above.
- CBOR: decoding and encoding are arbitrary functions between bytes and values; what a host reads is stated for pairs in which decoding undoes encoding.
- Messages spliced from two messages on one channel: only the exact history says what is delivered then.
- `/dev/uhid`, event structures, the report descriptor, and events shorter than four bytes: any event that is not an output report is one that is skipped.
- ConfirmUserPresence: one answer per question (yes, no, or unreadable); asking again until the answer is clear is not modelled.
- Logging and the texts of error messages.
- CTAP HID commands that the code does not answer (LOCK, CANCEL, KEEPALIVE, ERROR), timeouts and busy errors: the code has none.
- `src/mpc.rs`, `src/lib.rs` and the examples: declarations and wiring only.
