# OSCORE and EDHOC, verified

A Dafny model of the `oscore` crate: the OSCORE security context of RFC 8613, with its durable sender sequence
numbers and its replay windows, and the EDHOC handshake of RFC 9528 that creates contexts. `dafny verify dfyconfig.toml`
checks everything.

The project follows the crate. Code that works on values is functions; code that changes state is methods and classes
(`Context`, `ReservedSender`, `PendingResponse`, `EdhocInitiator`, `EdhocResponder`) whose contracts equate the new state
and the result with a specification function. The theorems are about those functions.

| module | part of the crate |
|---|---|
| `Bytes` | bytes, exclusive or, results |
| `SeqNumber`, `Nonce`, `Window` | 40-bit numbers and Partial IVs, nonces, 32-bit windows against unbounded sets |
| `OscoreOption`, `Cbor`, `OscoreCbor`, `CoapBody` | the option value, AAD and info, the two CoAP option walkers |
| `Crypto` | the primitives of other crates, as a record of functions with the laws a proof may ask for |
| `Message`, `MessageTheorems`, `MessageVerdicts` | what protecting and unprotecting compute; round trips and binding; what exactly is accepted and why not |
| `CborItem`, `OscoreWire`, `EdhocWire` | CBOR by the rules of RFC 8949, and every structure of the crate measured against it |
| `Durable`, `SenderRuns` | the sender side of one context; any number of contexts racing on one record |
| `ReplayRuns` | accepting, saving, crashing and restoring |
| `Context` | the object itself, its store and its two capabilities |
| `Refinement` | each call on the object is one step of `SenderRuns` or `ReplayRuns` |
| `EdhocCbor`, `EdhocCredential`, `EdhocKeys` | codecs, credential references, key schedule and transcripts |
| `EdhocIdCred`, `EdhocGrammar`, `EdhocVerdicts` | which bytes each parser accepts and what each call answers, said without the parsers |
| `EdhocInitiator`, `EdhocResponder` | the two automata |
| `EdhocAgreement`, `EdhocAuthentication`, `EdhocLifecycle` | undisturbed runs, accepted signatures, all call sequences and retries |

## Where the code differs from its documentation

- The comment on `parse_suites_i` says that the first element of a list is the selected suite. The code selects the first
  element that is an unsigned byte; `EdhocCbor.FirstSuiteSelected` gives the exact condition.
- The encoder and the parser of connection identifiers do not match for the single bytes 0x20 to 0x37, and the responder
  reads one-byte identifiers only. `EdhocAgreement.HandshakeAgreement` therefore has a condition, which is exact.
- The two CoAP walkers do not agree on every input: one adds in 16 bits. `CoapBody.WalkersAgreeChecked` and
  `CoapBody.WalkersAgreeWrapping` are exact for builds with and without overflow checks.
- Responses that take their own number without the store can repeat a nonce; `SenderRuns.StorelessIsSafeIffLost` says when
  they cannot. `SenderRuns.NoncesNeverRepeat` leaves that one branch out and nothing else.

## Model

| member | source | states |
|---|---|---|
| `SeqNumber.FromPiv` | src/seqnum.rs:116-124 | The fold over the bytes accepts exactly the minimal encodings of 1 to 5 bytes and returns their big-endian value. |
| `SeqNumber.EncodePiv` | src/seqnum.rs:92-113 | The two array loops leave the minimal big-endian bytes at the front of the buffer and return their count. |
| `SeqNumber.DecodeInvertsEncode` | src/seqnum.rs:92-124 | Every 40-bit number encodes to 1 to 5 bytes that decode to it. |
| `SeqNumber.EncodeInvertsDecode` | src/seqnum.rs:116-124 | Every accepted Partial IV is the encoding of what it decodes to: decoding accepts exactly the image of encoding. |
| `SeqNumber.PivBytesMeaning` | src/seqnum.rs:92-113 | The encoding denotes the number, has no leading zero (other than for zero itself). |
| `SeqNumber.PivBytesLength` | src/seqnum.rs:92-113 | The encoding has the least number of bytes that can hold the number. |
| `SeqNumber.PivBytesInjective` | src/seqnum.rs:92-113 | Different numbers have different Partial IVs. |
| `SeqNumber.FortyBits` | src/seqnum.rs:36-62 | Sequence numbers are the numbers of five bytes, and only 2^40 - 1 has no successor. |
| `Window.ReusedIsRejected` | src/lib.rs:1492-1500 | On a window that represents a set of accepted numbers, the bit test rejects exactly the members and everything 32 or more below the maximum. |
| `Window.MarkAddsOne` | src/lib.rs:1501-1519 | Marking an unrejected number makes the window represent the set with that number added, also across jumps of 32 or more. |
| `Window.RunRefinesSet` | src/lib.rs:1492-1626 | Over every sequence of arrivals the shifted 32-bit word and the unbounded set give the same verdict on every arrival. |
| `Window.RunAcceptsAtMostOnce` | src/lib.rs:1583-1626 | No run accepts one number twice. |
| `Window.FreshRepresentsNothing` | src/lib.rs:1583-1603 | Both initial windows, with and without an `initialized` flag, represent the empty set. |
| `Nonce.ComputeNonce` | src/lib.rs:2241-2265 | For identifiers and Partial IVs of any length, the assignments and the exclusive-or loop compute length byte, padded identifier and padded Partial IV masked with the Common IV; what is too long for its field is left out. |
| `Nonce.LayoutInjective` | src/lib.rs:2241-2265 | The layout fixes the identifier and the value of the Partial IV. |
| `Nonce.NonceInjective` | src/lib.rs:2241-2265 | Under one Common IV two nonces are equal only for the same identifier and the same sequence number, so nonces of different identifiers never meet. |
| `Nonce.LongIdentifiersCollide` | src/lib.rs:2241-2265 | The bound of 7 bytes is needed: two identifiers of 8 bytes share every nonce. |
| `OscoreWire.NonceOnTheWire` | src/lib.rs:2228-2265 | Byte by byte: the length, the identifier ending at byte 7 and the Partial IV ending at byte 12, each masked with its byte of the Common IV. |
| `OscoreOption.ParseOption` | src/lib.rs:1726-1800 | The parser succeeds exactly on encodings of valid options and returns the option encoded. |
| `OscoreOption.DecodeInvertsEncode` | src/lib.rs:946-963 | What the encoders produce reads back as the same Partial IV, ID context and KID. |
| `OscoreOption.EncodeInvertsDecode` | src/lib.rs:1726-1800 | Every accepted option value re-encodes to itself. |
| `OscoreOption.EncodeInjective` | src/lib.rs:946-963 | No two valid options have one encoding. |
| `OscoreWire.OptionOnTheWire` | src/lib.rs:946-963 | Bit 4 of the first byte announces an ID Context, bit 3 a KID, the low bits the length of the Partial IV; then the fields, each at its place. |
| `OscoreWire.OptionLimits` | src/lib.rs:1726-1800 | The options carried are those with an empty or valid Partial IV, an ID Context of at most 8 and a KID of at most 7 bytes. |
| `OscoreWire.RequestOptionCarries` | src/lib.rs:946-963 | The option of a sealed request decodes to its number, its sender identifier and its ID Context, and has the length of these fields. |
| `OscoreWire.ResponseOptionCarries` | src/lib.rs:1186-1201 | The option of a sealed response decodes to its own number and nothing else, or is empty. |
| `OscoreWire.OptionExamples` | src/lib.rs:3094-3128 | Two option values read field by field, and two that are refused. |
| `OscoreCbor.BuildAadCbor` | src/lib.rs:2030-2129 | The builder fills the buffer with the external AAD array wrapped in the Encrypt0 structure, or reports the overflow of the buffer. |
| `OscoreCbor.AadInjective` | src/lib.rs:2030-2129 | The associated data fixes the request KID and the request Partial IV. |
| `OscoreWire.AadOnTheWire` | src/lib.rs:2030-2129 | The associated data is the CBOR encoding of ["Encrypt0", h'', external_aad] with external_aad that of [1, [10], request_kid, request_piv, h''], by the encoding rules of RFC 8949. |
| `OscoreCbor.BuildInfoCbor` | src/lib.rs:1935-2007 | For all lengths the buffer has room for, the builder fills the buffer with the info array of section 3.2.1 of RFC 8613, one-byte length headers included, and refuses exactly output lengths above 255. |
| `OscoreCbor.InfoInjective` | src/lib.rs:1935-2007 | For parts of up to 255 bytes the info array fixes identifier, ID context, type and length, so keys and IV are derived from different inputs. |
| `OscoreWire.MaterialOnTheWire` | src/lib.rs:455-534 | A context is made exactly of identifiers of up to 7 different bytes, a salt and an ID Context of up to 8, and its two keys and its Common IV are expanded under the CBOR encodings of [id, id_context / nil, 10, "Key" / "IV", 16 / 13]. |
| `OscoreWire.KeysNameTheirInputs` | src/lib.rs:1880-1911 | Under one secret and salt, equal keys have equal identifiers and ID Contexts and equal Common IVs equal ID Contexts, or `expand` collides on the two named infos; a key never shares an info with an IV. |
| `CoapBody.ParseInnerBody` | src/lib.rs:1803-1854 | The strict walker returns options and payload exactly where the option grammar splits them. |
| `CoapBody.FindPayloadMarker` | src/lib.rs:2140-2225 | The second walker, with its 16-bit sums, finds the marker that the recursive walk finds, and overflows where it does. |
| `CoapBody.NumbersAreDenoted` | src/lib.rs:2169-2208 | Deltas and lengths are written as section 3.1 of RFC 7252 reads nibbles and extensions, in the shortest way. |
| `CoapBody.ReencodeIsIdentity` | src/lib.rs:1803-1854 | Decoding the options and encoding them again by section 3.1 of RFC 7252 reproduces the bytes. |
| `CoapBody.EncodedOptionsSplit` | src/lib.rs:1803-1854 | An encoded option list followed by any payload splits exactly after the list. |
| `CoapBody.OptionsOnlyIsEncoding` | src/lib.rs:1803-1854 | Bytes consumed entirely as options are exactly the encodings of option lists with numbers up to 65535. |
| `CoapBody.BodySplitsAtSeam` | src/lib.rs:2140-2225 | With such options, both walkers stop exactly between options and payload. |
| `CoapBody.WalkersAgreeChecked` | src/lib.rs:1047-1057 | With overflow checks the two walkers give one split or one error on an input if and only if no extended delta makes the 16-bit sum overflow. |
| `CoapBody.WalkersAgreeWrapping` | src/lib.rs:1047-1057 | With wrapping sums they disagree exactly on encoded option lists with a delta above 65535 whose deltas, reduced to 16 bits, sum to at most 65535, whatever payload follows; those the second walker accepts and the first rejects. |
| `CoapBody.WalkStopsAtSeam` | src/lib.rs:2140-2225 | The second walker stops right after given bytes, whatever payload follows, exactly when they encode options whose deltas, reduced to 16 bits, sum to an option number. |
| `CoapBody.WalkersDisagree` | src/lib.rs:2180-2182 | A concrete body that one walker rejects, and the other accepts or panics on. |
| `CoapBody.WrappingWalkNeverPanics` | src/lib.rs:2140-2225 | Without overflow checks the second walker is total. |
| `Durable.HandedOutIncreases` | src/lib.rs:719-756 | Any mix of reservations and store-less responses hands out strictly increasing numbers from the context's own, and none once exhausted. |
| `Durable.PerformTakesNext` | src/lib.rs:719-756 | Each operation either takes exactly the next number or changes nothing. |
| `Durable.StorelessNeverTakesLast` | src/lib.rs:1129-1138 | The number 2^40 - 1 is only ever taken by reservation, and after it nothing is. |
| `Durable.RegisterOutcome` | src/lib.rs:402-418 | When registering succeeds, which failure means what, and what the record holds afterwards, case by case. |
| `Durable.RestoreOutcome` | src/lib.rs:421-441 | Which records are adopted, with which fields, and which failure means what. |
| `Durable.ReserveOutcome` | src/lib.rs:719-756 | When a reservation succeeds and with which number, which failure means what, and what the record holds afterwards. |
| `Durable.AdvanceFollowsRecord` | src/lib.rs:747-750 | After a reservation the context has the state of the record. |
| `Durable.RespondOutcome` | src/lib.rs:1119-1155 | When a response without reservation is possible, and what it changes. |
| `SenderRuns.NextKeepsInv` | src/lib.rs:402-441 | Every durable step (create, register, restore, reserve, encrypt, answer, discard, crash, with lost races and ambiguous storage errors) keeps the invariant that ties record, live contexts and released encryptions together. |
| `SenderRuns.NoncesNeverRepeat` | src/lib.rs:719-756 | Over every run of any number of contexts on one record, no two released encryptions under the sender key use one nonce. |
| `SenderRuns.CounterIsConserved` | src/lib.rs:719-756 | The successful reservations since registration are exactly 0, 1, 2, … in order, as many as the record says (2^40 when exhausted); a context holds a reservation only for a number it reserved itself. |
| `SenderRuns.RecordOnlyRises` | src/lib.rs:719-756 | A step leaves the record or raises it by one; an exhausted record never changes. |
| `SenderRuns.RecordHasNoAba` | src/lib.rs:719-756 | If the record has the same count before and after a run, nothing was reserved in between: compare-and-swap cannot be fooled. |
| `SenderRuns.StorelessAnswerCanRepeat` | src/lib.rs:1129-1138 | A concrete run in which a response with its own number, taken without the store, repeats a nonce. |
| `SenderRuns.StorelessIsSafeIffLost` | src/lib.rs:1129-1138 | Such a response is safe against every continuation if and only if its number was reserved in the record and is held by nobody and used by nobody. |
| `SenderRuns.NoViewIsSafe` | src/lib.rs:1129-1138 | Nothing a caller can see makes such a response safe: in step with the record it never is, and behind it some durable run shows a context the same record and the same fields and then repeats a nonce. |
| `ReplayRuns.CoveredNeverAcceptedAgain` | src/lib.rs:683-712 | Nothing covered by the last saved snapshot is accepted again, over every run with crashes and restarts. |
| `ReplayRuns.TwiceOnlyIfLost` | src/lib.rs:421-441 | A number accepted twice was accepted and then lost in a crash before it was saved. |
| `ReplayRuns.AtMostOnceAcrossRestarts` | src/lib.rs:971-1074 | If there is a save between each arrival and the next crash, no run accepts a request number twice. |
| `ReplayRuns.RestoredAcceptsUncovered` | src/lib.rs:683-712 | A restored window rejects exactly what the saved set rejects, no more. |
| `Message.OptionsValid` | src/lib.rs:886-966 | The options the sender builds are valid and fit the option buffer. |
| `MessageTheorems.ReadPlainInvertsPlaintext` | src/lib.rs:1026-1074 | The inner plaintext reads back as code, options and payload exactly when the parts fit and the options are an encoded list whose deltas, reduced to 16 bits, sum to an option number. |
| `OscoreWire.PlaintextOnTheWire` | src/lib.rs:908-933 | The plaintext is the code, the options and, with a payload, the marker 0xFF and the payload. |
| `MessageTheorems.RequestRoundTrip` | src/lib.rs:971-1074 | Between mirrored contexts a protected request opens to the original triple and its number if and only if the number is not a replay and the message is recoverable. |
| `MessageTheorems.RequestRoundTripOptionsOnly` | src/lib.rs:886-966 | The same without the condition, for option lists and the documented bounds. |
| `MessageTheorems.ResponseWithPivRoundTrip` | src/lib.rs:1244-1296 | Responses with their own Partial IV open to the original if and only if the windows, the code and the mode allow it. |
| `MessageTheorems.ResponseNoPivRoundTrip` | src/lib.rs:1095-1208 | Responses under the request's nonce likewise: both sides compute one nonce and one AAD. |
| `MessageTheorems.ResponseAnswersOneRequest` | src/lib.rs:1344-1465 | One ciphertext accepted as the answer to two requests was opened by the AEAD under the associated data of both, named in the contract, and those differ. |
| `MessageTheorems.ResponseAcceptedOnlyAsSent` | src/lib.rs:1344-1465 | If the receiver's one attempt on a ciphertext opens it only under the nonce and AAD it was sealed under, a response sealed for one request is refused for every other, with any option, in both modes; and where it is accepted it is accepted under its own number with the message that was sent. |
| `MessageTheorems.RequestAcceptedOnlyAsSent` | src/lib.rs:971-1074 | The same for requests: an accepted request has the number and the message it was sent with, whatever option it is presented with. |
| `MessageVerdicts.RequestAcceptedExactly` | src/lib.rs:971-1074 | A request is accepted, as this number and message, exactly if the fields of its option name this context and a fresh number and its ciphertext opens under nonce and AAD of that number. |
| `MessageVerdicts.RequestRefusals` | src/lib.rs:971-1020 | For complete requests the answer is NoContext exactly if the KID or a present ID Context is not this context's; Replay exactly if the window refuses the number. |
| `MessageVerdicts.RequestOpened` | src/lib.rs:1022-1042 | Past these checks a request is too large above 264 bytes, and otherwise fails to decrypt exactly if the AEAD refuses it. |
| `MessageVerdicts.PlainRefusals` | src/lib.rs:1043-1074 | What opens is refused for parts above 128 bytes and for a marker with nothing behind it. |
| `MessageVerdicts.ResponseCodes` | src/lib.rs:1424-1427 | Response codes are 0x40 to 0xBF. |
| `MessageVerdicts.ResponseAcceptedExactly` | src/lib.rs:1344-1465 | A response is accepted, with this outcome, exactly under the listed conditions on option, windows, mode and ciphertext. |
| `MessageVerdicts.ResponseRefusals` | src/lib.rs:1344-1412 | When a response gets NoContext and when Replay, on the fields of its option. |
| `MessageVerdicts.SealRefusals` | src/lib.rs:886-944 | A request is too large exactly above 280 bytes of code, options, marker, payload and tag. |
| `MessageVerdicts.AnswerRefusals` | src/lib.rs:1210-1296 | A response is refused exactly for a KID that is not the peer's, an invalid Partial IV, or its size. |
| `MessageTheorems.MirroredKeys` | src/lib.rs:455-534 | Exchanging the identifiers exchanges the keys and keeps the Common IV. |
| `MessageTheorems.ConstructionIsSymmetric` | src/lib.rs:455-534 | A context exists exactly when its mirror image does. |
| `Context.ContextIdNamesSenderSide` | src/lib.rs:1857-1877 | The hashed context description is the same exactly for the same secret, salt, ID context and sender identifier; the recipient does not enter. |
| `Context.OneRecordOneKey` | src/lib.rs:1857-1877 | Descriptions that agree lead to one key, one Common IV and one sender identifier. |
| `OscoreWire.ContextIdOnTheWire` | src/lib.rs:1857-1877 | The hashed description is the label, then each part with its length, the ID Context behind a byte for its presence. |
| `Context.RestoreInvertsSnapshot` | src/lib.rs:683-712 | Snapshot then restore is the identity on all four windows. |
| `Context.StoredFields` | src/lib.rs:683-712 | Which stored field is which window's; a stored number beyond 40 bits restores as zero. |
| `Context.Context.New` | src/lib.rs:455-534 | Construction succeeds exactly when the specification of the key material does, with that material, its context identifier and empty windows. |
| `Context.Context.NewFresh` | src/lib.rs:537-555 | The same for a context exported by a handshake, which is inactive but marked for answers without a Partial IV. |
| `Context.Context.RegisterFresh` | src/lib.rs:402-418 | Registration changes record and context as the transition system says, under every storage outcome. |
| `Context.Context.RestoreExisting` | src/lib.rs:421-441 | Restoring adopts the record and the saved windows, and switches off responses without Partial IV. |
| `Context.Context.ReserveSender` | src/lib.rs:719-756 | The record advances before the context does; on any error the context is unchanged. |
| `Context.Context.UpdateReplayWindow` | src/lib.rs:1604-1626 | The in-place update is the window operation, and leaves the window alone on a number the check refuses. |
| `Context.Context.MarkResponseUsed` | src/lib.rs:1501-1519 | After a passed check the in-place update is the window operation, with every shift below 32. |
| `Context.Context.MarkReceivedResponse` | src/lib.rs:1531-1548 | The same for accepted responses by request number. |
| `Context.Context.MarkReceivedResponsePiv` | src/lib.rs:1562-1581 | The same for accepted responses by their own number. |
| `Context.Context.NextRequestOptionLen` | src/lib.rs:796-805 | The announced length is that of the option the next request will carry: one byte, the Partial IV, the ID Context with its length byte if there is one, and the sender identifier. |
| `Context.Context.ProtectRequestReserved` | src/lib.rs:886-966 | Buffer by buffer, the method computes the sealed request of the specification. |
| `Context.Context.ProtectResponse` | src/lib.rs:1095-1208 | Every branch: who may answer, which number is used, what is sealed, and exactly what state changes. |
| `Context.Context.UnprotectRequest` | src/lib.rs:971-1074 | A request is accepted exactly when the specification opens it; then one number is marked; on every failure no window changes. |
| `Context.Context.BeginUnprotectResponse` | src/lib.rs:1344-1465 | The first phase changes nothing; the pending response still satisfies the replay checks when it is committed. |
| `Context.Context.UnprotectResponse` | src/lib.rs:1468-1490 | Both phases together: a failure changes no window, a success marks exactly what the mode says. |
| `Context.PendingResponse.Commit` | src/lib.rs:293-306 | Accepting marks the responder's number, and the request exactly once unless it is observed, and touches nothing else. |
| `Context.ReservedSender.ProtectRequest` | src/lib.rs:1631-1646 | A reservation is used once, for its own number. |
| `Context.ReservedSender.ProtectResponseWithPiv` | src/lib.rs:1648-1671 | A reservation can be used for one response instead. |
| `Refinement.Register` | src/lib.rs:402-418 | A call on the object is the registration step of the transition system, or the context is consumed. |
| `Refinement.Restore` | src/lib.rs:421-441 | Restoring the object is the restore step, with either load failing. |
| `Refinement.Reserve` | src/lib.rs:719-756 | Reserving is the reserve step, and the capability holds the number of the step. |
| `Refinement.EncryptRequest` | src/lib.rs:1631-1646 | Using a reservation for a request releases its number, under the nonce the theorem on nonces speaks about; a full buffer only discards it. |
| `Refinement.EncryptResponse` | src/lib.rs:1648-1671 | The same for a response. |
| `Refinement.AnswerNoPiv` | src/lib.rs:1139-1208 | A response under the request's nonce is the answering step and releases the peer's identifier with the request's number. |
| `Refinement.AnswerStoreless` | src/lib.rs:1129-1138 | A response under the object's own number is the step that the theorem on nonces leaves out. |
| `Refinement.ContextsOfOneRecord` | src/lib.rs:1857-1877 | Objects with one context identifier share sender key, Common IV and sender identifier, unless the hash collides on their two descriptions. |
| `Refinement.Receive` | src/lib.rs:971-1074 | An accepted request is one arrival in the run of its window; a refused one changes nothing. |
| `Refinement.Save` | src/lib.rs:683-697 | Saving the snapshot of the four windows is the save step. |
| `Refinement.Boot` | src/lib.rs:421-441 | Restoring a new object boots the run from what was saved, or from an empty window. |
| `EdhocCbor.EncodeBstr` | src/edhoc/cbor.rs:10-51 | Push by push into a bounded buffer: the CBOR byte string or `BufferTooSmall`. |
| `EdhocCbor.ParseInvertsBstr` | src/edhoc/cbor.rs:57-89 | Every encoded byte string reads back, whatever follows it. |
| `EdhocGrammar.BytesRead` | src/edhoc/cbor.rs:57-89 | Exactly the byte strings with lengths of up to two bytes are read, in any width of the head. |
| `EdhocCbor.IdentifierRoundTrip` | src/edhoc/cbor.rs:96-160 | A connection identifier of up to 7 bytes survives encoder and parser if and only if it is not one of the bytes 0x20 to 0x37, and what those become. |
| `EdhocWire.IdentifierIsItem` | src/edhoc/cbor.rs:141-160 | An identifier is sent as the one-byte integer it is, or as a byte string. |
| `EdhocGrammar.IdentifiersRead` | src/edhoc/cbor.rs:91-143 | An identifier is read exactly from its own encoding, from a byte string with an unneeded length byte, or from a negative integer, which stands for 0xE8 to 0xFF. |
| `EdhocGrammar.IdentifiersRefused` | src/edhoc/cbor.rs:91-143 | More than seven bytes, and a one-byte string where an integer would do, are refused. |
| `EdhocCbor.ParseSuitesI` | src/edhoc/cbor.rs:171-285 | The loop over a suite list, item sizes included. |
| `EdhocCbor.FirstSuiteSelected` | src/edhoc/cbor.rs:165-170 | The first element of a list is the selected suite exactly when it is an unsigned byte. |
| `EdhocCbor.LaterSuiteCanBeSelected` | src/edhoc/cbor.rs:274-284 | A concrete list whose second element is selected. |
| `EdhocGrammar.SuiteListsRead` | src/edhoc/cbor.rs:165-285 | A list of suites is accepted exactly if it is an array of integers of any width, and selects the first unsigned one of at most a byte. |
| `EdhocGrammar.SingleSuitesRead` | src/edhoc/cbor.rs:165-285 | Anything but a list must be one unsigned integer of at most a byte. |
| `EdhocCredential.SkipCborValue` | src/edhoc/credential.rs:481-570 | The recursive loop terminates and computes the size of the value: at least one byte, never more than there are. |
| `EdhocCredential.SkipIsPrefixStable` | src/edhoc/credential.rs:481-570 | The size of a value depends on its own bytes only. |
| `EdhocGrammar.ValuesSkipped` | src/edhoc/credential.rs:481-570 | Exactly the integers, strings and nested arrays of RFC 8949 with these widths are skipped, and as far as they reach. |
| `EdhocGrammar.IntegersSkipped` | src/edhoc/credential.rs:376-412 | Exactly the integers with an argument of at most two bytes, in any width. |
| `EdhocGrammar.LabelsRead` | src/edhoc/credential.rs:289-333 | A label is read exactly from the shortest encoding of an integer of at most two bytes. |
| `EdhocGrammar.CanonicalBytesRead` | src/edhoc/credential.rs:335-374 | A canonical byte string is read exactly from its shortest encoding. |
| `EdhocGrammar.ThumbprintsRead` | src/edhoc/credential.rs:462-479 | A thumbprint is read exactly from an array of an algorithm in shortest form and a byte string of at most 64 bytes. |
| `EdhocCredential.ValidateAlgValue` | src/edhoc/credential.rs:418-456 | The loop returns what its specification function does, errors included; what that accepts is `EdhocIdCred.AlgArraysAccepted`. |
| `EdhocIdCred.AlgArraysAccepted` | src/edhoc/credential.rs:418-456 | An array is accepted, and so many bytes long, exactly when those bytes are an array of complete items in which no canonical integer is 1 or 34 or comes twice, and there are at most eight of them. |
| `EdhocCredential.ParseIdCredential` | src/edhoc/credential.rs:113-287 | The parser is total, consumes at most its input and returns what the specification returns, errors included. |
| `EdhocCredential.IdCredIsPrefixStable` | src/edhoc/credential.rs:113-287 | The result depends only on the bytes consumed. |
| `EdhocCredential.NormalisationIsIdempotent` | src/edhoc/credential.rs:113-287 | The stored encoding of any accepted reference reads back as the same reference, entirely consumed. |
| `EdhocCredential.AcceptedMapIsUnambiguous` | src/edhoc/credential.rs:216-287 | An accepted map repeats no integer label and carries exactly one of kid and x5t; the reference is the value gathered under it. |
| `EdhocIdCred.MapsAccepted` | src/edhoc/credential.rs:216-287 | A map is accepted, with this reference and so many bytes long, exactly when those at most 64 bytes are one to eight complete entries, no integer label twice, each value as its label asks, one of them this reference and none of the other kind. |
| `EdhocIdCred.AlgItemRefused` | src/edhoc/credential.rs:430-452 | Which item of an algorithm array is refused, and as what. |
| `EdhocIdCred.EntryRefused` | src/edhoc/credential.rs:227-272 | Which entry of a map is refused, and as what: a repeated label is malformed, a long kid too large, and so on. |
| `EdhocIdCred.FirstRefusalDecides` | src/edhoc/credential.rs:227-273 | The first refused entry decides the answer for the map. |
| `EdhocIdCred.MapRefused` | src/edhoc/credential.rs:275-287 | A map of good entries is malformed without exactly one kind of reference and too large above 64 bytes. |
| `EdhocIdCred.ThumbprintRefused` | src/edhoc/credential.rs:462-479 | A thumbprint is too large exactly if it is well-formed and longer than 64 bytes, and otherwise malformed. |
| `EdhocCredential.KidMapParses` | src/edhoc/credential.rs:198-214 | The map form written for any bare kid reads back as that kid. |
| `EdhocGrammar.BareReferences` | src/edhoc/credential.rs:113-219 | A bare integer stands for the kid that is its encoding, a bare byte string for its content, and which encodings are stored; everything that is no map and neither is refused. |
| `EdhocCredential.OwnIdCredParses` | src/edhoc/credential.rs:73-88 | The reference a party sends about itself reads back as its own. |
| `EdhocWire.IdCredOnTheWire` | src/edhoc/credential.rs:73-88 | A party's reference is the CBOR map of kid to the first eight bytes of the hash of its key. |
| `EdhocWire.CredentialOnTheWire` | src/edhoc/credential.rs:91-104 | A party's credential is the CBOR map {1: 1, -1: 6, -2: key}. |
| `EdhocCredential.ValidatePeerCredential` | src/edhoc/credential.rs:687-728 | Position by position, the check of the specification. |
| `EdhocCredential.CredentialBindsKey` | src/edhoc/credential.rs:687-728 | A raw-key credential passes for exactly one public key, the one inside it, if that is a valid point. |
| `EdhocVerdicts.PeerVerdict` | src/edhoc/credential.rs:687-728 | When a peer's key and credential are accepted, and which refusal means what. |
| `EdhocKeys.EdhocKdf` | src/edhoc/kdf.rs:53-107 | Label, context and length are pushed into 128 bytes and expanded, or the call fails. |
| `EdhocKeys.KdfInfoInjective` | src/edhoc/kdf.rs:53-107 | No two uses of the KDF share an info string. |
| `EdhocWire.KdfOnTheWire` | src/edhoc/kdf.rs:53-107 | Whatever is derived is expanded under the CBOR sequence of label, context and length; when it does not fit. |
| `EdhocWire.MessageKeys` | src/edhoc/kdf.rs:17-35 | The keystream of the second and the key and IV of the third message are derived under labels 0, 3 and 4 and TH_2 and TH_3. |
| `EdhocWire.OwnMacs` | src/edhoc/transcript.rs:53-81 | A party's MACs are derived under label 2 with C_R, ID_CRED_R, TH_2, CRED_R and under label 6 with ID_CRED_I, TH_3, CRED_I. |
| `EdhocWire.MacContext2Names` | src/edhoc/transcript.rs:53-67 | The context of MAC_2 fixes the connection identifier, and with references the parser reads also reference, transcript hash and credential. |
| `EdhocWire.MacContext3Names` | src/edhoc/transcript.rs:69-81 | The context of MAC_3 fixes reference, transcript hash and credential. |
| `EdhocKeys.TranscriptInputInjective` | src/edhoc/transcript.rs:26-51 | The hash input of TH_3 and TH_4 fixes the earlier hash, the plaintext and the credential. |
| `EdhocWire.TranscriptsOnTheWire` | src/edhoc/transcript.rs:17-51 | What each transcript hash covers, as CBOR byte strings, and when it does not fit. |
| `EdhocKeys.BuildSignatureStructure` | src/edhoc/transcript.rs:83-101 | The structure that is signed, with both buffer limits. |
| `EdhocKeys.SignatureBindsEverything` | src/edhoc/transcript.rs:83-101 | A signed structure fixes the credential reference, transcript hash, credential and MAC. |
| `EdhocWire.SignatureOnTheWire` | src/edhoc/transcript.rs:83-101 | The signed structure is the CBOR array of "Signature1", reference, transcript hash with credential, and MAC; when it does not fit. |
| `EdhocWire.PlaintextsOnTheWire` | src/edhoc/responder.rs:313-332 | The second and third plaintext: identifier, own reference and own signature on that structure. |
| `EdhocWire.MessagesOnTheWire` | src/edhoc/responder.rs:334-349 | The second message masks, the third seals under the CBOR array of "Encrypt0", h'' and TH_3. |
| `EdhocWire.Message1OnTheWire` | src/edhoc/initiator.rs:219-235 | The first message is method 0, suite 0, the key and the identifier. |
| `EdhocKeys.ExportContext` | src/edhoc/kdf.rs:109-143 | The chain of four derivations, none of which can fail, and the inactive context made from them. |
| `EdhocWire.ExportChain` | src/edhoc/kdf.rs:109-143 | Exported secret and salt as the chain of expansions under four info strings given as bytes: label 7 with TH_4, then 10, then 0 and 1. |
| `EdhocWire.ExportNamesTranscript` | src/edhoc/kdf.rs:109-143 | Equal exported secrets, or salts, from one key and different TH_4 mean that `expand` collides at a named step. |
| `EdhocWire.ExportedIdentifiers` | src/edhoc/initiator.rs:469-482 | The initiator sends under C_R and receives under C_I, the responder the other way round. |
| `EdhocInitiator.OwnStructuresFit` | src/edhoc/transcript.rs:53-101 | A party's own credentials leave room in every intermediate buffer. |
| `EdhocInitiator.EdhocInitiator.CreateMessage1` | src/edhoc/initiator.rs:219-235 | The first message, and the only state in which it is made. |
| `EdhocInitiator.EdhocInitiator.BeginProcessMessage2` | src/edhoc/initiator.rs:267-357 | Field by field: which failures leave the state, which poison it, and the state after success. |
| `EdhocInitiator.EdhocInitiator.FinishProcessMessage2` | src/edhoc/initiator.rs:360-462 | Verification, the third message and the final state, or the poisoned one. |
| `EdhocVerdicts.Message2Verdict` | src/edhoc/initiator.rs:281-291 | A second message is split exactly if it is one byte string of a key, at least one more byte and room for a signature. |
| `EdhocVerdicts.Plaintext2Verdict` | src/edhoc/initiator.rs:318-333 | A second plaintext is accepted exactly if it is an identifier other than the own, a reference and a signature of the right length, with nothing behind it. |
| `EdhocVerdicts.Plaintext2Refusals` | src/edhoc/initiator.rs:318-333 | A refused second plaintext names the part that is at fault. |
| `EdhocVerdicts.Open2Verdict` | src/edhoc/initiator.rs:302-344 | When the message becomes pending and in which state, and which refusal means what. |
| `EdhocVerdicts.Begin2Verdict` | src/edhoc/initiator.rs:267-357 | Which calls leave the initiator as it is and which wipe it. |
| `EdhocVerdicts.SuiteErrors` | src/edhoc/initiator.rs:272-279 | An error message is taken as unsupported suites exactly if a list of suites fills it, and as malformed otherwise. |
| `EdhocVerdicts.Finish2Verdict` | src/edhoc/initiator.rs:360-462 | The second half completes exactly for a peer that passes the check and a verified signature; a wrong state, session or reference leaves the initiator as it is, every other failure wipes it. |
| `EdhocVerdicts.VerifyRefusals` | src/edhoc/initiator.rs:373-405 | On both sides: which check of the signature fails with which answer. |
| `EdhocVerdicts.CreateVerdict` | src/edhoc/initiator.rs:219-235 | The first message is created in the first state only. |
| `EdhocVerdicts.ExportVerdict` | src/edhoc/initiator.rs:469-482 | On both sides: export is refused before completion and without a key, and otherwise only for equal identifiers. |
| `EdhocVerdicts.WipingLeaves` | src/edhoc/initiator.rs:95-107 | What wiping sets to zero on both sides, and what it leaves. |
| `EdhocInitiator.EdhocInitiator.ExportOscore` | src/edhoc/initiator.rs:469-482 | Export only after completion: an inactive context, sender C_R, recipient C_I. |
| `EdhocResponder.EdhocResponder.ProcessMessage1` | src/edhoc/responder.rs:221-357 | Field by field, the early write of the peer's key included: answer and state after success, the states after each failure. |
| `EdhocResponder.EdhocResponder.BeginProcessMessage3` | src/edhoc/responder.rs:383-449 | Decryption and parsing; every failure after the first check poisons. |
| `EdhocResponder.EdhocResponder.FinishProcessMessage3` | src/edhoc/responder.rs:452-509 | Verification and completion; every failure poisons. |
| `EdhocVerdicts.Message1Verdict` | src/edhoc/responder.rs:221-279 | A first message gets to the shared secret exactly if it is 37 to 64 bytes of method 0, suites that select 0, a key and a one-byte identifier. |
| `EdhocVerdicts.Message1Refusals` | src/edhoc/responder.rs:221-256 | When a first message is too long and when its suite is not supported. |
| `EdhocVerdicts.Accept1Verdict` | src/edhoc/responder.rs:221-357 | State and answer after each kind of first message. |
| `EdhocVerdicts.Open3Verdict` | src/edhoc/responder.rs:383-442 | A third message opens exactly if it is one byte string whose content opens under the third key to a reference and a signature of the right length. |
| `EdhocVerdicts.Open3Refusals` | src/edhoc/responder.rs:389-433 | Which third message is malformed, too large, or refused by the AEAD. |
| `EdhocVerdicts.Begin3Verdict` | src/edhoc/responder.rs:383-449 | Past the check of the state every failure wipes. |
| `EdhocVerdicts.Finish3Verdict` | src/edhoc/responder.rs:452-509 | The second half completes exactly for a peer that passes the check and a verified signature, and wipes otherwise. |
| `EdhocResponder.EdhocResponder.ExportOscore` | src/edhoc/responder.rs:516-530 | Export only after completion: an inactive context, sender C_I, recipient C_R. |
| `EdhocAgreement.LastIdentifierReads` | src/edhoc/responder.rs:263-279 | The responder reads exactly the one-byte identifiers that are not sent as negative integers. |
| `EdhocAgreement.ResponderAnswers` | src/edhoc/responder.rs:221-357 | On an honest first message the responder answers exactly for an acceptable, different identifier and a nonzero shared secret, and its state and message are known completely. |
| `EdhocAgreement.InitiatorOpens` | src/edhoc/initiator.rs:267-357 | The initiator recovers the responder's plaintext and identifier as it reads it, unless that equals its own. |
| `EdhocAgreement.RunCompletes` | src/edhoc/initiator.rs:360-462 | With compatible identifiers every call of the undisturbed run succeeds. |
| `EdhocAgreement.MisreadIdentifierPreventsAgreement` | src/edhoc/cbor.rs:106-112 | A responder identifier 0x20 to 0x37 never leads to agreement. |
| `EdhocAgreement.HandshakeAgreement` | src/edhoc/kdf.rs:109-143 | An undisturbed handshake between fresh parties ends with equal keys and transcripts and mirrored OSCORE contexts if and only if the identifiers are one byte, different and outside 0x20 to 0x37, and neither the shared secret nor the extracted key is zero. |
| `EdhocAgreement.HandshakeThenRequest` | src/edhoc/initiator.rs:469-482 | After such a handshake a request protected by the initiator is recovered by the responder. |
| `EdhocAuthentication.CompletionAuthenticatesResponder` | src/edhoc/initiator.rs:360-405 | An initiator completes only if the peer's key accepts the signature in the second message on this session's transcript, reference and credential, under a MAC expanded from label 2 and the bytes of C_R, reference, TH_2 and credential, with the C_R it adopts. |
| `EdhocAuthentication.CompletionAuthenticatesInitiator` | src/edhoc/responder.rs:452-509 | The same for the responder, the third message and TH_3. |
| `EdhocAuthentication.CompletedInitiatorHasPeer` | src/edhoc/initiator.rs:360-405 | If the one signature presented is not forged and neither the hash nor `expand` collides on the inputs compared, a completed initiator has a session of that responder with the same first message, ephemeral key, connection identifier and derived key. |
| `EdhocAuthentication.CompletedResponderHasPeer` | src/edhoc/responder.rs:452-509 | Under the same conditions a completed responder has a session of that initiator with the same transcript, second plaintext, credential and derived key. |
| `EdhocAuthentication.HonestRunIsUnforged` | src/edhoc/initiator.rs:360-405 | In the undisturbed run the signature presented is the responder's own on its own session, so the conditions above are met. |
| `EdhocAuthentication.HonestAnswerIsUnforged` | src/edhoc/responder.rs:452-509 | The same for the third message. |
| `EdhocLifecycle.InitiatorOverAllRuns` | src/edhoc/initiator.rs:267-489 | Over every sequence of calls: the ephemeral secret is held in the first two states only, Diffie-Hellman runs at most once, completed means `Complete`, failed means wiped. |
| `EdhocLifecycle.EveryInitiatorRun` | src/edhoc/initiator.rs:200-216 | The same from creation, whatever is called. |
| `EdhocLifecycle.InitiatorConsultsDhOnce` | src/edhoc/initiator.rs:293-297 | A call that does not get to Diffie-Hellman has the same effect with any other function in its place; one that does depends on it at one point only, the own secret and the received key. |
| `EdhocLifecycle.InitiatorStaysDead` | src/edhoc/initiator.rs:484-489 | From a failed or wiped state no sequence of calls leads out, or makes any key or hash nonzero. |
| `EdhocLifecycle.InitiatorExportsOnlyWhenComplete` | src/edhoc/initiator.rs:469-482 | Export succeeds in `Complete` only, and only an explicit wipe changes a complete initiator. |
| `EdhocLifecycle.ResponderOverAllRuns` | src/edhoc/responder.rs:213-357 | The same for the responder, which holds its secret in `Created` only. |
| `EdhocLifecycle.EveryResponderRun` | src/edhoc/responder.rs:173-187 | The same from creation. |
| `EdhocLifecycle.ResponderConsultsDhOnce` | src/edhoc/responder.rs:285-289 | The same dependence on Diffie-Hellman for the responder. |
| `EdhocLifecycle.ResponderStaysDead` | src/edhoc/responder.rs:213-218 | A failed or wiped responder stays so. |
| `EdhocLifecycle.ResponderExportsOnlyWhenComplete` | src/edhoc/responder.rs:452-530 | A complete responder survives exactly the calls other than another finish or a wipe; another finish destroys it. |
| `EdhocLifecycle.InitiatorRetry` | src/edhoc/initiator.rs:267-300 | The initiator can be called again exactly after a message refused before Diffie-Hellman that is no error message, and then nothing has changed. |
| `EdhocLifecycle.ResponderRetry` | src/edhoc/responder.rs:221-295 | The responder likewise, except for the peer key left behind. |
| `EdhocLifecycle.LeftoverKeyIsIrrelevant` | src/edhoc/responder.rs:261 | That leftover changes no later answer and no state reached through an answer. |
| `EdhocLifecycle.ResponderRetryIsTransparent` | src/edhoc/responder.rs:221-295 | Any number of refused first messages changes neither the later answer nor the state after it. |
| `EdhocLifecycle.InitiatorRetryIsTransparent` | src/edhoc/initiator.rs:267-300 | Any number of refused second messages changes nothing. |
| `EdhocLifecycle.NoiseIsHarmless` | src/edhoc/responder.rs:221-295 | The undisturbed run and the run with refused messages in front end alike, whatever the parties. |

## Left out

- AES-CCM, HKDF, SHA-256, X25519 and the signature schemes: fields of the record `Crypto`. A theorem that needs their
  correctness asks for `Sound`, which says that sizes are right, decryption inverts encryption, Diffie-Hellman commutes
  and verification accepts signatures. Hash and AEAD collisions are never excluded: results that depend on them are
  stated about the bytes that go in, or as a reduction.
- MessageTheorems.ResponseAcceptedOnlyAsSent: the condition on the AEAD is about the one attempt the receiver makes, since with a
  tag of 8 bytes no AEAD opens each ciphertext under one piece of associated data only.
- EdhocAuthentication.CompletedInitiatorHasPeer: the condition on signatures is about the one presented, and the condition on the
  hash about the inputs compared.
- SenderRuns.NoncesNeverRepeat: about contexts with one context identifier; different sender sides get different
  identifiers up to hash collisions.
- SenderRuns.NoViewIsSafe: for a context that registered, its own window of answered requests is not part of the view.
- ReplayRuns.AtMostOnceAcrossRestarts: assumes one live recipient per stored record.
- Random numbers and entropy errors: seeds and ephemeral secrets are arguments of the constructors.
- Wiping memory on drop; the explicit wipe and the poisoned state are modelled as field values.
- Exclusive borrows: a `ReservedSender` is used once by its `used` flag, and a `PendingResponse` is committed under the
  condition that its context has not changed.
- Fixed-capacity buffers are byte strings with a capacity check at each append.
- A panic on 16-bit overflow inside `Context` methods: they are modelled for builds without overflow checks; the walker itself
  is modelled for both.
- The preflight methods, which compare lengths with constants and change nothing; the accessors; and `request_identifiers`
  and `validate_option`, which return part of what `parse_option` returns.
- Constructors for tests (`new_ephemeral`, `restore`, `restore_for_vectors`): they bypass the store.
- `validate_deterministic_item`, `copy_id_cred_value`: compiled for tests only.
- The files of `src/` that `lib.rs` does not declare as modules: not part of the crate.
- The limit of the call stack for nested arrays in `skip_cbor_value`.
