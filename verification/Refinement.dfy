/**
 * The objects and the transition systems agree: what a call on a context and a store does is one step of `SenderRuns`
 * or of `ReplayRuns`, and the nonce it encrypts under is the one those runs speak about.
 */
module Refinement {
  import opened Bytes
  import opened SeqNumber
  import opened Window
  import opened Nonce
  import opened Crypto
  import opened OscoreCbor
  import opened Message
  import opened Durable
  import opened Context
  import SenderRuns
  import ReplayRuns

  // Nonces

  /** The associated data of request `n`. */
  function RequestAad(m: Material, n: SeqNum): bytes
    requires WellFormed(m)
  {
    OptionsValid(m, n);
    Aad(m.senderId, PivBytes(n))
  }

  /** The nonce of a released encryption is the one its ciphertext was sealed under. */
  lemma RequestNonce(c: Crypto, m: Material, n: SeqNum, p: Plain)
    requires WellFormed(m) && SealRequest(c, m, n, p).Ok?
    ensures SealRequest(c, m, n, p).value.0
            == c.seal(m.senderKey, SenderRuns.NonceOfRelease(SenderRuns.Release(m.senderId, n), m.commonIv),
                      RequestAad(m, n), Plaintext(p))
  {
    OptionsValid(m, n);
  }

  lemma ResponseWithPivNonce(c: Crypto, m: Material, n: SeqNum, kid: bytes, requestPiv: bytes, p: Plain)
    requires WellFormed(m) && SealResponseWithPiv(c, m, n, kid, requestPiv, p).Ok?
    ensures |kid| <= NONCE_ID_LEN && |requestPiv| <= PIV_MAX_LEN
    ensures SealResponseWithPiv(c, m, n, kid, requestPiv, p).value.0
            == c.seal(m.senderKey, SenderRuns.NonceOfRelease(SenderRuns.Release(m.senderId, n), m.commonIv),
                      Aad(kid, requestPiv), Plaintext(p))
  {
    OptionsValid(m, n);
  }

  lemma ResponseNoPivNonce(c: Crypto, m: Material, kid: bytes, requestPiv: bytes, p: Plain)
    requires WellFormed(m) && SealResponseNoPiv(c, m, kid, requestPiv, p).Ok?
    ensures SeqNumber.Decode(requestPiv).Some? && kid == m.recipientId
    ensures SealResponseNoPiv(c, m, kid, requestPiv, p).value.0
            == c.seal(m.senderKey,
                      SenderRuns.NonceOfRelease(SenderRuns.Release(kid, SeqNumber.Decode(requestPiv).value), m.commonIv),
                      Aad(kid, requestPiv), Plaintext(p))
  {
    EncodeInvertsDecode(requestPiv);
  }

  /** Objects whose identifiers agree share key and Common IV, unless the hash collides on their two descriptions. */
  lemma ContextsOfOneRecord(a: Context, b: Context)
    requires a.Valid() && b.Valid() && a.crypto == b.crypto && a.contextId == b.contextId
    requires a.crypto.hash(ContextIdInput(a.material)) == a.crypto.hash(ContextIdInput(b.material)) ==>
               ContextIdInput(a.material) == ContextIdInput(b.material)
    ensures a.material.senderKey == b.material.senderKey && a.material.commonIv == b.material.commonIv
    ensures a.material.senderId == b.material.senderId
  {
    hide ContextIdInput, Derived;
    OneRecordOneKey(a.crypto, a.material, b.material);
  }

  // Sending

  /** Context `i` of the run is this object, and the run's record is the one in the store. */
  ghost predicate Mirrors(s: SenderRuns.State, i: nat, context: Context, store: Store, reserved: Option<SeqNum>)
    reads context, store
  {
    && i in s.live && s.live[i].sender == context.SenderView() && s.live[i].peer == context.material.recipientId
    && s.live[i].reserved == reserved && s.record == store.Record(context.contextId)
  }

  /** A context that registers successfully takes the registration step; otherwise it is consumed. */
  method Register(context: Context, store: Store, fault: Fault, ghost s: SenderRuns.State, ghost i: nat)
    returns (r: Result<(), ContextStoreError>)
    requires context.Valid() && Mirrors(s, i, context, store, None)
    modifies context`active, context`allowNoPivResponse, store`senders
    ensures var s' := SenderRuns.Next(s, context.material.senderId, SenderRuns.DoRegister(i, fault));
            && s'.record == store.Record(context.contextId)
            && (r.Ok? ==> Mirrors(s', i, context, store, None))
            && (r.Err? ==> i !in s'.live)
  {
    r := context.RegisterFresh(store, fault);
  }

  method Restore(context: Context, store: Store, senderFails: bool, recipientFails: bool,
                 ghost s: SenderRuns.State, ghost i: nat)
    returns (r: Result<(), ContextStoreError>)
    requires context.Valid() && Mirrors(s, i, context, store, None)
    modifies context
    ensures var saved := store.Recipient(context.contextId);
            var responses := if saved.Some? then Some(Restored(saved.value).responses) else None;
            var s' := SenderRuns.Next(s, context.material.senderId,
                                      SenderRuns.DoRestore(i, senderFails || recipientFails, responses));
            && s'.record == store.Record(context.contextId)
            && (r.Ok? ==> Mirrors(s', i, context, store, None))
            && (r.Err? ==> i !in s'.live)
  {
    hide Restored, Sizes, WellFormed, Derived;
    r := context.RestoreExisting(store, senderFails, recipientFails);
  }

  method Reserve(context: Context, store: Store, fault: Fault, ghost s: SenderRuns.State, ghost i: nat)
    returns (r: Result<ReservedSender, ReservationError>)
    requires context.Valid() && Mirrors(s, i, context, store, None)
    modifies context`senderSeq, context`senderSeqExhausted, store`senders
    ensures var s' := SenderRuns.Next(s, context.material.senderId, SenderRuns.DoReserve(i, fault));
            && Mirrors(s', i, context, store, if r.Ok? then Some(r.value.sequence) else None)
            && (r.Ok? ==> fresh(r.value) && r.value.context == context && !r.value.used)
  {
    hide Sizes, WellFormed, Derived;
    r := context.ReserveSender(store, fault);
  }

  /** Using a reservation releases its number; a buffer that is too small only discards it. */
  method EncryptRequest(reserved: ReservedSender, store: Store, p: Plain, ghost s: SenderRuns.State, ghost i: nat)
    returns (r: Result<(bytes, bytes), OscoreError>)
    requires reserved.context.Valid() && !reserved.used
    requires Mirrors(s, i, reserved.context, store, Some(reserved.sequence))
    modifies reserved
    ensures var m, c := reserved.context.material, reserved.context.crypto;
            var s' := SenderRuns.Next(s, m.senderId, if r.Ok? then SenderRuns.Encrypt(i) else SenderRuns.Discard(i));
            && Mirrors(s', i, reserved.context, store, None)
            && (r.Ok? ==>
                  var release := SenderRuns.Release(m.senderId, reserved.sequence);
                  && s'.log == s.log + [release]
                  && r.value.0 == c.seal(m.senderKey, SenderRuns.NonceOfRelease(release, m.commonIv),
                                         RequestAad(m, reserved.sequence), Plaintext(p)))
  {
    hide SealRequest, Sizes, Derived, RequestAad, Plaintext, SenderRuns.NonceOfRelease;
    r := reserved.ProtectRequest(p);
    if r.Ok? {
      RequestNonce(reserved.context.crypto, reserved.context.material, reserved.sequence, p);
    }
  }

  method EncryptResponse(reserved: ReservedSender, store: Store, p: Plain, kid: bytes, requestPiv: bytes,
                         ghost s: SenderRuns.State, ghost i: nat)
    returns (r: Result<(bytes, bytes), OscoreError>)
    requires reserved.context.Valid() && !reserved.used
    requires Mirrors(s, i, reserved.context, store, Some(reserved.sequence))
    modifies reserved
    ensures var m, c := reserved.context.material, reserved.context.crypto;
            var s' := SenderRuns.Next(s, m.senderId, if r.Ok? then SenderRuns.Encrypt(i) else SenderRuns.Discard(i));
            && Mirrors(s', i, reserved.context, store, None)
            && (r.Ok? ==>
                  var release := SenderRuns.Release(m.senderId, reserved.sequence);
                  && s'.log == s.log + [release] && |kid| <= NONCE_ID_LEN && |requestPiv| <= PIV_MAX_LEN
                  && r.value.0 == c.seal(m.senderKey, SenderRuns.NonceOfRelease(release, m.commonIv),
                                         Aad(kid, requestPiv), Plaintext(p)))
  {
    hide SealResponseWithPiv, Sizes, Derived, Aad, Plaintext, SenderRuns.NonceOfRelease;
    r := reserved.ProtectResponseWithPiv(p, kid, requestPiv);
    if r.Ok? {
      ResponseWithPivNonce(reserved.context.crypto, reserved.context.material, reserved.sequence, kid, requestPiv, p);
    }
  }

  /** A response under the request's nonce releases the peer's identifier with the request's number, or nothing. */
  method AnswerNoPiv(context: Context, store: Store, p: Plain, kid: bytes, requestPiv: bytes,
                     ghost s: SenderRuns.State, ghost i: nat)
    returns (r: Result<(bytes, bytes), OscoreError>)
    requires context.Valid() && Mirrors(s, i, context, store, None)
    modifies context`senderSeq, context`responseSeq, context`responseWindow, context`responseWindowInitialized
    ensures r.Err? ==> Mirrors(s, i, context, store, None)
    ensures r.Ok? ==> SeqNumber.Decode(requestPiv).Some? && |kid| <= NONCE_ID_LEN && |requestPiv| <= PIV_MAX_LEN
    ensures r.Ok? ==>
              var m, c := context.material, context.crypto;
              var request := SeqNumber.Decode(requestPiv).value;
              var release := SenderRuns.Release(kid, request);
              var s' := SenderRuns.Next(s, m.senderId, SenderRuns.AnswerNoPiv(i, request));
              && Mirrors(s', i, context, store, None) && s'.log == s.log + [release]
              && r.value.0 == c.seal(m.senderKey, SenderRuns.NonceOfRelease(release, m.commonIv),
                                     Aad(kid, requestPiv), Plaintext(p))
  {
    hide SealResponseNoPiv, SealResponseWithPiv, Sizes, Derived, Aad, Plaintext, SenderRuns.NonceOfRelease;
    r := context.ProtectResponse(p, kid, requestPiv, false);
    if r.Ok? {
      ResponseNoPivNonce(context.crypto, context.material, kid, requestPiv, p);
    }
  }

  /** A response under the object's own number, without the store: the step the theorem on nonces leaves out. */
  method AnswerStoreless(context: Context, store: Store, p: Plain, kid: bytes, requestPiv: bytes,
                         ghost s: SenderRuns.State, ghost i: nat)
    returns (r: Result<(bytes, bytes), OscoreError>)
    requires context.Valid() && Mirrors(s, i, context, store, None)
    modifies context`senderSeq, context`responseSeq, context`responseWindow, context`responseWindowInitialized
    ensures r.Ok? ==>
              var s' := SenderRuns.Next(s, context.material.senderId, SenderRuns.AnswerStoreless(i));
              && Mirrors(s', i, context, store, None)
              && s'.log == s.log + [SenderRuns.Release(context.material.senderId, old(context.senderSeq))]
  {
    hide SealResponseNoPiv, SealResponseWithPiv, Sizes, Derived;
    r := context.ProtectResponse(p, kid, requestPiv, true);
  }

  // Receiving

  /** The run's live window is the request window of this object, and its saved window the one in the store. */
  ghost predicate MirrorsReplay(st: ReplayRuns.State, context: Context, store: Store)
    reads context, store
  {
    var saved := store.Recipient(context.contextId);
    && st.live == Some(context.RequestWindow())
    && st.saved == if saved.Some? then Some(Restored(saved.value).requests) else None
  }

  /** An accepted request is one arrival, logged; a refused one changes nothing. */
  method Receive(context: Context, store: Store, option: bytes, ct: bytes, ghost st: ReplayRuns.State)
    returns (r: Result<Plain, OscoreError>, ghost st': ReplayRuns.State)
    requires context.Valid() && MirrorsReplay(st, context, store)
    modifies context`recipientSeq, context`replayWindow
    ensures MirrorsReplay(st', context, store)
    ensures r.Err? ==> st' == st
    ensures r.Ok? ==>
              var opened' := OpenRequest(context.crypto, context.material, old(context.RequestWindow()), option, ct);
              && opened'.Ok? && st' == ReplayRuns.Next(st, FRESH_REQUEST_WINDOW, ReplayRuns.Receive(opened'.value.0))
              && st'.log == st.log + [opened'.value.0]
  {
    hide OpenRequest, Restored, Sizes, WellFormed, Derived;
    ghost var opened' := OpenRequest(context.crypto, context.material, context.RequestWindow(), option, ct);
    r := context.UnprotectRequest(option, ct);
    st' := if opened'.Ok? then ReplayRuns.Next(st, FRESH_REQUEST_WINDOW, ReplayRuns.Receive(opened'.value.0)) else st;
  }

  /** Saving the snapshot of all four windows saves the one this run is about. */
  method Save(context: Context, store: Store, ghost st: ReplayRuns.State)
    requires context.Valid() && MirrorsReplay(st, context, store)
    modifies store`recipients
    ensures MirrorsReplay(ReplayRuns.Next(st, FRESH_REQUEST_WINDOW, ReplayRuns.Save), context, store)
  {
    RestoreInvertsSnapshot(context.AllWindows());
    store.SaveRecipient(context.contextId, Snapshot(context.AllWindows()));
  }

  /** A new object that restores boots the run from what was saved, or from an empty window. */
  method Boot(context: Context, store: Store, ghost st: ReplayRuns.State) returns (r: Result<(), ContextStoreError>)
    requires context.Valid() && context.AllWindows() == FRESH_WINDOWS && st.live.None?
    requires var saved := store.Recipient(context.contextId);
             st.saved == if saved.Some? then Some(Restored(saved.value).requests) else None
    modifies context
    ensures r.Ok? ==> MirrorsReplay(ReplayRuns.Next(st, FRESH_REQUEST_WINDOW, ReplayRuns.Boot), context, store)
  {
    hide Restored, Sizes, WellFormed, Derived, Durable.Restore;
    r := context.RestoreExisting(store, false, false);
  }
}
