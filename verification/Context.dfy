/** The OSCORE security context, its durable store, and the two capabilities it hands out. */
module Context {
  import opened Bytes
  import opened SeqNumber
  import opened Window
  import opened Nonce
  import opened Crypto
  import opened OscoreCbor
  import opened CoapBody
  import opened Message
  import opened Durable
  import OscoreOption

  type ContextId = bytes

  /** The ASCII bytes of the domain separator hashed into every context identifier. */
  const CONTEXT_LABEL: bytes := [
    0x4C, 0x49, 0x43, 0x48, 0x45, 0x4E, 0x20, 0x4F, 0x53, 0x43, 0x4F, 0x52, 0x45, 0x20,
    0x73, 0x65, 0x6E, 0x64, 0x65, 0x72, 0x20, 0x63, 0x6F, 0x6E, 0x74, 0x65, 0x78, 0x74, 0x00]

  /** A field preceded by its one-byte length. */
  function Field(data: bytes): bytes
    requires |data| <= 0xFF
  {
    [|data|] + data
  }

  function OptionalField(data: Option<bytes>): bytes
    requires data.Some? ==> |data.value| <= 0xFF
  {
    if data.Some? then [1] + Field(data.value) else [0]
  }

  predicate ShortFields(m: Material) {
    && |m.masterSecret| <= 0xFF && |m.masterSalt| <= 0xFF && |m.senderId| <= 0xFF
    && (m.idContext.Some? ==> |m.idContext.value| <= 0xFF)
  }

  function ContextIdInput(m: Material): bytes
    requires ShortFields(m)
  {
    CONTEXT_LABEL + Field(m.masterSecret) + Field(m.masterSalt) + OptionalField(m.idContext) + Field(m.senderId)
  }

  /** The identifier of a directional sender context: the recipient does not enter it. */
  function DeriveContextId(c: Crypto, m: Material): ContextId
    requires ShortFields(m)
  {
    c.hash(ContextIdInput(m))
  }

  lemma FieldPrefixFree(x: bytes, y: bytes, s: bytes, t: bytes)
    requires |x| <= 0xFF && |y| <= 0xFF && Field(x) + s == Field(y) + t
    ensures x == y && s == t
  {
    assert (Field(x) + s)[0] == |x| && (Field(y) + t)[0] == |y|;
    ConcatCancelsLeft(Field(x), s, Field(y), t);
    assert Field(x)[1..] == x && Field(y)[1..] == y;
  }

  lemma FirstOfOptional(x: Option<bytes>, s: bytes)
    requires x.Some? ==> |x.value| <= 0xFF
    ensures (OptionalField(x) + s)[0] == if x.Some? then 1 else 0
    ensures (OptionalField(x) + s)[1..] == if x.Some? then Field(x.value) + s else s
  {
  }

  lemma OptionalFieldPrefixFree(x: Option<bytes>, y: Option<bytes>, s: bytes, t: bytes)
    requires (x.Some? ==> |x.value| <= 0xFF) && (y.Some? ==> |y.value| <= 0xFF)
    requires OptionalField(x) + s == OptionalField(y) + t
    ensures x == y && s == t
  {
    hide Field;
    FirstOfOptional(x, s);
    FirstOfOptional(y, t);
    if x.Some? {
      FieldPrefixFree(x.value, y.value, s, t);
    }
  }

  /** Two contexts have one durable record, unless the hash collides, exactly when they share their sender side. */
  lemma ContextIdNamesSenderSide(a: Material, b: Material)
    requires ShortFields(a) && ShortFields(b)
    ensures ContextIdInput(a) == ContextIdInput(b)
            <==> a.masterSecret == b.masterSecret && a.masterSalt == b.masterSalt
                 && a.idContext == b.idContext && a.senderId == b.senderId
  {
    hide Field, OptionalField;
    if ContextIdInput(a) == ContextIdInput(b) {
      var a2, b2 := OptionalField(a.idContext) + (Field(a.senderId) + []), OptionalField(b.idContext) + (Field(b.senderId) + []);
      var a1, b1 := Field(a.masterSecret) + (Field(a.masterSalt) + a2), Field(b.masterSecret) + (Field(b.masterSalt) + b2);
      assert ContextIdInput(a) == CONTEXT_LABEL + a1;
      assert ContextIdInput(b) == CONTEXT_LABEL + b1;
      ConcatCancelsLeft(CONTEXT_LABEL, a1, CONTEXT_LABEL, b1);
      FieldPrefixFree(a.masterSecret, b.masterSecret, Field(a.masterSalt) + a2, Field(b.masterSalt) + b2);
      FieldPrefixFree(a.masterSalt, b.masterSalt, a2, b2);
      OptionalFieldPrefixFree(a.idContext, b.idContext, Field(a.senderId) + [], Field(b.senderId) + []);
      FieldPrefixFree(a.senderId, b.senderId, [], []);
    }
  }

  /** The keys and the Common IV are the ones derived from the inputs. */
  predicate Derived(c: Crypto, m: Material) {
    NewMaterial(c, m.masterSecret, m.masterSalt, m.idContext, m.senderId, m.recipientId) == Ok(m)
  }

  /** So contexts with one record encrypt under one key and one Common IV. */
  lemma OneRecordOneKey(c: Crypto, a: Material, b: Material)
    requires ShortFields(a) && ShortFields(b) && ContextIdInput(a) == ContextIdInput(b)
    requires Derived(c, a) && Derived(c, b)
    ensures a.senderKey == b.senderKey && a.commonIv == b.commonIv && a.senderId == b.senderId
  {
    hide ContextIdInput;
    ContextIdNamesSenderSide(a, b);
  }

  /** Snapshot of the recipient-side windows, as persisted. */
  datatype RecipientReplayState = RecipientReplayState(
    recipientSeq: nat, replayWindow: Word32,
    responseSeq: nat, responseWindow: Word32, responseInitialized: bool,
    receivedSeq: nat, receivedWindow: Word32, receivedInitialized: bool,
    receivedPivSeq: nat, receivedPivWindow: Word32, receivedPivInitialized: bool)

  /** The four windows of a context, by what they guard. */
  datatype Windows = Windows(requests: Window, responses: Window, received: Window, receivedPivs: Window)

  const FRESH_WINDOWS := Windows(FRESH_REQUEST_WINDOW, FRESH_WINDOW, FRESH_WINDOW, FRESH_WINDOW)

  function Snapshot(w: Windows): RecipientReplayState {
    RecipientReplayState(
      w.requests.top, w.requests.bits,
      w.responses.top, w.responses.bits, w.responses.initialized,
      w.received.top, w.received.bits, w.received.initialized,
      w.receivedPivs.top, w.receivedPivs.bits, w.receivedPivs.initialized)
  }

  /** A stored number beyond 40 bits reads as zero. */
  function OrDefault(n: nat): SeqNum {
    if n <= MAX then n else 0
  }

  function Restored(s: RecipientReplayState): Windows {
    Windows(
      Window(OrDefault(s.recipientSeq), s.replayWindow, true),
      Window(OrDefault(s.responseSeq), s.responseWindow, s.responseInitialized),
      Window(OrDefault(s.receivedSeq), s.receivedWindow, s.receivedInitialized),
      Window(OrDefault(s.receivedPivSeq), s.receivedPivWindow, s.receivedPivInitialized))
  }

  /** Which stored field is which window's, and what becomes of a stored number that is too large. */
  lemma StoredFields(w: Windows, s: RecipientReplayState)
    ensures var t := Snapshot(w);
            && (t.recipientSeq, t.replayWindow) == (w.requests.top, w.requests.bits)
            && (t.responseSeq, t.responseWindow, t.responseInitialized)
               == (w.responses.top, w.responses.bits, w.responses.initialized)
            && (t.receivedSeq, t.receivedWindow, t.receivedInitialized)
               == (w.received.top, w.received.bits, w.received.initialized)
            && (t.receivedPivSeq, t.receivedPivWindow, t.receivedPivInitialized)
               == (w.receivedPivs.top, w.receivedPivs.bits, w.receivedPivs.initialized)
    ensures s.recipientSeq > MAX ==> Restored(s).requests == Window(0, s.replayWindow, true)
    ensures s.responseSeq > MAX ==> Restored(s).responses == Window(0, s.responseWindow, s.responseInitialized)
    ensures s.receivedSeq > MAX ==> Restored(s).received == Window(0, s.receivedWindow, s.receivedInitialized)
    ensures s.receivedPivSeq > MAX ==> Restored(s).receivedPivs == Window(0, s.receivedPivWindow, s.receivedPivInitialized)
  {
  }

  /** Saving and restoring loses nothing of any of the four windows. */
  lemma RestoreInvertsSnapshot(w: Windows)
    requires w.requests.initialized
    ensures Restored(Snapshot(w)) == w
  {
  }

  class Store {
    var senders: map<ContextId, SenderState>
    var recipients: map<ContextId, RecipientReplayState>

    constructor ()
      ensures senders == map[] && recipients == map[]
    {
      senders, recipients := map[], map[];
    }

    function Record(id: ContextId): Option<SenderState>
      reads this
    {
      if id in senders then Some(senders[id]) else None
    }

    function Recipient(id: ContextId): Option<RecipientReplayState>
      reads this
    {
      if id in recipients then Some(recipients[id]) else None
    }

    /** Atomically replace `expected` with `next` for exactly `id`. */
    method CompareExchangeSender(id: ContextId, expected: Option<SenderState>, next: SenderState, fault: Fault)
      returns (r: CasResult)
      modifies this`senders
      ensures (Record(id), r) == Cas(old(Record(id)), expected, next, fault)
      ensures forall other :: other != id ==> Record(other) == old(Record(other))
    {
      if fault.FailedBefore? {
        return Failed;
      }
      if Record(id) != expected {
        return if fault.FailedAfter? then Failed else Mismatch;
      }
      senders := senders[id := next];
      return if fault.FailedAfter? then Failed else Swapped;
    }

    method SaveRecipient(id: ContextId, state: RecipientReplayState)
      modifies this`recipients
      ensures Recipient(id) == Some(state)
      ensures forall other :: other != id ==> Recipient(other) == old(Recipient(other))
    {
      recipients := recipients[id := state];
    }
  }

  /** The windows after an acceptance: the responder's number if there was one, the request if it is consumed. */
  ghost predicate AcceptsExactly(before: Windows, after: Windows, message: Opened, markRequest: bool) {
    && after.requests == before.requests && after.responses == before.responses
    && (if message.responseSeq.Some?
        then !Reused(before.receivedPivs, message.responseSeq.value)
             && after.receivedPivs == Mark(before.receivedPivs, message.responseSeq.value)
        else after.receivedPivs == before.receivedPivs)
    && (if markRequest
        then !Reused(before.received, message.requestSeq)
             && after.received == Mark(before.received, message.requestSeq)
        else after.received == before.received)
  }

  class Context {
    const crypto: Crypto
    const material: Material
    const contextId: ContextId

    var senderSeq: SeqNum
    var senderSeqExhausted: bool
    var restored: bool
    var active: bool
    var recipientSeq: SeqNum
    var replayWindow: Word32
    var responseSeq: SeqNum
    var responseWindow: Word32
    var responseWindowInitialized: bool
    var receivedResponseSeq: SeqNum
    var receivedResponseWindow: Word32
    var receivedResponseWindowInitialized: bool
    var receivedResponsePivSeq: SeqNum
    var receivedResponsePivWindow: Word32
    var receivedResponsePivWindowInitialized: bool
    var allowNoPivResponse: bool

    ghost predicate Valid()
      reads this
    {
      && Sizes(crypto) && WellFormed(material) && (senderSeqExhausted ==> senderSeq == MAX)
      && Derived(crypto, material) && ShortFields(material) && contextId == DeriveContextId(crypto, material)
    }

    function RequestWindow(): Window
      reads this
    {
      Window(recipientSeq, replayWindow, true)
    }

    function ResponseWindow(): Window
      reads this
    {
      Window(responseSeq, responseWindow, responseWindowInitialized)
    }

    function ReceivedWindow(): Window
      reads this
    {
      Window(receivedResponseSeq, receivedResponseWindow, receivedResponseWindowInitialized)
    }

    function ReceivedPivWindow(): Window
      reads this
    {
      Window(receivedResponsePivSeq, receivedResponsePivWindow, receivedResponsePivWindowInitialized)
    }

    /** The fields that decide which nonces this context may use. */
    function SenderView(): Sender
      reads this
    {
      Sender(senderSeq, senderSeqExhausted, restored, active, allowNoPivResponse, ResponseWindow())
    }

    function AllWindows(): Windows
      reads this
    {
      Windows(RequestWindow(), ResponseWindow(), ReceivedWindow(), ReceivedPivWindow())
    }

    // Construction and durable state

    /** A context from derived material: inactive, sequence zero, windows empty. */
    constructor Init(crypto: Crypto, material: Material)
      requires Sizes(crypto) && WellFormed(material) && Derived(crypto, material) && ShortFields(material)
      ensures Valid() && this.crypto == crypto && this.material == material
      ensures SenderView() == FRESH_SENDER && AllWindows() == FRESH_WINDOWS
    {
      this.crypto := crypto;
      this.material := material;
      this.contextId := DeriveContextId(crypto, material);
      senderSeq, senderSeqExhausted, restored, active, allowNoPivResponse := 0, false, false, false, false;
      recipientSeq, replayWindow := 0, ZeroWord();
      responseSeq, responseWindow, responseWindowInitialized := 0, ZeroWord(), false;
      receivedResponseSeq, receivedResponseWindow, receivedResponseWindowInitialized := 0, ZeroWord(), false;
      receivedResponsePivSeq, receivedResponsePivWindow := 0, ZeroWord();
      receivedResponsePivWindowInitialized := false;
    }

    /** Derive a key or an IV through the info structure in a 64-byte buffer. */
    static method Derive(c: Crypto, secret: bytes, salt: bytes, id: bytes, idContext: Option<bytes>, kind: bytes, n: nat)
      returns (okm: bytes)
      requires |id| <= 23 && (idContext.Some? ==> |idContext.value| <= 23) && |kind| <= 3 && n <= 23
      ensures okm == c.expand(c.extract(salt, secret), Info(id, idContext, kind, n), n)
    {
      var info := new byte[64];
      var len := BuildInfoCbor(id, idContext, kind, n, info);
      okm := c.expand(c.extract(salt, secret), info[..len.value], n);
    }

    /** `Context::new`: check the lengths, then derive both keys and the Common IV. */
    static method New(c: Crypto, secret: bytes, salt: bytes, idContext: Option<bytes>, senderId: bytes, recipientId: bytes)
      returns (r: Result<Context, OscoreError>)
      requires Sizes(c) && |secret| == KEY_LEN
      ensures r.Ok? <==> NewMaterial(c, secret, salt, idContext, senderId, recipientId).Ok?
      ensures r.Err? ==> r.error == InvalidParam
      ensures r.Ok? ==> fresh(r.value) && r.value.Valid() && r.value.crypto == c
                        && r.value.material == NewMaterial(c, secret, salt, idContext, senderId, recipientId).value
                        && ShortFields(r.value.material)
                        && r.value.contextId == DeriveContextId(c, r.value.material)
                        && r.value.SenderView() == FRESH_SENDER && r.value.AllWindows() == FRESH_WINDOWS
    {
      if |senderId| > NONCE_ID_LEN || |recipientId| > NONCE_ID_LEN {
        return Err(InvalidParam);
      }
      if |senderId| == 0 && |recipientId| == 0 {
        return Err(InvalidParam);
      }
      if senderId == recipientId {
        return Err(InvalidParam);
      }
      if |salt| > SALT_MAX_LEN {
        return Err(InvalidParam);
      }
      if idContext.Some? && |idContext.value| > OscoreOption.ID_CONTEXT_CAPACITY {
        return Err(InvalidParam);
      }
      var senderKey := Derive(c, secret, salt, senderId, idContext, TYPE_KEY, KEY_LEN);
      var recipientKey := Derive(c, secret, salt, recipientId, idContext, TYPE_KEY, KEY_LEN);
      var commonIv := Derive(c, secret, salt, [], idContext, TYPE_IV, NONCE_LEN);
      var context := new Context.Init(
        c, Material(secret, salt, idContext, senderId, recipientId, senderKey, recipientKey, commonIv));
      return Ok(context);
    }

    /** `Context::new_fresh`, for a context exported by a handshake; it still has to register. */
    static method NewFresh(c: Crypto, secret: bytes, salt: bytes, idContext: Option<bytes>, senderId: bytes, recipientId: bytes)
      returns (r: Result<Context, OscoreError>)
      requires Sizes(c) && |secret| == KEY_LEN
      ensures r.Ok? <==> NewMaterial(c, secret, salt, idContext, senderId, recipientId).Ok?
      ensures r.Err? ==> r.error == InvalidParam
      ensures r.Ok? ==> fresh(r.value) && r.value.Valid() && r.value.crypto == c
                        && r.value.material == NewMaterial(c, secret, salt, idContext, senderId, recipientId).value
                        && r.value.SenderView() == EXPORTED_SENDER && r.value.AllWindows() == FRESH_WINDOWS
    {
      var context :- New(c, secret, salt, idContext, senderId, recipientId);
      context.restored := false;
      context.active := false;
      context.allowNoPivResponse := true;
      return Ok(context);
    }

    /** The reservation that must be durable before transmission. */
    function SenderSequenceState(): SenderState
      reads this
    {
      SenderState(senderSeq, senderSeqExhausted)
    }

    /** Register a newly established context with a single compare-and-swap from nothing. */
    method RegisterFresh(store: Store, fault: Fault) returns (r: Result<(), ContextStoreError>)
      requires Valid()
      modifies this`active, this`allowNoPivResponse, store`senders
      ensures Valid() && AllWindows() == old(AllWindows())
      ensures var (record, s) := Register(old(SenderView()), old(store.Record(contextId)), fault);
              && store.Record(contextId) == record
              && (s.Ok? ==> r == Ok(()) && SenderView() == s.value)
              && (s.Err? ==> r == Err(s.error) && SenderView() == old(SenderView()))
      ensures forall other :: other != contextId ==> store.Record(other) == old(store.Record(other))
    {
      if restored || active {
        return Err(Oscore);
      }
      var swapped := store.CompareExchangeSender(contextId, None, SenderSequenceState(), fault);
      if swapped.Failed? {
        return Err(Storage);
      }
      if swapped.Mismatch? {
        return Err(Conflict);
      }
      active := true;
      allowNoPivResponse := true;
      return Ok(());
    }

    method SetSenderState(state: SenderState) returns (ok: bool)
      modifies this`senderSeq, this`senderSeqExhausted
      ensures ok <==> Adoptable(state)
      ensures ok ==> SenderSequenceState() == state
      ensures !ok ==> SenderSequenceState() == old(SenderSequenceState())
    {
      var sequence := SeqNumber.New(state.nextSequence);
      if sequence.None? {
        return false;
      }
      if state.exhausted && state.nextSequence != MAX {
        return false;
      }
      senderSeq := sequence.value;
      senderSeqExhausted := state.exhausted;
      return true;
    }

    method SetRecipientReplayState(s: RecipientReplayState)
      modifies this`recipientSeq, this`replayWindow, this`responseSeq, this`responseWindow,
               this`responseWindowInitialized, this`receivedResponseSeq, this`receivedResponseWindow,
               this`receivedResponseWindowInitialized, this`receivedResponsePivSeq,
               this`receivedResponsePivWindow, this`receivedResponsePivWindowInitialized
      ensures AllWindows() == Restored(s)
    {
      recipientSeq := OrDefault(s.recipientSeq);
      replayWindow := s.replayWindow;
      responseSeq := OrDefault(s.responseSeq);
      responseWindow := s.responseWindow;
      responseWindowInitialized := s.responseInitialized;
      receivedResponseSeq := OrDefault(s.receivedSeq);
      receivedResponseWindow := s.receivedWindow;
      receivedResponseWindowInitialized := s.receivedInitialized;
      receivedResponsePivSeq := OrDefault(s.receivedPivSeq);
      receivedResponsePivWindow := s.receivedPivWindow;
      receivedResponsePivWindowInitialized := s.receivedPivInitialized;
    }

    /** Activate a context from the state already in its store; either load may fail. */
    method RestoreExisting(store: Store, senderFails: bool, recipientFails: bool)
      returns (r: Result<(), ContextStoreError>)
      requires Valid()
      modifies this
      ensures Valid()
      ensures var saved := store.Recipient(contextId);
              var s := Restore(old(SenderView()), store.Record(contextId), senderFails,
                               if saved.Some? then Some(Restored(saved.value).responses) else None);
              && (r.Ok? <==> s.Ok? && !recipientFails)
              && (r.Ok? ==> SenderView() == s.value
                            && AllWindows() == if saved.Some? then Restored(saved.value) else old(AllWindows()))
              && (r.Err? ==> r.error == if s.Err? then s.error else Storage)
    {
      hide Restored, Sizes, WellFormed, Derived, ShortFields, DeriveContextId;
      if senderFails {
        return Err(Storage);
      }
      var record := store.Record(contextId);
      if record.None? {
        return Err(Missing);
      }
      var ok := SetSenderState(record.value);
      if !ok {
        return Err(Oscore);
      }
      if recipientFails {
        return Err(Storage);
      }
      var saved := store.Recipient(contextId);
      if saved.Some? {
        SetRecipientReplayState(saved.value);
      }
      restored := true;
      active := true;
      allowNoPivResponse := false;
      return Ok(());
    }

    /** Reserve the next sequence number; storage advances before this returns. */
    method ReserveSender(store: Store, fault: Fault) returns (r: Result<ReservedSender, ReservationError>)
      requires Valid()
      modifies this`senderSeq, this`senderSeqExhausted, store`senders
      ensures Valid() && AllWindows() == old(AllWindows())
      ensures var (record, n) := Reserve(old(SenderView()), old(store.Record(contextId)), fault);
              && store.Record(contextId) == record
              && (n.Ok? ==> && r.Ok? && fresh(r.value) && !r.value.used
                            && r.value.context == this && r.value.sequence == n.value
                            && SenderView() == Advance(old(SenderView())))
              && (n.Err? ==> r == Err(n.error) && SenderView() == old(SenderView()))
      ensures forall other :: other != contextId ==> store.Record(other) == old(store.Record(other))
    {
      if !active {
        return Err(ReservationConflict);
      }
      if senderSeqExhausted {
        return Err(SequenceExhausted);
      }
      var sequence := senderSeq;
      var expected := SenderSequenceState();
      var successor := Increment(sequence);
      var next := match successor
        case Some(n) => SenderState(n, false)
        case None => SenderState(MAX, true);
      var swapped := store.CompareExchangeSender(contextId, Some(expected), next, fault);
      if swapped.Failed? {
        return Err(ReservationStorage);
      }
      if swapped.Mismatch? {
        return Err(ReservationConflict);
      }
      senderSeq := next.nextSequence;
      senderSeqExhausted := next.exhausted;
      var reserved := new ReservedSender(this, sequence);
      return Ok(reserved);
    }

    // The four windows

    predicate IsReplay(n: SeqNum)
      reads this
      ensures IsReplay(n) <==> Reused(RequestWindow(), n)
    {
      if n > recipientSeq then false
      else
        var diff := recipientSeq - n;
        if diff >= WINDOW_SIZE then true else TestBit(replayWindow, diff)
    }

    /** Total: a number the check would refuse leaves the window as it is. */
    method UpdateReplayWindow(n: SeqNum)
      modifies this`recipientSeq, this`replayWindow
      ensures RequestWindow() == if Reused(old(RequestWindow()), n) then old(RequestWindow())
                                 else Mark(old(RequestWindow()), n)
    {
      if n > recipientSeq {
        var shift := n - recipientSeq;
        if shift >= WINDOW_SIZE {
          replayWindow := ZeroWord();
        } else {
          replayWindow := ShiftLeft(replayWindow, shift);
        }
        replayWindow := OrBit(replayWindow, 0);
        recipientSeq := n;
      } else {
        var diff := recipientSeq - n;
        if diff < WINDOW_SIZE {
          replayWindow := OrBit(replayWindow, diff);
        }
      }
    }

    predicate IsResponseReuse(n: SeqNum)
      reads this
      ensures IsResponseReuse(n) <==> Reused(ResponseWindow(), n)
    {
      if !responseWindowInitialized || n > responseSeq then false
      else responseSeq - n >= WINDOW_SIZE || TestBit(responseWindow, responseSeq - n)
    }

    /** Only after the check said no: otherwise the shift amount could reach 32 and panic. */
    method MarkResponseUsed(n: SeqNum)
      requires !IsResponseReuse(n)
      modifies this`responseSeq, this`responseWindow, this`responseWindowInitialized
      ensures ResponseWindow() == Mark(old(ResponseWindow()), n)
    {
      if !responseWindowInitialized {
        responseSeq := n;
        responseWindow := OrBit(ZeroWord(), 0);
        responseWindowInitialized := true;
      } else if n > responseSeq {
        var shift := n - responseSeq;
        responseWindow := if shift >= WINDOW_SIZE then OrBit(ZeroWord(), 0)
                          else OrBit(ShiftLeft(responseWindow, shift), 0);
        responseSeq := n;
      } else {
        var diff := responseSeq - n;
        responseWindow := OrBit(responseWindow, diff);
      }
    }

    predicate IsReceivedResponseReuse(n: SeqNum)
      reads this
      ensures IsReceivedResponseReuse(n) <==> Reused(ReceivedWindow(), n)
    {
      if !receivedResponseWindowInitialized || n > receivedResponseSeq then false
      else receivedResponseSeq - n >= WINDOW_SIZE || TestBit(receivedResponseWindow, receivedResponseSeq - n)
    }

    method MarkReceivedResponse(n: SeqNum)
      requires !IsReceivedResponseReuse(n)
      modifies this`receivedResponseSeq, this`receivedResponseWindow, this`receivedResponseWindowInitialized
      ensures ReceivedWindow() == Mark(old(ReceivedWindow()), n)
    {
      if !receivedResponseWindowInitialized {
        receivedResponseSeq := n;
        receivedResponseWindow := OrBit(ZeroWord(), 0);
        receivedResponseWindowInitialized := true;
      } else if n > receivedResponseSeq {
        var shift := n - receivedResponseSeq;
        receivedResponseWindow := if shift >= WINDOW_SIZE then OrBit(ZeroWord(), 0)
                                  else OrBit(ShiftLeft(receivedResponseWindow, shift), 0);
        receivedResponseSeq := n;
      } else {
        var diff := receivedResponseSeq - n;
        receivedResponseWindow := OrBit(receivedResponseWindow, diff);
      }
    }

    predicate IsReceivedResponsePivReuse(n: SeqNum)
      reads this
      ensures IsReceivedResponsePivReuse(n) <==> Reused(ReceivedPivWindow(), n)
    {
      if !receivedResponsePivWindowInitialized || n > receivedResponsePivSeq then false
      else receivedResponsePivSeq - n >= WINDOW_SIZE
           || TestBit(receivedResponsePivWindow, receivedResponsePivSeq - n)
    }

    method MarkReceivedResponsePiv(n: SeqNum)
      requires !IsReceivedResponsePivReuse(n)
      modifies this`receivedResponsePivSeq, this`receivedResponsePivWindow, this`receivedResponsePivWindowInitialized
      ensures ReceivedPivWindow() == Mark(old(ReceivedPivWindow()), n)
    {
      if !receivedResponsePivWindowInitialized {
        receivedResponsePivSeq := n;
        receivedResponsePivWindow := OrBit(ZeroWord(), 0);
        receivedResponsePivWindowInitialized := true;
      } else if n > receivedResponsePivSeq {
        var shift := n - receivedResponsePivSeq;
        receivedResponsePivWindow := if shift >= WINDOW_SIZE then OrBit(ZeroWord(), 0)
                                     else OrBit(ShiftLeft(receivedResponsePivWindow, shift), 0);
        receivedResponsePivSeq := n;
      } else {
        var diff := receivedResponsePivSeq - n;
        receivedResponsePivWindow := OrBit(receivedResponsePivWindow, diff);
      }
    }

    // Protection

    /** Build the plaintext in the ciphertext buffer, encrypt it there and append the tag. */
    method EncryptInto(nonce: bytes, aad: bytes, p: Plain) returns (r: Result<bytes, OscoreError>)
      requires Valid()
      ensures r == if |Plaintext(p)| + TAG_LEN > CT_CAP
                   then Err(BufferTooSmall(|Plaintext(p)| + TAG_LEN, CT_CAP))
                   else Ok(crypto.seal(material.senderKey, nonce, aad, Plaintext(p)))
    {
      hide WellFormed, Derived, ShortFields, DeriveContextId;
      var required := 1 + |p.options| + (if |p.payload| == 0 then 0 else 1 + |p.payload|) + TAG_LEN;
      var tooSmall := BufferTooSmall(required, CT_CAP);
      assert |Plaintext(p)| + TAG_LEN == required;
      var ct: bytes := [p.code];
      ct :- Append(ct, CT_CAP, p.options, tooSmall);
      if |p.payload| != 0 {
        ct :- Append(ct, CT_CAP, [PAYLOAD_MARKER], tooSmall);
        ct :- Append(ct, CT_CAP, p.payload, tooSmall);
      }
      assert ct == Plaintext(p);
      var sealed := crypto.seal(material.senderKey, nonce, aad, ct);
      ct, r := sealed[..|ct|], Append(sealed[..|ct|], CT_CAP, sealed[|ct|..], tooSmall);
      assert sealed[..|ct|] + sealed[|ct|..] == sealed;
    }

    /** The AAD of a message bound to the request `kid`, `piv`; these lengths always fit the 64-byte buffer. */
    static method AadOf(kid: bytes, piv: bytes) returns (aad: bytes)
      requires |kid| <= NONCE_ID_LEN && |piv| <= PIV_MAX_LEN
      ensures aad == Aad(kid, piv)
    {
      var buf := new byte[64];
      var len := BuildAadCbor(kid, piv, buf);
      aad := buf[..len.value];
    }

    /** A Partial IV through the five-byte buffer. */
    static method PivOf(n: SeqNum) returns (piv: bytes)
      ensures piv == PivBytes(n) && 1 <= |piv| <= PIV_MAX_LEN
    {
      var buf := new byte[PIV_MAX_LEN];
      var len := EncodePiv(n, buf);
      piv := buf[..len];
    }

    /** Flags, Partial IV, ID Context with its length when present, sender identifier. */
    method BuildRequestOption(n: SeqNum, piv: bytes) returns (option: bytes)
      requires Valid() && piv == PivBytes(n)
      ensures OscoreOption.Valid(RequestOption(material, n))
      ensures option == OscoreOption.Encode(RequestOption(material, n))
    {
      OptionsValid(material, n);
      var hasContext := material.idContext.Some?;
      var flags := 8 + (if hasContext then 16 else 0) + |piv|;
      option := [flags] + piv;
      if hasContext {
        option := option + ([|material.idContext.value|] + material.idContext.value);
      }
      option := option + material.senderId;
    }

    method ProtectRequestReserved(n: SeqNum, p: Plain) returns (r: Result<(bytes, bytes), OscoreError>)
      requires Valid()
      ensures r == SealRequest(crypto, material, n, p)
    {
      hide OscoreOption.Encode, NonceOf, Aad;
      OptionsValid(material, n);
      var piv := PivOf(n);
      var nonce := ComputeNonce(material.senderId, piv, material.commonIv);
      var aad := AadOf(material.senderId, piv);
      var ct :- EncryptInto(nonce, aad, p);
      var option := BuildRequestOption(n, piv);
      return Ok((ct, option));
    }

    /** The option length the next request will take, computed before reserving. */
    method NextRequestOptionLen() returns (r: Result<nat, OscoreError>)
      requires Valid()
      ensures r.Ok? <==> active && !senderSeqExhausted
      ensures r.Ok? ==> OscoreOption.Valid(RequestOption(material, senderSeq))
                        && r.value == |OscoreOption.Encode(RequestOption(material, senderSeq))|
      ensures r.Ok? ==>
                r.value == 1 + |PivBytes(senderSeq)| + |material.senderId|
                           + (if material.idContext.Some? then 1 + |material.idContext.value| else 0)
      ensures r.Err? ==> r.error == SeqExhausted
    {
      if !active || senderSeqExhausted {
        return Err(SeqExhausted);
      }
      OptionsValid(material, senderSeq);
      var piv := PivOf(senderSeq);
      return Ok(1 + |piv| + (if material.idContext.Some? then 1 + |material.idContext.value| else 0)
                + |material.senderId|);
    }

    /** A response under a number already reserved. */
    method ProtectResponseWithReservedPiv(n: SeqNum, p: Plain, kid: bytes, requestPiv: bytes)
      returns (r: Result<(bytes, bytes), OscoreError>)
      requires Valid()
      ensures r == SealResponseWithPiv(crypto, material, n, kid, requestPiv, p)
    {
      var request := FromPiv(requestPiv);
      if |kid| > NONCE_ID_LEN || request.None? || kid != material.recipientId {
        return Err(InvalidParam);
      }
      OptionsValid(material, n);
      var piv := PivOf(n);
      var nonce := ComputeNonce(material.senderId, piv, material.commonIv);
      var aad := AadOf(kid, requestPiv);
      var ct :- EncryptInto(nonce, aad, p);
      var option: bytes := [|piv|] + piv;
      assert option == OscoreOption.Encode(PivOption(piv));
      return Ok((ct, option));
    }

    /** The no-PIV branch of `ProtectResponse`, all checks before the window's passed. */
    method ProtectResponseUnderRequestNonce(p: Plain, kid: bytes, requestPiv: bytes, request: SeqNum)
      returns (r: Result<(bytes, bytes), OscoreError>)
      requires Valid() && Answerable(material, kid, requestPiv) && SeqNumber.Decode(requestPiv) == Some(request)
      modifies this`responseSeq, this`responseWindow, this`responseWindowInitialized
      ensures Reused(old(ResponseWindow()), request) ==> r == Err(Replay) && ResponseWindow() == old(ResponseWindow())
      ensures !Reused(old(ResponseWindow()), request) ==>
                && r == SealResponseNoPiv(crypto, material, kid, requestPiv, p)
                && ResponseWindow() == if r.Ok? then Mark(old(ResponseWindow()), request) else old(ResponseWindow())
    {
      if IsResponseReuse(request) {
        return Err(Replay);
      }
      var nonce := ComputeNonce(kid, requestPiv, material.commonIv);
      var aad := AadOf(kid, requestPiv);
      var ct :- EncryptInto(nonce, aad, p);
      MarkResponseUsed(request);
      return Ok((ct, []));
    }

    /**
     * A response without the store: under the context's own next number, which advances even when the buffer
     * turns out too small, or under the request's nonce, which is marked used only once the response exists.
     */
    method ProtectResponse(p: Plain, kid: bytes, requestPiv: bytes, includePiv: bool)
      returns (r: Result<(bytes, bytes), OscoreError>)
      requires Valid()
      modifies this`senderSeq, this`responseSeq, this`responseWindow, this`responseWindowInitialized
      ensures Valid() && RequestWindow() == old(RequestWindow())
      ensures ReceivedWindow() == old(ReceivedWindow()) && ReceivedPivWindow() == old(ReceivedPivWindow())
      ensures var s := old(SenderView());
              if !Answerable(material, kid, requestPiv) || !s.active || (!includePiv && !s.allowNoPiv)
              then r == Err(InvalidParam) && SenderView() == s
              else if includePiv then
                match RespondStoreless(s)
                case None => r == Err(SeqExhausted) && SenderView() == s
                case Some((after, n)) =>
                  SenderView() == after && r == SealResponseWithPiv(crypto, material, n, kid, requestPiv, p)
              else
                match RespondNoPiv(s, SeqNumber.Decode(requestPiv).value)
                case None => r == Err(Replay) && SenderView() == s
                case Some(after) =>
                  r == SealResponseNoPiv(crypto, material, kid, requestPiv, p)
                  && SenderView() == if r.Ok? then after else s
    {
      hide Sizes, Derived, ShortFields, DeriveContextId, NonceOf, Aad, SealResponseNoPiv;
      var request := FromPiv(requestPiv);
      if |kid| > NONCE_ID_LEN || request.None? || kid != material.recipientId {
        return Err(InvalidParam);
      }
      if !active {
        return Err(InvalidParam);
      }
      if !includePiv && !allowNoPivResponse {
        return Err(InvalidParam);
      }
      if includePiv {
        hide SealResponseWithPiv;
        var n := senderSeq;
        var successor := Increment(n);
        if successor.None? {
          return Err(SeqExhausted);
        }
        senderSeq := successor.value;
        r := ProtectResponseWithReservedPiv(n, p, kid, requestPiv);
      } else {
        r := ProtectResponseUnderRequestNonce(p, kid, requestPiv, request.value);
      }
    }

    // Unprotection

    /** Decrypt into the bounded plaintext buffer. */
    method DecryptInto(nonce: bytes, aad: bytes, ct: bytes) returns (r: Result<bytes, OscoreError>)
      requires Valid() && |ct| >= TAG_LEN
      ensures r == Open(crypto, material.recipientKey, nonce, aad, ct)
    {
      var tagStart := |ct| - TAG_LEN;
      var plaintext :- Append([], PT_CAP, ct[..tagStart], BufferTooSmall(tagStart, PT_CAP));
      match crypto.open(material.recipientKey, nonce, aad, ct) {
        case None => return Err(DecryptFailed);
        case Some(p) => return Ok(p);
      }
    }

    /** The code, then the payload marker; copy options and payload into their bounded outputs. */
    static method SplitPlain(plaintext: bytes) returns (r: Result<Plain, OscoreError>)
      ensures r == ReadPlain(plaintext)
      ensures r.Ok? ==> plaintext != [] && r.value.code == plaintext[0]
    {
      hide Walk;
      if |plaintext| == 0 {
        return Err(InvalidParam);
      }
      var rest := plaintext[1..];
      var optionsSlice, payloadSlice := rest, [];
      var m := FindPayloadMarker(rest, false);
      assert m != Panicked by {
        WrappingWalkNeverPanics(rest, 0, 0);
      }
      if m.Malformed? {
        return Err(InvalidParam);
      }
      if m.MarkerAt? {
        payloadSlice := rest[m.pos + 1..];
        if |payloadSlice| == 0 {
          return Err(InvalidParam);
        }
        optionsSlice := rest[..m.pos];
      }
      var options :- Append([], OUT_CAP, optionsSlice, BufferTooSmall(|optionsSlice|, OUT_CAP));
      var payload :- Append([], OUT_CAP, payloadSlice, BufferTooSmall(|payloadSlice|, OUT_CAP));
      assert rest[..|rest|] == rest && [] + optionsSlice == optionsSlice && [] + payloadSlice == payloadSlice;
      return Ok(Plain(plaintext[0], options, payload));
    }

    /** Check, authenticate, parse, and only then mark the number as seen. */
    method UnprotectRequest(option: bytes, ct: bytes) returns (r: Result<Plain, OscoreError>)
      requires Valid()
      modifies this`recipientSeq, this`replayWindow
      ensures Valid()
      ensures var message := OpenRequest(crypto, material, old(RequestWindow()), option, ct);
              && (message.Ok? ==>
                    && r == Ok(message.value.1)
                    && !Reused(old(RequestWindow()), message.value.0)
                    && RequestWindow() == Mark(old(RequestWindow()), message.value.0))
              && (message.Err? ==> r == Err(message.error) && RequestWindow() == old(RequestWindow()))
    {
      hide ReadPlain, OscoreOption.Decode, NonceOf, Aad, Open, Sizes, Increment, Derived;
      if |ct| < TAG_LEN + 1 {
        return Err(InvalidParam);
      }
      var parsed := OscoreOption.ParseOption(option);
      if parsed.None? {
        return Err(InvalidParam);
      }
      var o := parsed.value;
      OscoreOption.DecodedIsValid(option);
      if o.piv == [] || o.kid.None? {
        return Err(InvalidParam);
      }
      if o.kid.value != material.recipientId {
        return Err(NoContext);
      }
      if o.kidContext.Some? && o.kidContext != material.idContext {
        return Err(NoContext);
      }
      var n := FromPiv(o.piv);
      if n.None? {
        return Err(InvalidParam);
      }
      if IsReplay(n.value) {
        return Err(Replay);
      }
      var nonce := ComputeNonce(material.recipientId, o.piv, material.commonIv);
      var aad := AadOf(o.kid.value, o.piv);
      var plaintext :- DecryptInto(nonce, aad, ct);
      var p :- SplitPlain(plaintext);
      UpdateReplayWindow(n.value);
      return Ok(p);
    }

    /** Authenticate and parse a response without accepting it; nothing in the context changes. */
    method BeginUnprotectResponse(option: bytes, ct: bytes, requestPiv: bytes, observe: bool)
      returns (r: Result<PendingResponse, OscoreError>)
      requires Valid()
      ensures var message := OpenResponse(crypto, material, ReceivedWindow(), ReceivedPivWindow(),
                                         option, ct, requestPiv, observe);
              && (message.Ok? ==>
                    && r.Ok? && fresh(r.value) && r.value.context == this
                    && r.value.message == message.value && r.value.markRequestUsed == !observe
                    && r.value.Committable())
              && (message.Err? ==> r == Err(message.error))
    {
      hide ReadPlain, OscoreOption.Decode, NonceOf, Aad, Open, Sizes, Increment, Derived;
      if |ct| < TAG_LEN + 1 {
        return Err(InvalidParam);
      }
      var parsed := OscoreOption.ParseOption(option);
      if parsed.None? {
        return Err(InvalidParam);
      }
      var o := parsed.value;
      OscoreOption.DecodedIsValid(option);
      if o.kidContext.Some? && o.kidContext != material.idContext {
        return Err(NoContext);
      }
      if o.kid.Some? && o.kid.value != material.recipientId {
        return Err(NoContext);
      }
      var request := FromPiv(requestPiv);
      if request.None? {
        return Err(InvalidParam);
      }
      if !observe && IsReceivedResponseReuse(request.value) {
        return Err(Replay);
      }
      if observe && o.piv == [] {
        return Err(InvalidParam);
      }
      var own := FromPiv(o.piv);
      var nonce;
      if o.piv != [] {
        if own.None? {
          return Err(InvalidParam);
        }
        if IsReceivedResponsePivReuse(own.value) {
          return Err(Replay);
        }
        nonce := ComputeNonce(material.recipientId, o.piv, material.commonIv);
      } else {
        nonce := ComputeNonce(material.senderId, requestPiv, material.commonIv);
      }
      var aad := AadOf(material.senderId, requestPiv);
      var plaintext :- DecryptInto(nonce, aad, ct);
      if |plaintext| == 0 || !ResponseCode(plaintext[0]) {
        return Err(InvalidParam);
      }
      var p :- SplitPlain(plaintext);
      var pending := new PendingResponse(this, Opened(request.value, own, p), !observe);
      return Ok(pending);
    }

    /** Unprotect and accept at once; `observe` says whether it is a notification. */
    method UnprotectResponse(option: bytes, ct: bytes, requestPiv: bytes, observe: bool)
      returns (r: Result<Plain, OscoreError>)
      requires Valid()
      modifies this`receivedResponseSeq, this`receivedResponseWindow, this`receivedResponseWindowInitialized,
               this`receivedResponsePivSeq, this`receivedResponsePivWindow, this`receivedResponsePivWindowInitialized
      ensures Valid()
      ensures var message := OpenResponse(crypto, material, old(ReceivedWindow()), old(ReceivedPivWindow()),
                                         option, ct, requestPiv, observe);
              && (message.Err? ==> r == Err(message.error) && AllWindows() == old(AllWindows()))
              && (message.Ok? ==>
                    && r == Ok(message.value.plain)
                    && AcceptsExactly(old(AllWindows()), AllWindows(), message.value, !observe))
    {
      var pending :- BeginUnprotectResponse(option, ct, requestPiv, observe);
      r := pending.Commit();
    }
  }

  /** Exclusive, one-use capability to encrypt under a reserved number. */
  class ReservedSender {
    const context: Context
    const sequence: SeqNum
    var used: bool

    constructor (context: Context, sequence: SeqNum)
      ensures this.context == context && this.sequence == sequence && !used
    {
      this.context := context;
      this.sequence := sequence;
      used := false;
    }

    method ProtectRequest(p: Plain) returns (r: Result<(bytes, bytes), OscoreError>)
      requires context.Valid() && !used
      modifies this
      ensures used
      ensures r == SealRequest(context.crypto, context.material, sequence, p)
    {
      used := true;
      r := context.ProtectRequestReserved(sequence, p);
    }

    method ProtectResponseWithPiv(p: Plain, kid: bytes, requestPiv: bytes)
      returns (r: Result<(bytes, bytes), OscoreError>)
      requires context.Valid() && !used
      modifies this
      ensures used
      ensures r == SealResponseWithPiv(context.crypto, context.material, sequence, kid, requestPiv, p)
    {
      used := true;
      r := context.ProtectResponseWithReservedPiv(sequence, p, kid, requestPiv);
    }
  }

  /**
   * An authenticated response awaiting acceptance. It borrows its context exclusively, so what the checks found
   * still holds when it is committed; dropping it does nothing.
   */
  class PendingResponse {
    const context: Context
    const message: Opened
    const markRequestUsed: bool

    constructor (context: Context, message: Opened, markRequestUsed: bool)
      ensures this.context == context && this.message == message && this.markRequestUsed == markRequestUsed
    {
      this.context := context;
      this.message := message;
      this.markRequestUsed := markRequestUsed;
    }

    /** The checks that allowed this response still say no replay. */
    ghost predicate Committable()
      reads this, context
    {
      && context.Valid() && ResponseCode(message.plain.code)
      && (message.responseSeq.Some? ==> !Reused(context.ReceivedPivWindow(), message.responseSeq.value))
      && (markRequestUsed ==> !Reused(context.ReceivedWindow(), message.requestSeq))
    }

    /** Accept: mark the responder's number, then the request, and release the message. */
    method Commit() returns (r: Result<Plain, OscoreError>)
      requires Committable()
      modifies context`receivedResponseSeq, context`receivedResponseWindow, context`receivedResponseWindowInitialized,
               context`receivedResponsePivSeq, context`receivedResponsePivWindow,
               context`receivedResponsePivWindowInitialized
      ensures context.Valid() && r == Ok(message.plain)
      ensures AcceptsExactly(old(context.AllWindows()), context.AllWindows(), message, markRequestUsed)
    {
      if message.responseSeq.Some? {
        context.MarkReceivedResponsePiv(message.responseSeq.value);
      }
      if markRequestUsed {
        context.MarkReceivedResponse(message.requestSeq);
      }
      return Ok(message.plain);
    }
  }
}
