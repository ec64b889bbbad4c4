/** The whole decision as one flat table: a grant is the conjunction, a denial names the first failing row. */
module GrantTable {
  import opened Options
  import opened Words
  import opened WireCodec
  import opened Domain
  import opened AnomalyDetector
  import opened ReplayHistory
  import opened FrameHandling
  import opened AuditChain
  import opened Decisions

  datatype Stage =
    | NotQuarantined
    | NoRollback
    | NonceExpected
    | WellFormed
    | StorePresent
    | ReaderKnown
    | DoorBound
    | KeyVersionInBand
    | NumberFresh
    | KeyDerivable
    | SealIntact
    | NotTooOld
    | NotTooFuture
    | PayloadValid
    | ActionIsOpen
    | CardKnown
    | RoleAllowed

  /** The place of a stage in the order of the code. */
  function Rank(stage: Stage): nat {
    match stage
    case NotQuarantined => 0
    case NoRollback => 1
    case NonceExpected => 2
    case WellFormed => 3
    case StorePresent => 4
    case ReaderKnown => 5
    case DoorBound => 6
    case KeyVersionInBand => 7
    case NumberFresh => 8
    case KeyDerivable => 9
    case SealIntact => 10
    case NotTooOld => 11
    case NotTooFuture => 12
    case PayloadValid => 13
    case ActionIsOpen => 14
    case CardKnown => 15
    case RoleAllowed => 16
  }

  /** What a denial at this stage is called. */
  function ReasonAt(stage: Stage, cfg: FrameHandlerConfig, bytes: Bytes): Reason {
    match stage
    case NotQuarantined | NoRollback | NonceExpected => Quarantined
    case WellFormed =>
      (match ParseFrame(bytes, cfg.maxCtLen) case Malformed(e) => ParseFailed(e) case Parsed(_) => Ok)
    case StorePresent => NoStore
    case ReaderKnown => UnknownReader
    case DoorBound => ReaderDoorForbidden
    case KeyVersionInBand => BadKeyVersion
    case NumberFresh => Replay
    case KeyDerivable => KeyDerivationFailed
    case SealIntact => DecryptFailed
    case NotTooOld => TooOld
    case NotTooFuture => TooFuture
    case PayloadValid => BadPayload
    case ActionIsOpen => BadAction
    case CardKnown => UnknownCard
    case RoleAllowed => Forbidden
  }

  function CurrentVersion(env: Env, h: Header): U32 {
    if env.store.Some? && h.readerId in env.store.value.keyVersions then env.store.value.keyVersions[h.readerId] else 0
  }

  /** The bytes of a nonce field that go into the cipher: 24 for XChaCha20, 12 for ChaCha20. */
  function NonceUsed(mode: CipherMode, nonce: Nonce): Bytes {
    match mode
    case XChaCha20Poly1305 => nonce
    case ChaCha20Poly1305 => nonce[..12]
  }

  /** The key of a frame: the master key in direct mode, else that of its own reader and version. */
  predicate IsFrameKey(sys: System, h: Header, k: Key) {
    if sys.config.directKey then k == sys.prims.masterKey else sys.prims.aeadKey(h.readerId, h.keyVersion) == Some(k)
  }

  /** Opening a parsed frame with a key; in full mode the box is bound to the header bytes as they stand in the frame. */
  function OpenedWith(sys: System, f: Frame, bytes: Bytes, k: Key): Option<Bytes>
    requires |bytes| >= 57
  {
    sys.prims.unseal(sys.config.cipherMode, k, NonceUsed(sys.config.cipherMode, f.header.nonce),
                     if sys.config.withoutAad then [] else bytes[5..57], Sealed(f.ct, f.tag))
  }

  function Plaintext(sys: System, bytes: Bytes): Option<Bytes> {
    match ParseFrame(bytes, sys.config.maxCtLen)
    case Malformed(_) => None
    case Parsed(f) =>
      if sys.config.directKey then OpenedWith(sys, f, bytes, sys.prims.masterKey)
      else
        match sys.prims.aeadKey(f.header.readerId, f.header.keyVersion)
        case None => None
        case Some(k) => OpenedWith(sys, f, bytes, k)
  }

  function Request(sys: System, bytes: Bytes): Option<AccessRequest> {
    match Plaintext(sys, bytes)
    case None => None
    case Some(plaintext) =>
      match sys.prims.requestJson(plaintext)
      case None => None
      case Some(request) => if |request.cardId| > 0 && |request.action| > 0 then Some(request) else None
  }

  /** Hash and role of a card under the pepper of one key version. */
  function LookupUnder(sys: System, store: Store, v: U32, cardId: Text): (Text, Option<Text>) {
    var card := Hex(sys.prims.hmac(sys.prims.cardPepper(v), cardId));
    (card, if card in store.cardRoles then Some(store.cardRoles[card]) else None)
  }

  /** Hash and role of the card that the request names: the first pepper that knows it, or else the first. */
  function Lookup(sys: System, env: Env, bytes: Bytes): (Text, Option<Text>) {
    var v := CurrentVersion(env, HeaderFor(sys.config, bytes));
    match Request(sys, bytes)
    case None => ([], None)
    case Some(request) =>
      if v == 0 then ([], None)
      else
        var first := LookupUnder(sys, env.store.value, if sys.config.staticPepper then 1 else v, request.cardId);
        if first.1.Some? || sys.config.staticPepper || !sys.config.allowPreviousKeyVersion || v == 1 then first
        else
          var second := LookupUnder(sys, env.store.value, v - 1, request.cardId);
          if second.1.Some? then second else first
  }

  function Role(sys: System, env: Env, bytes: Bytes): Option<Text> {
    Lookup(sys, env, bytes).1
  }

  /** The nonce is, where the cipher reads it, the HMAC of the header bytes with the nonce zeroed, under the reader's nonce key. */
  predicate HasDerivedNonce(sys: System, h: Header) {
    var zeroed := HeaderBytes(h)[..28] + Zeros(24);
    var mac := sys.prims.hmac(sys.prims.nonceKey(h.readerId, h.keyVersion), zeroed);
    NonceUsed(sys.config.cipherMode, h.nonce) == (if sys.config.cipherMode == XChaCha20Poly1305 then mac[..24] else mac[..12])
  }

  /** Not among the last `size` numbers recorded, and less than `size` below the largest; size 0 acts as 1. */
  predicate Unseen(size: U64, recorded: History, s: U64) {
    && (forall i :: 0 <= i < |recorded| && (|recorded| - i <= size || i == |recorded| - 1) ==> recorded[i] != s)
    && forall i :: 0 <= i < |recorded| ==> recorded[i] < s + size || recorded[i] <= s
  }

  /** One condition per stage, each on the frame, the store, the clock and the state before. */
  predicate Passes(stage: Stage, sys: System, st: EngineState, env: Env, bytes: Bytes) {
    var cfg, h := sys.config, HeaderFor(sys.config, bytes);
    match stage
    case NotQuarantined => sys.detector.enabled ==> !IsQuarantined(st.readers, h.readerId)
    case NoRollback =>
      sys.detector.enabled && h.seqNo > 0 ==> !RollsBack(sys.detector, StateOf(st.readers, h.readerId), h.seqNo)
    case NonceExpected => sys.detector.enabled && cfg.nonceMode == Deterministic ==> HasDerivedNonce(sys, h)
    case WellFormed => ParseFrame(bytes, cfg.maxCtLen).Parsed?
    case StorePresent => env.store.Some?
    case ReaderKnown => CurrentVersion(env, h) != 0
    case DoorBound =>
      cfg.enforceReaderDoorBinding ==> env.store.Some? && (h.readerId, h.doorId) in env.store.value.readerDoors
    case KeyVersionInBand =>
      VersionInBand(cfg, h.keyVersion, CurrentVersion(env, h))
    case NumberFresh => cfg.antiReplayEnabled ==> Unseen(cfg.replayWindowSize, HistoryOf(st.windows, h.readerId), h.seqNo)
    case KeyDerivable => cfg.directKey || sys.prims.aeadKey(h.readerId, h.keyVersion).Some?
    case SealIntact => Plaintext(sys, bytes).Some?
    case NotTooOld => cfg.maxSkewMs == 0 || env.decryptClock <= h.tsUnixMs + cfg.maxSkewMs
    case NotTooFuture => cfg.maxSkewMs == 0 || h.tsUnixMs <= env.decryptClock + cfg.maxSkewMs
    case PayloadValid => Request(sys, bytes).Some?
    case ActionIsOpen => Request(sys, bytes).Some? && Request(sys, bytes).value.action == [0x6f, 0x70, 0x65, 0x6e]  // "open"
    case CardKnown => Role(sys, env, bytes).Some?
    case RoleAllowed => Role(sys, env, bytes).Some? && env.store.Some?
                        && (h.doorId, Role(sys, env, bytes).value) in env.store.value.doorRoles
  }

  function VerdictOf(sys: System, st: EngineState, env: Env, bytes: Bytes): Verdict {
    Judge(sys, env, st.readers, HandleFrame(sys.prims, sys.config, env.store, env.decryptClock, st.windows, bytes).0).verdict
  }

  predicate PassesBelow(n: nat, sys: System, st: EngineState, env: Env, bytes: Bytes) {
    forall stage: Stage :: Rank(stage) < n ==> Passes(stage, sys, st, env, bytes)
  }

  lemma ScreenPart(sys: System, st: EngineState, env: Env, bytes: Bytes)
    requires Passes(WellFormed, sys, st, env, bytes)
    ensures Screen(sys.config, env.store, HeaderFor(sys.config, bytes)) ==
            if !Passes(StorePresent, sys, st, env, bytes) then Some(NoStore)
            else if !Passes(ReaderKnown, sys, st, env, bytes) then Some(UnknownReader)
            else if !Passes(DoorBound, sys, st, env, bytes) then Some(ReaderDoorForbidden)
            else if !Passes(KeyVersionInBand, sys, st, env, bytes) then Some(BadKeyVersion)
            else None
  {
    hide ParseFrame, HeaderFor, Fresh, RollsBack, NonceMatches, Plaintext, Request, Role;
  }

  lemma OpenPart(sys: System, st: EngineState, env: Env, bytes: Bytes)
    requires Passes(WellFormed, sys, st, env, bytes)
    ensures OpenFrame(sys.prims, sys.config, env.decryptClock, ParseFrame(bytes, sys.config.maxCtLen).frame) ==
            if !Passes(KeyDerivable, sys, st, env, bytes) then Unreadable(KeyDerivationFailed)
            else if !Passes(SealIntact, sys, st, env, bytes) then Unreadable(DecryptFailed)
            else if !Passes(NotTooOld, sys, st, env, bytes) then Unreadable(TooOld)
            else if !Passes(NotTooFuture, sys, st, env, bytes) then Unreadable(TooFuture)
            else Plain(Plaintext(sys, bytes).value)
  {
    hide ParseFrame, AeadKeyFor, AadFor, OpenWithNonce, OpenedWith, HasDerivedNonce, RollsBack, Request, Role, Unseen;
    var f := ParseFrame(bytes, sys.config.maxCtLen).frame;
    KeyPart(sys, f.header);
    BoxPart(sys, bytes, f);
  }

  lemma KeyPart(sys: System, h: Header)
    ensures match AeadKeyFor(sys.prims, sys.config, h)
            case None => !sys.config.directKey && sys.prims.aeadKey(h.readerId, h.keyVersion) == None
            case Some(k) => if sys.config.directKey then k == sys.prims.masterKey
                            else sys.prims.aeadKey(h.readerId, h.keyVersion) == Some(k)
  {
  }

  lemma BoxPart(sys: System, bytes: Bytes, f: Frame)
    requires ParseFrame(bytes, sys.config.maxCtLen) == Parsed(f)
    ensures |bytes| >= 57
    ensures forall k: Key ::
              OpenWithNonce(sys.prims, sys.config.cipherMode, k, Sealed(f.ct, f.tag), AadFor(sys.config, f.header), f.header.nonce)
              == OpenedWith(sys, f, bytes, k)
  {
    BytesOfHeader(bytes[5..57]);
    hide HeaderOf, HeaderBytes;
    assert HeaderBytes(f.header) == bytes[5..57];
    assert f.header.nonce[..24] == f.header.nonce;
  }

  /** The handler's result, stage by stage. */
  lemma HandlerPart(sys: System, st: EngineState, env: Env, bytes: Bytes)
    ensures
      var res := HandleFrame(sys.prims, sys.config, env.store, env.decryptClock, st.windows, bytes).0;
      && res.header == HeaderFor(sys.config, bytes)
      && res.reason == (if !Passes(WellFormed, sys, st, env, bytes) then ReasonAt(WellFormed, sys.config, bytes)
                        else if !Passes(StorePresent, sys, st, env, bytes) then NoStore
                        else if !Passes(ReaderKnown, sys, st, env, bytes) then UnknownReader
                        else if !Passes(DoorBound, sys, st, env, bytes) then ReaderDoorForbidden
                        else if !Passes(KeyVersionInBand, sys, st, env, bytes) then BadKeyVersion
                        else if !Passes(NumberFresh, sys, st, env, bytes) then Replay
                        else if !Passes(KeyDerivable, sys, st, env, bytes) then KeyDerivationFailed
                        else if !Passes(SealIntact, sys, st, env, bytes) then DecryptFailed
                        else if !Passes(NotTooOld, sys, st, env, bytes) then TooOld
                        else if !Passes(NotTooFuture, sys, st, env, bytes) then TooFuture
                        else Ok)
      && (res.allow <==> res.reason == Ok)
      && (res.allow ==> Passes(WellFormed, sys, st, env, bytes) && Passes(ReaderKnown, sys, st, env, bytes))
      && (res.allow ==> Plaintext(sys, bytes) == Some(res.plaintext))
  {
    HandlerFootprint(sys.prims, sys.config, env.store, env.decryptClock, st.windows, bytes);
    if Passes(WellFormed, sys, st, env, bytes) {
      ScreenPart(sys, st, env, bytes);
      OpenPart(sys, st, env, bytes);
      FreshPart(sys, st, env, bytes);
      PlaintextExists(sys, st, env, bytes);
    }
    hide Fresh, Screen, OpenFrame, Plaintext, Passes;
    WellFormedMeans(sys, st, env, bytes);
  }

  lemma WellFormedMeans(sys: System, st: EngineState, env: Env, bytes: Bytes)
    ensures Passes(WellFormed, sys, st, env, bytes) <==> ParseFrame(bytes, sys.config.maxCtLen).Parsed?
  {
  }

  lemma FreshPart(sys: System, st: EngineState, env: Env, bytes: Bytes)
    ensures var h := HeaderFor(sys.config, bytes);
            IsReplay(sys.config, st.windows, h.readerId, h.seqNo) <==> !Passes(NumberFresh, sys, st, env, bytes)
  {
    hide Fresh, HeaderFor, Unseen, WindowSize;
    var h := HeaderFor(sys.config, bytes);
    FreshIsUnseen(sys.config, HistoryOf(st.windows, h.readerId), h.seqNo);
  }

  lemma FreshIsUnseen(cfg: FrameHandlerConfig, recorded: History, s: U64)
    ensures Fresh(WindowSize(cfg), recorded, s) <==> Unseen(cfg.replayWindowSize, recorded, s)
  {
    hide Fresh;
    FreshMeaning(WindowSize(cfg), recorded, s);
    ConfiguredWindow(cfg);
  }

  lemma PlaintextExists(sys: System, st: EngineState, env: Env, bytes: Bytes)
    ensures Passes(SealIntact, sys, st, env, bytes) <==> Plaintext(sys, bytes).Some?
  {
  }

  /** The payload and policy stages, for a frame the handler allowed. */
  lemma PayloadPart(sys: System, st: EngineState, env: Env, bytes: Bytes, fr: HandleResult)
    requires fr.header == HeaderFor(sys.config, bytes) && Plaintext(sys, bytes) == Some(fr.plaintext)
    requires Passes(ReaderKnown, sys, st, env, bytes)
    ensures
      var v := DecidePayload(sys.prims, sys.config, env.store, fr);
      && (v.allow <==> v.reason == Ok)
      && v.reason == if !Passes(PayloadValid, sys, st, env, bytes) then BadPayload
                     else if !Passes(ActionIsOpen, sys, st, env, bytes) then BadAction
                     else if !Passes(CardKnown, sys, st, env, bytes) then UnknownCard
                     else if !Passes(RoleAllowed, sys, st, env, bytes) then Forbidden
                     else Ok
  {
    hide Plaintext, ResolveCard, Lookup, ParseAccessRequest, Request, ParseFrame, HeaderFor, Unseen, RollsBack, HasDerivedNonce;
    RequestPart(sys, bytes, fr.plaintext);
    OpenReads();
    hide Ascii;
    match Request(sys, bytes)
    case None =>
    case Some(request) => LookupPart(sys, env, bytes, request);
  }

  lemma OpenReads()
    ensures OPEN == [0x6f, 0x70, 0x65, 0x6e]
  {
  }

  lemma RequestPart(sys: System, bytes: Bytes, plaintext: Bytes)
    requires Plaintext(sys, bytes) == Some(plaintext)
    ensures Request(sys, bytes) == ParseAccessRequest(sys.prims, plaintext)
  {
    hide Plaintext;
  }

  /** Trying the peppers one after the other ends where the table says. */
  lemma LookupPart(sys: System, env: Env, bytes: Bytes, request: AccessRequest)
    requires Request(sys, bytes) == Some(request) && CurrentVersion(env, HeaderFor(sys.config, bytes)) >= 1
    ensures
      ResolveCard(sys.prims, sys.config, env.store.value, request.cardId, CurrentVersion(env, HeaderFor(sys.config, bytes)))
      == Lookup(sys, env, bytes)
  {
    hide Request, HeaderFor, Hex;
  }

  /** The verdict names the card that was looked up, and only if the policy got that far. */
  lemma VerdictNamesItsCard(sys: System, st: EngineState, env: Env, bytes: Bytes)
    ensures
      var v := VerdictOf(sys, st, env, bytes);
      if v.reason == Ok || v.reason == UnknownCard || v.reason == Forbidden
      then Request(sys, bytes).Some? && v.cardHmac == Lookup(sys, env, bytes).0 && v.action == OPEN
      else v.cardHmac == [] && v.action == []
  {
    hide HandleFrame, Plaintext, DecidePayload, Passes, ParseFrame, AfterRejection, NonceMatches, RollsBack;
    var fr := HandleFrame(sys.prims, sys.config, env.store, env.decryptClock, st.windows, bytes).0;
    HandlerPart(sys, st, env, bytes);
    HandlerReasons(sys.prims, sys.config, env.store, env.decryptClock, st.windows, bytes);
    if fr.allow {
      PayloadNamesItsCard(sys, env, bytes, fr);
    }
  }

  lemma PayloadNamesItsCard(sys: System, env: Env, bytes: Bytes, fr: HandleResult)
    requires fr.header == HeaderFor(sys.config, bytes) && Plaintext(sys, bytes) == Some(fr.plaintext)
    ensures
      var v := DecidePayload(sys.prims, sys.config, env.store, fr);
      if v.reason == Ok || v.reason == UnknownCard || v.reason == Forbidden
      then Request(sys, bytes).Some? && v.cardHmac == Lookup(sys, env, bytes).0 && v.action == OPEN
      else v.cardHmac == [] && v.action == []
  {
    hide Plaintext, ResolveCard, Lookup, ParseAccessRequest, Request, Ascii, ParseFrame, HeaderFor;
    RequestPart(sys, bytes, fr.plaintext);
    match Request(sys, bytes)
    case None =>
    case Some(request) =>
      if CurrentVersion(env, HeaderFor(sys.config, bytes)) >= 1 {
        LookupPart(sys, env, bytes, request);
      }
  }

  lemma HandlerReasons(p: Primitives, cfg: FrameHandlerConfig, store: Option<Store>, now: U64, hs: Histories, bytes: Bytes)
    ensures var reason := HandleFrame(p, cfg, store, now, hs, bytes).0.reason;
            && reason != MacVerificationFailed && reason != Quarantined
            && reason != UnknownCard && reason != Forbidden
  {
    hide ParseFrame, Fresh, AeadKeyFor, OpenWithNonce, AadFor;
  }

  /** The reason of the first failing stage, spelled out. */
  function FirstFailure(sys: System, st: EngineState, env: Env, bytes: Bytes): Option<Stage> {
    if !Passes(NotQuarantined, sys, st, env, bytes) then Some(NotQuarantined)
    else if !Passes(NoRollback, sys, st, env, bytes) then Some(NoRollback)
    else if !Passes(NonceExpected, sys, st, env, bytes) then Some(NonceExpected)
    else if !Passes(WellFormed, sys, st, env, bytes) then Some(WellFormed)
    else if !Passes(StorePresent, sys, st, env, bytes) then Some(StorePresent)
    else if !Passes(ReaderKnown, sys, st, env, bytes) then Some(ReaderKnown)
    else if !Passes(DoorBound, sys, st, env, bytes) then Some(DoorBound)
    else if !Passes(KeyVersionInBand, sys, st, env, bytes) then Some(KeyVersionInBand)
    else if !Passes(NumberFresh, sys, st, env, bytes) then Some(NumberFresh)
    else if !Passes(KeyDerivable, sys, st, env, bytes) then Some(KeyDerivable)
    else if !Passes(SealIntact, sys, st, env, bytes) then Some(SealIntact)
    else if !Passes(NotTooOld, sys, st, env, bytes) then Some(NotTooOld)
    else if !Passes(NotTooFuture, sys, st, env, bytes) then Some(NotTooFuture)
    else if !Passes(PayloadValid, sys, st, env, bytes) then Some(PayloadValid)
    else if !Passes(ActionIsOpen, sys, st, env, bytes) then Some(ActionIsOpen)
    else if !Passes(CardKnown, sys, st, env, bytes) then Some(CardKnown)
    else if !Passes(RoleAllowed, sys, st, env, bytes) then Some(RoleAllowed)
    else None
  }

  lemma FirstFailureIsFirst(sys: System, st: EngineState, env: Env, bytes: Bytes)
    ensures
      match FirstFailure(sys, st, env, bytes)
      case None => forall stage: Stage :: Passes(stage, sys, st, env, bytes)
      case Some(stage) => !Passes(stage, sys, st, env, bytes) && PassesBelow(Rank(stage), sys, st, env, bytes)
  {
    hide Passes;
    var first := FirstFailure(sys, st, env, bytes);
    forall stage: Stage
      ensures first == None || Rank(stage) < Rank(first.value) ==> Passes(stage, sys, st, env, bytes)
    {
      match stage
      case NotQuarantined | NoRollback | NonceExpected | WellFormed | StorePresent | ReaderKnown =>
      case DoorBound | KeyVersionInBand | NumberFresh | KeyDerivable | SealIntact | NotTooOld =>
      case NotTooFuture | PayloadValid | ActionIsOpen | CardKnown | RoleAllowed =>
    }
  }

  lemma VerdictIsFirstFailure(sys: System, st: EngineState, env: Env, bytes: Bytes)
    ensures
      var v := VerdictOf(sys, st, env, bytes);
      match FirstFailure(sys, st, env, bytes)
      case None => v.allow && v.reason == Ok
      case Some(stage) => !v.allow && v.reason == ReasonAt(stage, sys.config, bytes)
  {
    hide Passes, HandleFrame, Judge, DecidePayload, Plaintext, ParseFrame, HeaderFor;
    var fr := HandleFrame(sys.prims, sys.config, env.store, env.decryptClock, st.windows, bytes).0;
    HandlerPart(sys, st, env, bytes);
    if fr.allow {
      PayloadPart(sys, st, env, bytes, fr);
    }
    WatchPart(sys, st, env, bytes, fr);
  }

  /** The detector's stages come first, whatever the handler said. */
  lemma WatchPart(sys: System, st: EngineState, env: Env, bytes: Bytes, fr: HandleResult)
    requires fr.header == HeaderFor(sys.config, bytes)
    ensures
      Judge(sys, env, st.readers, fr).verdict ==
      if !Passes(NotQuarantined, sys, st, env, bytes) || !Passes(NoRollback, sys, st, env, bytes)
         || !Passes(NonceExpected, sys, st, env, bytes) then Denied(Quarantined)
      else if !fr.allow then Denied(fr.reason)
      else DecidePayload(sys.prims, sys.config, env.store, fr)
  {
    hide NonceMatches, HasDerivedNonce, DecidePayload, RollsBack, AfterSeq;
    NoncePassesExactly(sys, HeaderFor(sys.config, bytes));
  }

  /** The engine's nonce check, in terms of the HMAC itself. */
  lemma NoncePassesExactly(sys: System, h: Header)
    ensures NonceMatches(sys.prims, sys.config, h) <==> HasDerivedNonce(sys, h)
  {
    ZeroedHeader(h);
    hide HeaderBytes;
    var mac := sys.prims.hmac(sys.prims.nonceKey(h.readerId, h.keyVersion), NonceContext(h));
    assert (mac[..24] + ZERO_NONCE[24..])[..24] == mac[..24];
    assert (mac[..12] + ZERO_NONCE[12..])[..12] == mac[..12];
    assert h.nonce[..24] == h.nonce;
  }

  lemma ZeroedHeader(h: Header)
    ensures NonceContext(h) == HeaderBytes(h)[..28] + Zeros(24)
  {
  }

  /**
    A frame is granted exactly when every stage passes; otherwise the denial
    names the first stage, in the order of the code, that does not.
   */
  lemma GrantExactly(sys: System, st: EngineState, env: Env, bytes: Bytes)
    ensures
      var v := VerdictOf(sys, st, env, bytes);
      && FrameStep(sys, st, env, bytes).1 ==
           (if !sys.auditing || Commits(sys.auditChain, env.fault) then Decided(v.allow, v.reason) else AppendThrew)
      && (v.allow <==> forall stage: Stage :: Passes(stage, sys, st, env, bytes))
      && (v.allow <==> v.reason == Ok)
      && forall stage: Stage ::
           !Passes(stage, sys, st, env, bytes) && PassesBelow(Rank(stage), sys, st, env, bytes) ==>
             v.reason == ReasonAt(stage, sys.config, bytes)
  {
    FirstFailureIsFirst(sys, st, env, bytes);
    VerdictIsFirstFailure(sys, st, env, bytes);
    ReasonsAreDenials(sys, st, env, bytes);
    hide Passes, Judge, HandleFrame, EventFor;
    var first := FirstFailure(sys, st, env, bytes);
    forall stage: Stage | !Passes(stage, sys, st, env, bytes) && PassesBelow(Rank(stage), sys, st, env, bytes)
      ensures first == Some(stage)
    {
      if first.Some? && Rank(first.value) == Rank(stage) {
        RankInjective(stage, first.value);
      }
    }
  }

  lemma RankInjective(a: Stage, b: Stage)
    requires Rank(a) == Rank(b)
    ensures a == b
  {
  }

  lemma ReasonsAreDenials(sys: System, st: EngineState, env: Env, bytes: Bytes)
    ensures FirstFailure(sys, st, env, bytes).Some? ==>
              ReasonAt(FirstFailure(sys, st, env, bytes).value, sys.config, bytes) != Ok
  {
    WellFormedMeans(sys, st, env, bytes);
    hide Passes;
  }

  /** The text of a denial at a stage; a malformed frame is denied with the text of its parse error. */
  function DenialText(stage: Stage, error: ParseError): string {
    match stage
    case NotQuarantined | NoRollback | NonceExpected => "quarantined"
    case WellFormed =>
      (match error
       case TooSmall => "frame_too_small"
       case BadMagic => "bad_magic"
       case BadVersion => "bad_protocol_version"
       case CtLenExceedsLimit => "ciphertext_too_large"
       case LengthMismatch => "frame_truncated"
       case TrailingBytes => "frame_trailing_bytes")
    case StorePresent => "no_store"
    case ReaderKnown => "unknown_reader"
    case DoorBound => "reader_door_forbidden"
    case KeyVersionInBand => "bad_key_version"
    case NumberFresh => "replay"
    case KeyDerivable => "key_derivation_failed"
    case SealIntact => "decrypt_failed"
    case NotTooOld => "too_old"
    case NotTooFuture => "too_future"
    case PayloadValid => "bad_payload"
    case ActionIsOpen => "bad_action"
    case CardKnown => "unknown_card"
    case RoleAllowed => "forbidden"
  }

  lemma ReasonReads(stage: Stage, cfg: FrameHandlerConfig, bytes: Bytes)
    requires stage == WellFormed ==> ParseFrame(bytes, cfg.maxCtLen).Malformed?
    ensures Code(ReasonAt(stage, cfg, bytes)) ==
            DenialText(stage, match ParseFrame(bytes, cfg.maxCtLen) case Malformed(e) => e case Parsed(_) => TooSmall)
  {
    hide ParseFrame;
  }

  /** What is logged and returned of a frame, as text: "ok" when it is granted, else that of its first failing stage. */
  lemma VerdictReads(sys: System, st: EngineState, env: Env, bytes: Bytes)
    ensures
      var text := Code(VerdictOf(sys, st, env, bytes).reason);
      match FirstFailure(sys, st, env, bytes)
      case None => text == "ok"
      case Some(stage) =>
        text == DenialText(stage, match ParseFrame(bytes, sys.config.maxCtLen) case Malformed(e) => e case Parsed(_) => TooSmall)
  {
    hide Passes, ParseFrame, Judge, HandleFrame, FirstFailure;
    VerdictIsFirstFailure(sys, st, env, bytes);
    FirstFailureIsFirst(sys, st, env, bytes);
    WellFormedMeans(sys, st, env, bytes);
    match FirstFailure(sys, st, env, bytes)
    case None =>
    case Some(stage) =>
      hide Code;
      ReasonReads(stage, sys.config, bytes);
  }

  /** The anomaly that goes with the first failing stage, if the detector counts it as one. */
  function AnomalyAtStage(stage: Option<Stage>, config: DetectorConfig, s: ReaderState): Option<AnomalyType> {
    match stage
    case Some(NoRollback) => Some(SeqRollback)
    case Some(NonceExpected) => Some(NonceMismatch)
    case Some(NumberFresh) => Some(SeqReuse)
    case Some(SealIntact) => if StreakReached(config, s) then Some(TagFailStreak) else None
    case _ => None
  }

  /**
    Which frames set off an anomaly: exactly those whose first failing stage is
    the rollback test, the nonce, the replay check, or the seal when that makes
    the streak full; the type is that of the stage.
   */
  lemma AnomalyExactly(sys: System, st: EngineState, env: Env, bytes: Bytes)
    requires sys.detector.enabled
    ensures
      var fr := HandleFrame(sys.prims, sys.config, env.store, env.decryptClock, st.windows, bytes).0;
      Judge(sys, env, st.readers, fr).anomaly ==
      AnomalyAtStage(FirstFailure(sys, st, env, bytes), sys.detector, StateOf(st.readers, fr.header.readerId))
  {
    hide Passes, HandleFrame, DecidePayload, Plaintext, ParseFrame, HeaderFor, StreakReached;
    var fr := HandleFrame(sys.prims, sys.config, env.store, env.decryptClock, st.windows, bytes).0;
    HandlerPart(sys, st, env, bytes);
    HandlerReasons(sys.prims, sys.config, env.store, env.decryptClock, st.windows, bytes);
    WatchStages(sys, st, env, bytes);
    StreakUnmoved(sys.detector, StateOf(st.readers, fr.header.readerId), fr.header.seqNo, env.reportClock);
    hide NonceMatches, RollsBack, AfterSeq;
  }

  lemma StreakUnmoved(config: DetectorConfig, s: ReaderState, seqNo: U64, ts: U64)
    ensures RollsBack(config, s, seqNo) || StreakReached(config, AfterSeq(config, s, seqNo, ts)) == StreakReached(config, s)
  {
  }

  lemma WatchStages(sys: System, st: EngineState, env: Env, bytes: Bytes)
    requires sys.detector.enabled
    ensures var h := HeaderFor(sys.config, bytes);
            && (Passes(NotQuarantined, sys, st, env, bytes) <==> !IsQuarantined(st.readers, h.readerId))
            && (Passes(NoRollback, sys, st, env, bytes) <==>
                h.seqNo == 0 || !RollsBack(sys.detector, StateOf(st.readers, h.readerId), h.seqNo))
            && (Passes(NonceExpected, sys, st, env, bytes) <==>
                sys.config.nonceMode != Deterministic || NonceMatches(sys.prims, sys.config, h))
  {
    hide HeaderFor, RollsBack, NonceMatches, HasDerivedNonce;
    NoncePassesExactly(sys, HeaderFor(sys.config, bytes));
  }

  /** The stages of the handler; those before and after belong to the detector and the policy. */
  predicate HandlerPasses(sys: System, st: EngineState, env: Env, bytes: Bytes) {
    forall stage: Stage :: Rank(WellFormed) <= Rank(stage) <= Rank(NotTooFuture) ==> Passes(stage, sys, st, env, bytes)
  }

  /** `f` prints to the bytes, and opens to `plaintext` under the key of its reader and version. */
  ghost predicate OpensTo(sys: System, bytes: Bytes, f: Frame, k: Key, plaintext: Bytes) {
    && bytes == FrameBytes(f) && |f.ct| <= sys.config.maxCtLen && IsFrameKey(sys, f.header, k)
    && sys.prims.unseal(sys.config.cipherMode, k, NonceUsed(sys.config.cipherMode, f.header.nonce),
                        if sys.config.withoutAad then [] else HeaderBytes(f.header), Sealed(f.ct, f.tag))
       == Some(plaintext)
  }

  lemma OpensExactly(sys: System, bytes: Bytes, plaintext: Bytes)
    ensures Plaintext(sys, bytes) == Some(plaintext) <==> exists f, k :: OpensTo(sys, bytes, f, k, plaintext)
  {
    if Plaintext(sys, bytes) == Some(plaintext) {
      var f := ParseFrame(bytes, sys.config.maxCtLen).frame;
      ParsedPrintsBack(bytes, sys.config.maxCtLen);
      FrameParts(f);
      var k := if sys.config.directKey then sys.prims.masterKey else sys.prims.aeadKey(f.header.readerId, f.header.keyVersion).value;
      hide ParseFrame, FrameBytes, HeaderBytes;
      assert OpensTo(sys, bytes, f, k, plaintext);
    }
    if f, k :| OpensTo(sys, bytes, f, k, plaintext) {
      RoundTripExactly(f, sys.config.maxCtLen);
      FrameParts(f);
      hide ParseFrame, FrameBytes, HeaderBytes;
    }
  }

  /** The handler allows a frame exactly when its stages pass, and then with the header and plaintext of the table. */
  lemma HandlerAllowsExactly(sys: System, st: EngineState, env: Env, bytes: Bytes)
    ensures
      var res := HandleFrame(sys.prims, sys.config, env.store, env.decryptClock, st.windows, bytes).0;
      && (res.allow <==> HandlerPasses(sys, st, env, bytes))
      && (res.allow ==> res.header == HeaderFor(sys.config, bytes)
                        && exists f, k :: OpensTo(sys, bytes, f, k, res.plaintext))
  {
    hide Passes, HandleFrame, ParseFrame, HeaderFor, Plaintext, OpensTo;
    HandlerPart(sys, st, env, bytes);
    WellFormedMeans(sys, st, env, bytes);
    var fr := HandleFrame(sys.prims, sys.config, env.store, env.decryptClock, st.windows, bytes).0;
    if fr.allow {
      OpensExactly(sys, bytes, fr.plaintext);
      forall stage: Stage | Rank(WellFormed) <= Rank(stage) <= Rank(NotTooFuture)
        ensures Passes(stage, sys, st, env, bytes)
      {
        match stage
        case WellFormed | StorePresent | ReaderKnown | DoorBound | KeyVersionInBand =>
        case NumberFresh | KeyDerivable | SealIntact | NotTooOld | NotTooFuture =>
        case _ =>
      }
    }
  }

  /**
    Which frames a window records, whatever the verdict: with anti-replay on,
    exactly those that pass the handler's stages. The detector's stages have no
    part in it, so a frame denied as quarantined is recorded like any other.
   */
  lemma WindowGrowsExactly(sys: System, st: EngineState, env: Env, bytes: Bytes, r: U32)
    ensures
      var st' := FrameStep(sys, st, env, bytes).0;
      var h := HeaderFor(sys.config, bytes);
      HistoryOf(st'.windows, r) ==
      HistoryOf(st.windows, r)
      + if r == h.readerId && sys.config.antiReplayEnabled && HandlerPasses(sys, st, env, bytes) then [h.seqNo] else []
  {
    hide HandlerPasses, HandleFrame, Judge, EventFor, HeaderFor, HistoryOf, Fresh;
    HandlerFootprint(sys.prims, sys.config, env.store, env.decryptClock, st.windows, bytes);
    HandlerAllowsExactly(sys, st, env, bytes);
  }
}
