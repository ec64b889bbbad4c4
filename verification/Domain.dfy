/**
  Entities shared by the handler, the engine, the sender and the audit log:
  configuration, the access store, reason codes, and the cryptographic
  primitives, which are uninterpreted function values.
 */
module Domain {
  import opened Options
  import opened Words
  import opened WireCodec

  type Hash = b: Bytes | |b| == 32 witness Zeros(32)
  type Key = Hash
  type Text = Bytes  // std::string
  type Hmac = (Bytes, Bytes) -> Hash  // key, data

  const ZERO_HASH: Hash := Zeros(32)

  datatype CipherMode = XChaCha20Poly1305 | ChaCha20Poly1305
  datatype NonceMode = Deterministic | Random | OtherNonceMode

  datatype Sealed = Sealed(ct: Bytes, tag: Tag)
  datatype AccessRequest = AccessRequest(cardId: Text, action: Text)

  datatype Primitives = Primitives(
    hmac: Hmac,
    seal: (CipherMode, Key, Bytes, Bytes, Bytes) -> Sealed,      // mode, key, nonce, aad, plaintext
    unseal: (CipherMode, Key, Bytes, Bytes, Sealed) -> Option<Bytes>,
    masterKey: Key,
    aeadKey: (U32, U32) -> Option<Key>,                          // reader, key version
    nonceKey: (U32, U32) -> Key,
    cardPepper: U32 -> Key,
    payloadJson: AccessRequest -> Bytes,
    requestJson: Bytes -> Option<AccessRequest>)                 // both fields present and strings

  /** The one law of the cipher that is used: opening undoes sealing, and sizes agree. */
  ghost predicate OpenUndoesSeal(p: Primitives) {
    forall mode: CipherMode, key: Key, nonce: Bytes, aad: Bytes, plaintext: Bytes ::
      var c := p.seal(mode, key, nonce, aad, plaintext);
      p.unseal(mode, key, nonce, aad, c) == Some(plaintext) && |c.ct| == |plaintext|
  }

  function NonceLen(mode: CipherMode): nat {
    if mode.XChaCha20Poly1305? then 24 else 12
  }

  /** Both ciphers are handed a 24-byte field; ChaCha20 reads 12 bytes of it. */
  function SealWithNonce(p: Primitives, mode: CipherMode, key: Key, plaintext: Bytes, aad: Bytes, nonce: Nonce): Sealed {
    p.seal(mode, key, nonce[..NonceLen(mode)], aad, plaintext)
  }

  function OpenWithNonce(p: Primitives, mode: CipherMode, key: Key, c: Sealed, aad: Bytes, nonce: Nonce): Option<Bytes> {
    p.unseal(mode, key, nonce[..NonceLen(mode)], aad, c)
  }

  /** The deterministic nonce: an HMAC of the context, cut to the cipher's length, zero filled. */
  function HmacNonce(p: Primitives, nonceKey: Key, mode: CipherMode, context: Bytes): Nonce {
    p.hmac(nonceKey, context)[..NonceLen(mode)] + ZERO_NONCE[NonceLen(mode)..]
  }

  /** The nonce context: the header with its nonce field zeroed. */
  function NonceContext(h: Header): Bytes {
    HeaderBytes(Header(h.readerId, h.doorId, h.tsUnixMs, h.seqNo, h.keyVersion, ZERO_NONCE))
  }

  function ParseAccessRequest(p: Primitives, plaintext: Bytes): Option<AccessRequest> {
    match p.requestJson(plaintext)
    case None => None
    case Some(request) =>
      if request.cardId == [] || request.action == [] then None else Some(request)
  }

  function HexDigit(n: int): U8
    requires 0 <= n < 16
  {
    if n < 10 then 0x30 + n else 0x57 + n
  }

  function Hex(b: Bytes): (t: Text)
    ensures |t| == 2 * |b|
    ensures 0 !in t
  {
    if b == [] then [] else [HexDigit(b[0] / 16), HexDigit(b[0] % 16)] + Hex(b[1..])
  }

  /** Reading lower-case hex, digit pair by digit pair; nothing for any other text. */
  function Nibble(c: U8): Option<int> {
    if '0' as int <= c <= '9' as int then Some(c - '0' as int)
    else if 'a' as int <= c <= 'f' as int then Some(c - 'a' as int + 10)
    else None
  }

  function FromHex(t: Text): Option<Bytes> {
    if t == [] then Some([])
    else if |t| == 1 || Nibble(t[0]) == None || Nibble(t[1]) == None then None
    else
      match FromHex(t[2..])
      case None => None
      case Some(rest) => Some([16 * Nibble(t[0]).value + Nibble(t[1]).value] + rest)
  }

  /** The hex text of a block reads back as the block, so equal texts come from equal blocks. */
  lemma {:induction false} HexReads(b: Bytes)
    ensures FromHex(Hex(b)) == Some(b)
  {
    if b != [] {
      var t := Hex(b);
      HexReads(b[1..]);
      assert t[2..] == Hex(b[1..]) && t[0] == HexDigit(b[0] / 16) && t[1] == HexDigit(b[0] % 16);
      assert [b[0]] + b[1..] == b;
    }
  }

  /** The stored form of a card: the hex HMAC of its id under the pepper of a key version. */
  function CardHmac(p: Primitives, keyVersion: U32, cardId: Text): (t: Text)
    ensures |t| == 64 && 0 !in t
  {
    Hex(p.hmac(p.cardPepper(keyVersion), cardId))
  }

  /** The stored form reads back as the HMAC of the card under the pepper of just that version. */
  lemma CardHmacReads(p: Primitives, keyVersion: U32, cardId: Text)
    ensures FromHex(CardHmac(p, keyVersion, cardId)) == Some(p.hmac(p.cardPepper(keyVersion), cardId))
  {
    HexReads(p.hmac(p.cardPepper(keyVersion), cardId));
  }

  datatype FrameHandlerConfig = FrameHandlerConfig(
    antiReplayEnabled: bool,
    replayWindowSize: U64,
    maxCtLen: U32,
    maxSkewMs: U64,
    allowPreviousKeyVersion: bool,
    enforceReaderDoorBinding: bool,
    directKey: bool,        // keyDerivationMode == "direct"
    withoutAad: bool,       // aadMode == "none"
    staticPepper: bool,     // pepperMode == "static"
    cipherMode: CipherMode,
    nonceMode: NonceMode)

  function WindowSize(cfg: FrameHandlerConfig): (w: U64)
    ensures w >= 1
  {
    if cfg.replayWindowSize == 0 then 1 else cfg.replayWindowSize
  }

  /** The window has the configured number of slots; size 0 is raised to 1. */
  lemma ConfiguredWindow(cfg: FrameHandlerConfig)
    ensures cfg.replayWindowSize >= 1 ==> WindowSize(cfg) == cfg.replayWindowSize
    ensures cfg.replayWindowSize <= 1 <==> WindowSize(cfg) == 1
  {
  }

  datatype Store = Store(
    keyVersions: map<U32, U32>,
    readerDoors: set<(U32, U32)>,
    cardRoles: map<Text, Text>,
    doorRoles: set<(U32, Text)>)
  {
    function CurrentKeyVersionForReader(readerId: U32): U32 {
      if readerId in keyVersions then keyVersions[readerId] else 0
    }

    function RoleForCardHmac(cardHmac: Text): Option<Text> {
      if cardHmac in cardRoles then Some(cardRoles[cardHmac]) else None
    }
  }

  datatype Reason =
    | Ok
    | ParseFailed(error: ParseError)
    | NoStore
    | UnknownReader
    | ReaderDoorForbidden
    | BadKeyVersion
    | Replay
    | KeyDerivationFailed
    | MacVerificationFailed
    | DecryptFailed
    | TooOld
    | TooFuture
    | Quarantined
    | BadPayload
    | BadAction
    | UnknownCard
    | Forbidden

  predicate Plain(s: string) {
    |s| < 32 && '\0' !in s
  }

  function ParseCode(e: ParseError): (s: string)
    ensures Plain(s)
  {
    match e
    case TooSmall => "frame_too_small"
    case BadMagic => "bad_magic"
    case BadVersion => "bad_protocol_version"
    case CtLenExceedsLimit => "ciphertext_too_large"
    case LengthMismatch => "frame_truncated"
    case TrailingBytes => "frame_trailing_bytes"
  }

  function PolicyCode(r: Reason): (s: string)
    ensures Plain(s)
  {
    match r
    case Ok => "ok"
    case Quarantined => "quarantined"
    case BadPayload => "bad_payload"
    case BadAction => "bad_action"
    case UnknownCard => "unknown_card"
    case _ => "forbidden"
  }

  function HandlerCode(r: Reason): (s: string)
    ensures Plain(s)
  {
    match r
    case NoStore => "no_store"
    case UnknownReader => "unknown_reader"
    case ReaderDoorForbidden => "reader_door_forbidden"
    case BadKeyVersion => "bad_key_version"
    case _ => "replay"
  }

  function CipherCode(r: Reason): (s: string)
    ensures Plain(s)
  {
    match r
    case KeyDerivationFailed => "key_derivation_failed"
    case MacVerificationFailed => "mac_verification_failed"
    case DecryptFailed => "decrypt_failed"
    case TooOld => "too_old"
    case _ => "too_future"
  }

  /** The text of a reason; every code is short and free of NUL. */
  function Code(r: Reason): (s: string)
    ensures Plain(s)
  {
    match r
    case ParseFailed(e) => ParseCode(e)
    case NoStore | UnknownReader | ReaderDoorForbidden | BadKeyVersion | Replay => HandlerCode(r)
    case KeyDerivationFailed | MacVerificationFailed | DecryptFailed | TooOld | TooFuture => CipherCode(r)
    case Ok | Quarantined | BadPayload | BadAction | UnknownCard | Forbidden => PolicyCode(r)
  }

  /** The reason that a text in the log or in a reply stands for. */
  function ReasonOf(text: string): Option<Reason> {
    match text
    case "ok" => Some(Ok)
    case "frame_too_small" => Some(ParseFailed(TooSmall))
    case "bad_magic" => Some(ParseFailed(BadMagic))
    case "bad_protocol_version" => Some(ParseFailed(BadVersion))
    case "ciphertext_too_large" => Some(ParseFailed(CtLenExceedsLimit))
    case "frame_truncated" => Some(ParseFailed(LengthMismatch))
    case "frame_trailing_bytes" => Some(ParseFailed(TrailingBytes))
    case "no_store" => Some(NoStore)
    case "unknown_reader" => Some(UnknownReader)
    case "reader_door_forbidden" => Some(ReaderDoorForbidden)
    case "bad_key_version" => Some(BadKeyVersion)
    case "replay" => Some(Replay)
    case "key_derivation_failed" => Some(KeyDerivationFailed)
    case "mac_verification_failed" => Some(MacVerificationFailed)
    case "decrypt_failed" => Some(DecryptFailed)
    case "too_old" => Some(TooOld)
    case "too_future" => Some(TooFuture)
    case "quarantined" => Some(Quarantined)
    case "bad_payload" => Some(BadPayload)
    case "bad_action" => Some(BadAction)
    case "unknown_card" => Some(UnknownCard)
    case "forbidden" => Some(Forbidden)
    case _ => None
  }

  lemma ParseCodeReads(e: ParseError)
    ensures ReasonOf(ParseCode(e)) == Some(ParseFailed(e))
  {
  }

  lemma HandlerCodeReads(r: Reason)
    requires r == NoStore || r == UnknownReader || r == ReaderDoorForbidden || r == BadKeyVersion || r == Replay
    ensures ReasonOf(HandlerCode(r)) == Some(r)
  {
  }

  lemma CipherCodeReads(r: Reason)
    requires r == KeyDerivationFailed || r == MacVerificationFailed || r == DecryptFailed || r == TooOld || r == TooFuture
    ensures ReasonOf(CipherCode(r)) == Some(r)
  {
  }

  lemma PolicyCodeReads(r: Reason)
    requires r == Ok || r == Quarantined || r == BadPayload || r == BadAction || r == UnknownCard || r == Forbidden
    ensures ReasonOf(PolicyCode(r)) == Some(r)
  {
  }

  /** Every reason has its own text, and reads back from it. */
  lemma CodeReads(r: Reason)
    ensures ReasonOf(Code(r)) == Some(r)
  {
    hide ReasonOf, ParseCode, HandlerCode, CipherCode, PolicyCode;
    match r
    case ParseFailed(e) => ParseCodeReads(e);
    case NoStore | UnknownReader | ReaderDoorForbidden | BadKeyVersion | Replay => HandlerCodeReads(r);
    case KeyDerivationFailed | MacVerificationFailed | DecryptFailed | TooOld | TooFuture => CipherCodeReads(r);
    case Ok | Quarantined | BadPayload | BadAction | UnknownCard | Forbidden => PolicyCodeReads(r);
  }

  /** Source text as bytes; every literal of the program is plain ASCII. */
  function Byte(c: char): U8 {
    if c as int < 0x80 then c as int else 0x3f
  }

  function Ascii(s: string): (t: Text)
    ensures |t| == |s|
    ensures '\0' !in s ==> 0 !in t
  {
    seq(|s|, i requires 0 <= i < |s| => Byte(s[i]))
  }

  const OPEN: Text := Ascii("open")

  datatype AuditEvent = AuditEvent(
    tsUnixMs: U64,
    readerId: U32,
    doorId: U32,
    seqNo: U64,
    allow: bool,
    reason: Text,
    cardId: Text,
    action: Text)

  /** The storage step at which an append throws, if any. */
  datatype Fault = NoFault | BeginFails | InsertFails | AnchorFails | CommitFails
}
