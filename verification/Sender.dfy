/** The sending side (access_admin/src/service/hw_service.cpp) and its agreement with handler and engine. */
module Sender {
  import opened Options
  import opened Words
  import opened WireCodec
  import opened Domain
  import opened AnomalyDetector
  import opened ReplayHistory
  import opened FrameHandling
  import opened Decisions
  import opened GrantTable

  /** What the admin service puts into a frame. */
  datatype Scan = Scan(readerId: U32, doorId: U32, seqNo: U64, keyVersion: U32, tsUnixMs: U64, request: AccessRequest)

  /** The header the nonce is derived from: all fields, nonce zeroed. */
  function BareHeader(scan: Scan): Header {
    Header(scan.readerId, scan.doorId, scan.tsUnixMs, scan.seqNo, scan.keyVersion, ZERO_NONCE)
  }

  function WithNonce(scan: Scan, nonce: Nonce): Header {
    Header(scan.readerId, scan.doorId, scan.tsUnixMs, scan.seqNo, scan.keyVersion, nonce)
  }

  /** Random mode draws the nonce; every other mode derives it. `random` stands for the draw. */
  function SenderNonce(p: Primitives, cfg: FrameHandlerConfig, scan: Scan, random: Nonce): Nonce {
    if cfg.nonceMode == Random then random
    else HmacNonce(p, p.nonceKey(scan.readerId, scan.keyVersion), cfg.cipherMode, HeaderBytes(BareHeader(scan)))
  }

  function SealedFrame(p: Primitives, cfg: FrameHandlerConfig, scan: Scan, key: Key, nonce: Nonce): Frame {
    var h := WithNonce(scan, nonce);
    var c := SealWithNonce(p, cfg.cipherMode, key, p.payloadJson(scan.request), AadFor(cfg, h), nonce);
    Frame(h, c.ct, c.tag)
  }

  /**
    What a sent frame is made of: the scan's fields; a drawn nonce, or the HMAC
    of the header bytes with the nonce zeroed, cut to what the cipher takes and
    zero filled; and a box under the key of the reader and version, or the
    master key in direct mode, bound to the header bytes in full mode.
   */
  ghost predicate IsSealed(p: Primitives, cfg: FrameHandlerConfig, scan: Scan, random: Nonce, f: Frame) {
    var h := f.header;
    var sys := System(p, cfg, DetectorConfig(true, 0, 0), false, false);
    && h == Header(scan.readerId, scan.doorId, scan.tsUnixMs, scan.seqNo, scan.keyVersion, h.nonce)
    && (if cfg.nonceMode == Random then h.nonce == random
        else HasDerivedNonce(sys, h) && h.nonce == NonceUsed(cfg.cipherMode, h.nonce) + Zeros(24)[|NonceUsed(cfg.cipherMode, h.nonce)|..])
    && exists k :: IsFrameKey(sys, h, k)
         && Sealed(f.ct, f.tag) == p.seal(cfg.cipherMode, k, NonceUsed(cfg.cipherMode, h.nonce),
                                          if cfg.withoutAad then [] else HeaderBytes(h), p.payloadJson(scan.request))
  }

  /** The bytes sent, unless the key derivation throws. */
  method BuildEncryptedFrameBytes(p: Primitives, cfg: FrameHandlerConfig, scan: Scan, random: Nonce)
    returns (bytes: Option<Bytes>)
    ensures bytes == None <==> !cfg.directKey && p.aeadKey(scan.readerId, scan.keyVersion) == None
    ensures bytes.Some? ==> exists f :: bytes.value == FrameBytes(f) && IsSealed(p, cfg, scan, random, f)
    ensures bytes == match AeadKeyFor(p, cfg, BareHeader(scan))
                     case None => None
                     case Some(key) => Some(FrameBytes(SealedFrame(p, cfg, scan, key, SenderNonce(p, cfg, scan, random))))
  {
    hide FrameBytes, HeaderBytes, HmacNonce, IsSealed;
    SealedLaw(p, cfg, scan, random);
    var payload := p.payloadJson(scan.request);
    var key := AeadKeyFor(p, cfg, BareHeader(scan));
    if key == None {
      return None;
    }
    var nonce := random;
    if cfg.nonceMode != Random {
      var context := ToBytes(BareHeader(scan));
      nonce := HmacNonce(p, p.nonceKey(scan.readerId, scan.keyVersion), cfg.cipherMode, context);
    }
    var h := WithNonce(scan, nonce);
    var aad: Bytes := [];
    if !cfg.withoutAad {
      aad := ToBytes(h);
    }
    var c := SealWithNonce(p, cfg.cipherMode, key.value, payload, aad, nonce);
    var out := Serialize(Frame(h, c.ct, c.tag));
    return Some(out);
  }

  lemma SealedLaw(p: Primitives, cfg: FrameHandlerConfig, scan: Scan, random: Nonce)
    ensures AeadKeyFor(p, cfg, BareHeader(scan)) == None <==> !cfg.directKey && p.aeadKey(scan.readerId, scan.keyVersion) == None
    ensures AeadKeyFor(p, cfg, BareHeader(scan)).Some? ==>
              var key := AeadKeyFor(p, cfg, BareHeader(scan)).value;
              IsSealed(p, cfg, scan, random, SealedFrame(p, cfg, scan, key, SenderNonce(p, cfg, scan, random)))
  {
    if AeadKeyFor(p, cfg, BareHeader(scan)).Some? {
      var key, nonce := AeadKeyFor(p, cfg, BareHeader(scan)).value, SenderNonce(p, cfg, scan, random);
      var f := SealedFrame(p, cfg, scan, key, nonce);
      var sys := System(p, cfg, DetectorConfig(true, 0, 0), false, false);
      if cfg.nonceMode != Random {
        NonceAgreement(p, cfg, scan, random);
        NoncePassesExactly(sys, f.header);
      }
      assert IsFrameKey(sys, f.header, key);
      hide HeaderBytes, HasDerivedNonce;
      assert nonce[..24] == nonce;
    }
  }

  /** The receiver recomputes exactly the nonce the sender used, for both ciphers. */
  lemma NonceAgreement(p: Primitives, cfg: FrameHandlerConfig, scan: Scan, random: Nonce)
    requires cfg.nonceMode != Random
    ensures NonceMatches(p, cfg, WithNonce(scan, SenderNonce(p, cfg, scan, random)))
  {
    hide HeaderBytes;
    assert NonceContext(WithNonce(scan, SenderNonce(p, cfg, scan, random))) == HeaderBytes(BareHeader(scan));
  }

  /** The scan's fields that the sender puts into a header. */
  predicate SameFields(scan: Scan, scan': Scan) {
    && scan.readerId == scan'.readerId && scan.doorId == scan'.doorId && scan.tsUnixMs == scan'.tsUnixMs
    && scan.seqNo == scan'.seqNo && scan.keyVersion == scan'.keyVersion
  }

  /**
    Under one nonce key, derived nonces are equal exactly for scans with equal
    header fields, or for two contexts whose HMACs agree on the bytes the
    cipher takes.
   */
  lemma EqualNoncesExactly(p: Primitives, cfg: FrameHandlerConfig, scan: Scan, scan': Scan, random: Nonce, random': Nonce)
    requires cfg.nonceMode != Random
    requires scan.readerId == scan'.readerId && scan.keyVersion == scan'.keyVersion
    ensures
      var x, y := HeaderBytes(BareHeader(scan)), HeaderBytes(BareHeader(scan'));
      var key := p.nonceKey(scan.readerId, scan.keyVersion);
      var n := if cfg.cipherMode == XChaCha20Poly1305 then 24 else 12;
      SenderNonce(p, cfg, scan, random) == SenderNonce(p, cfg, scan', random') <==>
      SameFields(scan, scan') || (x != y && p.hmac(key, x)[..n] == p.hmac(key, y)[..n])
  {
    hide HeaderBytes;
    HeaderOfBytes(BareHeader(scan));
    HeaderOfBytes(BareHeader(scan'));
    var n := NonceLen(cfg.cipherMode);
    var key := p.nonceKey(scan.readerId, scan.keyVersion);
    NonceFront(p, key, cfg.cipherMode, HeaderBytes(BareHeader(scan)));
    NonceFront(p, key, cfg.cipherMode, HeaderBytes(BareHeader(scan')));
  }

  lemma NonceFront(p: Primitives, key: Key, mode: CipherMode, context: Bytes)
    ensures HmacNonce(p, key, mode, context)[..NonceLen(mode)] == p.hmac(key, context)[..NonceLen(mode)]
    ensures HmacNonce(p, key, mode, context)[NonceLen(mode)..] == ZERO_NONCE[NonceLen(mode)..]
  {
  }

  /** With the header as associated data, boxes under equal associated data have equal headers. */
  lemma AadBindsHeader(cfg: FrameHandlerConfig, h: Header, g: Header)
    requires !cfg.withoutAad && AadFor(cfg, h) == AadFor(cfg, g)
    ensures h == g
  {
    HeaderOfBytes(h);
    HeaderOfBytes(g);
  }

  /** The nonce context determines every header field but the nonce. */
  lemma ContextBindsFields(h: Header, g: Header)
    requires NonceContext(h) == NonceContext(g)
    ensures h == Header(g.readerId, g.doorId, g.tsUnixMs, g.seqNo, g.keyVersion, h.nonce)
  {
    HeaderOfBytes(Header(h.readerId, h.doorId, h.tsUnixMs, h.seqNo, h.keyVersion, ZERO_NONCE));
    HeaderOfBytes(Header(g.readerId, g.doorId, g.tsUnixMs, g.seqNo, g.keyVersion, ZERO_NONCE));
  }

  /** Whatever the sender sealed, the receiver under the same modes opens to the same payload. */
  lemma SealOpens(p: Primitives, cfg: FrameHandlerConfig, scan: Scan, key: Key, nonce: Nonce)
    requires OpenUndoesSeal(p)
    ensures
      var f := SealedFrame(p, cfg, scan, key, nonce);
      && OpenWithNonce(p, cfg.cipherMode, key, Sealed(f.ct, f.tag), AadFor(cfg, f.header), f.header.nonce)
         == Some(p.payloadJson(scan.request))
      && |f.ct| == |p.payloadJson(scan.request)|
  {
    hide HeaderBytes;
    var h := WithNonce(scan, nonce);
    var c := p.seal(cfg.cipherMode, key, nonce[..NonceLen(cfg.cipherMode)], AadFor(cfg, h), p.payloadJson(scan.request));
    assert p.unseal(cfg.cipherMode, key, nonce[..NonceLen(cfg.cipherMode)], AadFor(cfg, h), c)
           == Some(p.payloadJson(scan.request));
    assert Sealed(c.ct, c.tag) == c;
  }

  /** The receiver's preconditions for a scan apart from its number: registered, bound, version in band, small enough, clock close. */
  predicate Eligible(cfg: FrameHandlerConfig, p: Primitives, store: Store, now: U64, scan: Scan) {
    && store.CurrentKeyVersionForReader(scan.readerId) != 0
    && KeyVersionAccepted(cfg, scan.keyVersion, store.CurrentKeyVersionForReader(scan.readerId))
    && (cfg.enforceReaderDoorBinding ==> (scan.readerId, scan.doorId) in store.readerDoors)
    && |p.payloadJson(scan.request)| <= cfg.maxCtLen
    && CheckTimestamp(cfg.maxSkewMs, now, scan.tsUnixMs) == None
  }

  predicate Expected(cfg: FrameHandlerConfig, p: Primitives, store: Store, now: U64, hs: Histories, scan: Scan) {
    && Eligible(cfg, p, store, now, scan)
    && (cfg.antiReplayEnabled ==> Fresh(WindowSize(cfg), HistoryOf(hs, scan.readerId), scan.seqNo))
  }

  /** A sent frame passes the handler with exactly the original payload. */
  lemma HandlerAcceptsSent(p: Primitives, cfg: FrameHandlerConfig, store: Store, now: U64, hs: Histories,
                           scan: Scan, random: Nonce, key: Key)
    requires OpenUndoesSeal(p) && AeadKeyFor(p, cfg, BareHeader(scan)) == Some(key)
    requires Expected(cfg, p, store, now, hs, scan)
    ensures
      var nonce := SenderNonce(p, cfg, scan, random);
      var bytes := FrameBytes(SealedFrame(p, cfg, scan, key, nonce));
      HandleFrame(p, cfg, Some(store), now, hs, bytes).0 ==
      HandleResult(true, Ok, p.payloadJson(scan.request), WithNonce(scan, nonce))
  {
    hide FrameBytes, ParseFrame, Fresh, OpenWithNonce, AadFor, CheckTimestamp, SenderNonce;
    var nonce := SenderNonce(p, cfg, scan, random);
    var f := SealedFrame(p, cfg, scan, key, nonce);
    SealOpens(p, cfg, scan, key, nonce);
    RoundTripExactly(f, cfg.maxCtLen);
    assert AeadKeyFor(p, cfg, f.header) == Some(key);
  }

  /** A sender that keeps counting up is never refused: a number above all recorded ones passes the handler. */
  lemma HandlerAcceptsNextNumber(p: Primitives, cfg: FrameHandlerConfig, store: Store, now: U64, hs: Histories,
                                 scan: Scan, random: Nonce, key: Key)
    requires OpenUndoesSeal(p) && AeadKeyFor(p, cfg, BareHeader(scan)) == Some(key)
    requires Eligible(cfg, p, store, now, scan) && MaxOf(HistoryOf(hs, scan.readerId)) < scan.seqNo
    ensures
      var nonce := SenderNonce(p, cfg, scan, random);
      var bytes := FrameBytes(SealedFrame(p, cfg, scan, key, nonce));
      HandleFrame(p, cfg, Some(store), now, hs, bytes).0 ==
      HandleResult(true, Ok, p.payloadJson(scan.request), WithNonce(scan, nonce))
  {
    AboveMaximumIsFresh(WindowSize(cfg), HistoryOf(hs, scan.readerId), scan.seqNo);
    HandlerAcceptsSent(p, cfg, store, now, hs, scan, random, key);
  }

  /**
    End to end: under the sender's modes, with a detector that does not object
    to the reader or the number, a sent frame gets exactly the verdict of the
    policy on the request that was sent.
   */
  lemma SentFrameGetsItsPolicy(sys: System, st: EngineState, env: Env, scan: Scan, random: Nonce, key: Key)
    requires OpenUndoesSeal(sys.prims) && env.store.Some?
    requires AeadKeyFor(sys.prims, sys.config, BareHeader(scan)) == Some(key)
    requires Expected(sys.config, sys.prims, env.store.value, env.decryptClock, st.windows, scan)
    requires sys.prims.requestJson(sys.prims.payloadJson(scan.request)) == Some(scan.request)
    requires scan.request.cardId != [] && scan.request.action != []
    requires sys.detector.enabled ==>
               !IsQuarantined(st.readers, scan.readerId)
               && (scan.seqNo == 0 || !RollsBack(sys.detector, StateOf(st.readers, scan.readerId), scan.seqNo))
    ensures
      var nonce := SenderNonce(sys.prims, sys.config, scan, random);
      var bytes := FrameBytes(SealedFrame(sys.prims, sys.config, scan, key, nonce));
      VerdictOf(sys, st, env, bytes) ==
      CheckAccessPolicy(sys.prims, sys.config, env.store, WithNonce(scan, nonce), scan.request)
  {
    hide HandleFrame, FrameBytes, SealedFrame, NonceMatches, CheckAccessPolicy, SenderNonce, RollsBack, Expected, AeadKeyFor;
    HandlerAcceptsSent(sys.prims, sys.config, env.store.value, env.decryptClock, st.windows, scan, random, key);
    if sys.config.nonceMode == Deterministic {
      NonceAgreement(sys.prims, sys.config, scan, random);
    }
  }
}
