/**
  Frame handling: parse, reader and key-version checks, replay check, decrypt,
  remember (access_core/src/handle_frame.cpp, frame_decryptor.cpp).
 */
module FrameHandling {
  import opened Options
  import opened Words
  import opened WireCodec
  import opened Domain
  import opened ReplayHistory
  import opened ReplayCache

  datatype HandleResult = HandleResult(allow: bool, reason: Reason, plaintext: Bytes, header: Header)

  /** Each reader's window, as the history of numbers it has recorded. */
  type Histories = map<U32, History>

  function HistoryOf(hs: Histories, readerId: U32): History {
    if readerId in hs then hs[readerId] else []
  }

  function Rejected(reason: Reason, header: Header): HandleResult {
    HandleResult(false, reason, [], header)
  }

  predicate KeyVersionAccepted(cfg: FrameHandlerConfig, kv: U32, currentKv: U32) {
    kv == currentKv || (cfg.allowPreviousKeyVersion && currentKv > 1 && (kv + 1) % TWO32 == currentKv)
  }

  /** The current version and, if allowed, the one before. */
  predicate VersionInBand(cfg: FrameHandlerConfig, kv: U32, currentKv: U32) {
    kv == currentKv || (cfg.allowPreviousKeyVersion && currentKv > 1 && kv == currentKv - 1)
  }

  /** The 32-bit test accepts exactly the band; no wrap enters it. */
  lemma KeyVersionBand(cfg: FrameHandlerConfig, kv: U32, currentKv: U32)
    ensures KeyVersionAccepted(cfg, kv, currentKv) <==> VersionInBand(cfg, kv, currentKv)
    ensures KeyVersionAccepted(cfg, kv, currentKv) && kv != currentKv ==> cfg.allowPreviousKeyVersion && kv == currentKv - 1 >= 1
    ensures kv == currentKv || (cfg.allowPreviousKeyVersion && kv == currentKv - 1 >= 1) ==> KeyVersionAccepted(cfg, kv, currentKv)
  {
  }

  /** Registration, door binding and key version; the reason of the first that fails. */
  function Screen(cfg: FrameHandlerConfig, store: Option<Store>, h: Header): (r: Option<Reason>)
    ensures r != Some(Ok)
  {
    if store == None then Some(NoStore)
    else
      var currentKv := store.value.CurrentKeyVersionForReader(h.readerId);
      if currentKv == 0 then Some(UnknownReader)
      else if cfg.enforceReaderDoorBinding && (h.readerId, h.doorId) !in store.value.readerDoors
      then Some(ReaderDoorForbidden)
      else if !KeyVersionAccepted(cfg, h.keyVersion, currentKv) then Some(BadKeyVersion)
      else None
  }

  function AeadKeyFor(p: Primitives, cfg: FrameHandlerConfig, h: Header): Option<Key> {
    if cfg.directKey then Some(p.masterKey) else p.aeadKey(h.readerId, h.keyVersion)
  }

  function AadFor(cfg: FrameHandlerConfig, h: Header): Bytes {
    if cfg.withoutAad then [] else HeaderBytes(h)
  }

  /** Absolute clock skew against the limit; a limit of 0 turns the check off. */
  function CheckTimestamp(maxSkewMs: U64, now: U64, ts: U64): Option<Reason> {
    if maxSkewMs == 0 then None
    else if now >= ts then (if now - ts > maxSkewMs then Some(TooOld) else None)
    else if ts - now > maxSkewMs then Some(TooFuture) else None
  }

  datatype Opened = Plain(plaintext: Bytes) | Unreadable(reason: Reason)

  /** Derive the key, open the box, then look at the clock. Every cipher failure reads `decrypt_failed`. */
  function OpenFrame(p: Primitives, cfg: FrameHandlerConfig, now: U64, f: Frame): (r: Opened)
    ensures r != Unreadable(Ok)
  {
    match AeadKeyFor(p, cfg, f.header)
    case None => Unreadable(KeyDerivationFailed)
    case Some(key) =>
      match OpenWithNonce(p, cfg.cipherMode, key, Sealed(f.ct, f.tag), AadFor(cfg, f.header), f.header.nonce)
      case None => Unreadable(DecryptFailed)
      case Some(plaintext) =>
        match CheckTimestamp(cfg.maxSkewMs, now, f.header.tsUnixMs)
        case Some(reason) => Unreadable(reason)
        case None => Plain(plaintext)
  }

  /** Looking a window up creates it. */
  function Touched(cfg: FrameHandlerConfig, hs: Histories, r: U32): Histories {
    if cfg.antiReplayEnabled then hs[r := HistoryOf(hs, r)] else hs
  }

  function Recorded(cfg: FrameHandlerConfig, hs: Histories, r: U32, s: U64): Histories {
    if cfg.antiReplayEnabled then hs[r := HistoryOf(hs, r) + [s]] else hs
  }

  lemma RecordedAfterTouch(cfg: FrameHandlerConfig, hs: Histories, r: U32, s: U64)
    ensures Recorded(cfg, Touched(cfg, hs, r), r, s) == Recorded(cfg, hs, r, s)
  {
  }

  predicate IsReplay(cfg: FrameHandlerConfig, hs: Histories, r: U32, s: U64) {
    cfg.antiReplayEnabled && !Fresh(WindowSize(cfg), HistoryOf(hs, r), s)
  }

  /** Replay check, decryption, and recording the number of a frame that passed the screen. */
  function HandleScreened(p: Primitives, cfg: FrameHandlerConfig, now: U64, hs: Histories, f: Frame)
    : (HandleResult, Histories)
  {
    var r, s := f.header.readerId, f.header.seqNo;
    if IsReplay(cfg, hs, r, s) then (Rejected(Replay, f.header), Touched(cfg, hs, r))
    else
      match OpenFrame(p, cfg, now, f)
      case Unreadable(reason) => (Rejected(reason, f.header), Touched(cfg, hs, r))
      case Plain(plaintext) => (HandleResult(true, Ok, plaintext, f.header), Recorded(cfg, hs, r, s))
  }

  /** Handling one frame over the recorded histories. */
  function HandleFrame(p: Primitives, cfg: FrameHandlerConfig, store: Option<Store>, now: U64, hs: Histories, bytes: Bytes)
    : (HandleResult, Histories)
  {
    match ParseFrame(bytes, cfg.maxCtLen)
    case Malformed(e) => (Rejected(ParseFailed(e), ZERO_HEADER), hs)
    case Parsed(f) =>
      var screened := Screen(cfg, store, f.header);
      if screened.Some? then (Rejected(screened.value, f.header), hs)
      else HandleScreened(p, cfg, now, hs, f)
  }

  /** The reader a byte string is attributed to; what does not parse counts as reader 0. */
  function HeaderFor(cfg: FrameHandlerConfig, bytes: Bytes): Header {
    match ParseFrame(bytes, cfg.maxCtLen)
    case Malformed(_) => ZERO_HEADER
    case Parsed(f) => f.header
  }

  /** What does not parse is rejected with the parse error under a header of zeros, and touches no window. */
  lemma MalformedIsReaderZero(p: Primitives, cfg: FrameHandlerConfig, store: Option<Store>, now: U64, hs: Histories,
                              bytes: Bytes, e: ParseError)
    requires ParseFrame(bytes, cfg.maxCtLen) == Malformed(e)
    ensures HandleFrame(p, cfg, store, now, hs, bytes) ==
            (HandleResult(false, ParseFailed(e), [], Header(0, 0, 0, 0, 0, Zeros(24))), hs)
    ensures HeaderFor(cfg, bytes).readerId == 0
  {
    hide ParseFrame;
  }

  /** The one way a frame touches the windows: an allowed frame appends its fresh number to its reader's history. */
  lemma HandlerFootprint(p: Primitives, cfg: FrameHandlerConfig, store: Option<Store>, now: U64, hs: Histories, bytes: Bytes)
    ensures
      var (res, hs') := HandleFrame(p, cfg, store, now, hs, bytes);
      var h := HeaderFor(cfg, bytes);
      && res.header == h
      && (forall r: U32 :: HistoryOf(hs', r) ==
            HistoryOf(hs, r) + if res.allow && cfg.antiReplayEnabled && r == h.readerId then [h.seqNo] else [])
      && (res.allow && cfg.antiReplayEnabled ==> Fresh(WindowSize(cfg), HistoryOf(hs, h.readerId), h.seqNo))
      && (res.allow <==> res.reason == Ok)
  {
    hide Fresh, OpenFrame, ParseFrame, Screen;
  }

  /** The result depends on the windows only through the frame's own reader. */
  lemma HandlerIsLocal(p: Primitives, cfg: FrameHandlerConfig, store: Option<Store>, now: U64,
                       hs: Histories, hs': Histories, bytes: Bytes)
    requires HistoryOf(hs, HeaderFor(cfg, bytes).readerId) == HistoryOf(hs', HeaderFor(cfg, bytes).readerId)
    ensures HandleFrame(p, cfg, store, now, hs, bytes).0 == HandleFrame(p, cfg, store, now, hs', bytes).0
  {
    hide Fresh, OpenFrame, ParseFrame, Screen;
  }

  // ---- runs of the handler ----

  datatype Arrival = Arrival(store: Option<Store>, now: U64, bytes: Bytes)

  function HandlerRun(p: Primitives, cfg: FrameHandlerConfig, hs: Histories, arrivals: seq<Arrival>)
    : (run: (seq<HandleResult>, Histories))
    ensures |run.0| == |arrivals|
    decreases |arrivals|
  {
    if arrivals == [] then ([], hs)
    else
      var a := arrivals[0];
      var (res, hs') := HandleFrame(p, cfg, a.store, a.now, hs, a.bytes);
      var (rest, last) := HandlerRun(p, cfg, hs', arrivals[1..]);
      ([res] + rest, last)
  }

  lemma HandlerRunFirst(p: Primitives, cfg: FrameHandlerConfig, hs: Histories, arrivals: seq<Arrival>)
    requires arrivals != []
    ensures
      var a := arrivals[0];
      var (res, next) := HandleFrame(p, cfg, a.store, a.now, hs, a.bytes);
      var (results, last) := HandlerRun(p, cfg, hs, arrivals);
      results[0] == res && (results[1..], last) == HandlerRun(p, cfg, next, arrivals[1..])
  {
    hide HandleFrame;
  }

  /** The arrivals whose frame was allowed. */
  function Survivors(arrivals: seq<Arrival>, results: seq<HandleResult>): seq<Arrival>
    requires |arrivals| == |results|
  {
    if arrivals == [] then []
    else (if results[0].allow then [arrivals[0]] else []) + Survivors(arrivals[1..], results[1..])
  }

  function Allowed(results: seq<HandleResult>): seq<HandleResult> {
    if results == [] then []
    else (if results[0].allow then [results[0]] else []) + Allowed(results[1..])
  }

  ghost predicate SameHistories(hs: Histories, hs': Histories) {
    forall r: U32 :: HistoryOf(hs, r) == HistoryOf(hs', r)
  }

  /**
    Rejected frames leave no trace: with every one of them deleted, the
    allowed frames get the same results and the windows end up the same.
   */
  lemma {:induction false} RejectedLeaveNoTrace(p: Primitives, cfg: FrameHandlerConfig,
                                                hs: Histories, hs': Histories, arrivals: seq<Arrival>)
    requires SameHistories(hs, hs')
    ensures
      var (results, last) := HandlerRun(p, cfg, hs, arrivals);
      var (results', last') := HandlerRun(p, cfg, hs', Survivors(arrivals, results));
      results' == Allowed(results) && SameHistories(last, last')
    decreases |arrivals|
  {
    hide HandleFrame, HistoryOf, HeaderFor;
    if arrivals != [] {
      var a := arrivals[0];
      var (res, next) := HandleFrame(p, cfg, a.store, a.now, hs, a.bytes);
      var results := HandlerRun(p, cfg, hs, arrivals).0;
      var survivors := Survivors(arrivals, results);
      HandlerRunFirst(p, cfg, hs, arrivals);
      HandlerFootprint(p, cfg, a.store, a.now, hs, a.bytes);
      if res.allow {
        HandlerFootprint(p, cfg, a.store, a.now, hs', a.bytes);
        HandlerIsLocal(p, cfg, a.store, a.now, hs, hs', a.bytes);
        var next' := HandleFrame(p, cfg, a.store, a.now, hs', a.bytes).1;
        RejectedLeaveNoTrace(p, cfg, next, next', arrivals[1..]);
        assert survivors[0] == a && survivors[1..] == Survivors(arrivals[1..], results[1..]);
      } else {
        RejectedLeaveNoTrace(p, cfg, next, hs', arrivals[1..]);
        assert survivors == Survivors(arrivals[1..], results[1..]);
      }
    }
  }

  function NumbersOf(r: U32, results: seq<HandleResult>): History {
    if results == [] then []
    else (if results[0].header.readerId == r then [results[0].header.seqNo] else []) + NumbersOf(r, results[1..])
  }

  lemma NumbersOfCons(r: U32, results: seq<HandleResult>)
    requires results != []
    ensures NumbersOf(r, Allowed(results)) ==
            (if results[0].allow && results[0].header.readerId == r then [results[0].header.seqNo] else [])
            + NumbersOf(r, Allowed(results[1..]))
  {
    var rest := Allowed(results[1..]);
    assert ([results[0]] + rest)[1..] == rest;
    assert [] + rest == rest;
  }

  /** Each window is the fold of its reader's allowed frames, and every step of the fold was accepted. */
  lemma {:induction false} WindowIsFoldOfAllowed(p: Primitives, cfg: FrameHandlerConfig, hs: Histories,
                                                 arrivals: seq<Arrival>, r: U32)
    requires cfg.antiReplayEnabled && Admissible(WindowSize(cfg), HistoryOf(hs, r))
    ensures
      var (results, last) := HandlerRun(p, cfg, hs, arrivals);
      && HistoryOf(last, r) == HistoryOf(hs, r) + NumbersOf(r, Allowed(results))
      && Admissible(WindowSize(cfg), HistoryOf(last, r))
    decreases |arrivals|
  {
    hide HandleFrame, HistoryOf, Admissible, Fresh, WindowSize, HeaderFor;
    if arrivals != [] {
      var a := arrivals[0];
      var next := HandleFrame(p, cfg, a.store, a.now, hs, a.bytes).1;
      var results := HandlerRun(p, cfg, hs, arrivals).0;
      HandlerRunFirst(p, cfg, hs, arrivals);
      hide HandlerRun, Allowed;
      HandlerFootprint(p, cfg, a.store, a.now, hs, a.bytes);
      if results[0].allow && HeaderFor(cfg, a.bytes).readerId == r {
        AdmissibleAppend(WindowSize(cfg), HistoryOf(hs, r), HeaderFor(cfg, a.bytes).seqNo);
      } else {
        assert HistoryOf(next, r) == HistoryOf(hs, r);
      }
      WindowIsFoldOfAllowed(p, cfg, next, arrivals[1..], r);
      NumbersOfCons(r, results);
    }
  }

  // ---- the handler object ----

  class FrameHandler {
    const prims: Primitives
    const config: FrameHandlerConfig
    var replayWindows: map<U32, ReplayWindow>

    /** Every window is sound and of the configured size, and no two readers share one. */
    ghost predicate Valid()
      reads this, replayWindows.Values
    {
      && (forall r :: r in replayWindows ==>
            replayWindows[r].Valid() && replayWindows[r].window == WindowSize(config))
      && forall r, q :: r in replayWindows && q in replayWindows && r != q ==> replayWindows[r] != replayWindows[q]
    }

    /** Windows already there stay the same objects; others are new. */
    twostate predicate Grown(before: map<U32, ReplayWindow>)
      reads this
    {
      forall r :: r in replayWindows ==>
        (r in before && replayWindows[r] == before[r]) || fresh(replayWindows[r])
    }

    ghost function State(): Histories
      reads this, replayWindows.Values
    {
      map r | r in replayWindows :: replayWindows[r].history
    }

    constructor (prims: Primitives, config: FrameHandlerConfig)
      ensures Valid() && State() == map[] && replayWindows == map[]
      ensures this.prims == prims && this.config == config
    {
      this.prims, this.config := prims, config;
      replayWindows := map[];
    }

    method ValidateReader(store: Option<Store>, h: Header) returns (err: Option<Reason>, keyVersion: U32)
      ensures err == (if store == None then Some(NoStore)
                      else if store.value.CurrentKeyVersionForReader(h.readerId) == 0 then Some(UnknownReader)
                      else if config.enforceReaderDoorBinding && (h.readerId, h.doorId) !in store.value.readerDoors
                      then Some(ReaderDoorForbidden) else None)
      ensures store.Some? ==> keyVersion == store.value.CurrentKeyVersionForReader(h.readerId)
    {
      keyVersion := 0;
      if store == None {
        return Some(NoStore), keyVersion;
      }
      keyVersion := store.value.CurrentKeyVersionForReader(h.readerId);
      if keyVersion == 0 {
        return Some(UnknownReader), keyVersion;
      }
      if config.enforceReaderDoorBinding {
        if (h.readerId, h.doorId) !in store.value.readerDoors {
          return Some(ReaderDoorForbidden), keyVersion;
        }
      }
      return None, keyVersion;
    }

    method GetOrCreateWindow(readerId: U32) returns (w: ReplayWindow)
      requires Valid()
      modifies this`replayWindows
      ensures Valid()
      ensures readerId in replayWindows && w == replayWindows[readerId]
      ensures State() == old(State())[readerId := HistoryOf(old(State()), readerId)]
      ensures w.history == HistoryOf(old(State()), readerId)
      ensures Grown(old(replayWindows))
      ensures config.replayWindowSize >= 1 ==> w.window == config.replayWindowSize
      ensures config.replayWindowSize == 0 ==> w.window == 1
    {
      ConfiguredWindow(config);
      hide Represents, WindowSize;
      if readerId !in replayWindows {
        var created := new ReplayWindow(WindowSize(config));
        replayWindows := replayWindows[readerId := created];
      }
      w := replayWindows[readerId];
    }

    method RememberIn(readerId: U32, s: U64)
      requires Valid() && readerId in replayWindows && Fresh(WindowSize(config), replayWindows[readerId].history, s)
      modifies replayWindows[readerId]
      ensures Valid()
      ensures State() == old(State())[readerId := old(State())[readerId] + [s]]
    {
      hide Represents, Fresh, WindowSize;
      var w := replayWindows[readerId];
      w.Remember(s);
    }

    /** The result of one frame; `now` is the clock read during decryption. */
    method Handle(store: Option<Store>, now: U64, bytes: Bytes) returns (res: HandleResult)
      requires Valid()
      modifies this`replayWindows, replayWindows.Values
      ensures Valid() && Grown(old(replayWindows))
      ensures (res, State()) == HandleFrame(prims, config, store, now, old(State()), bytes)
    {
      hide HandleScreened, ParseFrame, Represents;
      var parser := new FrameParser(bytes, config.maxCtLen);
      var parsed := parser.Parse();
      if parsed.Malformed? {
        return Rejected(ParseFailed(parsed.error), ZERO_HEADER);
      }
      var frame := parsed.frame;
      var h := frame.header;
      var err, keyVersion := ValidateReader(store, h);
      if err.Some? {
        return Rejected(err.value, h);
      }
      if !KeyVersionAccepted(config, h.keyVersion, keyVersion) {
        return Rejected(BadKeyVersion, h);
      }
      res := CheckReplayAndDecrypt(now, frame);
    }

    /** Finds or creates the reader's window, unless anti-replay is off, and asks it about the number. */
    method CheckReplay(h: Header) returns (err: Option<Reason>)
      requires Valid()
      modifies this`replayWindows
      ensures Valid() && Grown(old(replayWindows))
      ensures State() == Touched(config, old(State()), h.readerId)
      ensures err == if IsReplay(config, old(State()), h.readerId, h.seqNo) then Some(Replay) else None
      ensures config.antiReplayEnabled && err == None ==>
                h.readerId in replayWindows && Fresh(WindowSize(config), replayWindows[h.readerId].history, h.seqNo)
    {
      hide Fresh, Represents, WindowSize;
      if !config.antiReplayEnabled {
        return None;
      }
      var window := GetOrCreateWindow(h.readerId);
      var replay := window.Contains(h.seqNo);
      return if replay then Some(Replay) else None;
    }

    method CheckReplayAndDecrypt(now: U64, frame: Frame) returns (res: HandleResult)
      requires Valid()
      modifies this`replayWindows, replayWindows.Values
      ensures Valid() && Grown(old(replayWindows))
      ensures (res, State()) == HandleScreened(prims, config, now, old(State()), frame)
    {
      hide Fresh, OpenFrame, Represents, WindowSize, IsReplay, Valid, State;
      var err := CheckReplay(frame.header);
      if err.Some? {
        return Rejected(err.value, frame.header);
      }
      res := DecryptAndRemember(now, frame);
      RecordedAfterTouch(config, old(State()), frame.header.readerId, frame.header.seqNo);
    }

    /** Opens the frame, and records its number if that succeeds. */
    method DecryptAndRemember(now: U64, frame: Frame) returns (res: HandleResult)
      requires Valid()
      requires config.antiReplayEnabled ==>
                 frame.header.readerId in replayWindows
                 && Fresh(WindowSize(config), replayWindows[frame.header.readerId].history, frame.header.seqNo)
      modifies if config.antiReplayEnabled then {replayWindows[frame.header.readerId]} else {}
      ensures Valid()
      ensures match OpenFrame(prims, config, now, frame)
              case Unreadable(reason) => res == Rejected(reason, frame.header) && State() == old(State())
              case Plain(plaintext) =>
                && res == HandleResult(true, Ok, plaintext, frame.header)
                && State() == Recorded(config, old(State()), frame.header.readerId, frame.header.seqNo)
    {
      hide Fresh, OpenFrame, Represents, WindowSize;
      var content := TryDecrypt(now, frame);
      if content.Unreadable? {
        return Rejected(content.reason, frame.header);
      }
      if config.antiReplayEnabled {
        RememberIn(frame.header.readerId, frame.header.seqNo);
      }
      return HandleResult(true, Ok, content.plaintext, frame.header);
    }

    method TryDecrypt(now: U64, frame: Frame) returns (content: Opened)
      ensures content == OpenFrame(prims, config, now, frame)
    {
      var key := AeadKeyFor(prims, config, frame.header);
      if key == None {
        return Unreadable(KeyDerivationFailed);
      }
      var aad: Bytes := [];
      if !config.withoutAad {
        aad := ToBytes(frame.header);
      }
      var plaintext := OpenWithNonce(prims, config.cipherMode, key.value, Sealed(frame.ct, frame.tag), aad, frame.header.nonce);
      if plaintext == None {
        return Unreadable(DecryptFailed);
      }
      var skew := CheckTimestamp(config.maxSkewMs, now, frame.header.tsUnixMs);
      if skew.Some? {
        return Unreadable(skew.value);
      }
      return Plain(plaintext.value);
    }
  }
}
