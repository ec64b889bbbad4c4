/** The decision engine: handler, detector, policy and audit in one step (access_decision/src/engine.cpp). */
module Decisions {
  import opened Options
  import opened Words
  import opened WireCodec
  import opened Domain
  import opened AnomalyDetector
  import opened FrameHandling
  import opened AuditChain

  /** What stays fixed while the server runs. A detector that is absent counts as disabled. */
  datatype System = System(
    prims: Primitives,
    config: FrameHandlerConfig,
    detector: DetectorConfig,
    auditing: bool,
    auditChain: bool)

  /** What the surroundings supply at one frame: the store, two clock readings, and storage trouble. */
  datatype Env = Env(store: Option<Store>, decryptClock: U64, reportClock: U64, fault: Fault)

  datatype EngineState = EngineState(windows: Histories, readers: Readers, audit: seq<AuditEvent>)

  /** Windows and detector live in memory and start empty; the audit log is the table's. */
  function StartedOn(log: seq<AuditEvent>): EngineState {
    EngineState(map[], map[], log)
  }

  const INITIAL := StartedOn([])

  datatype Verdict = Verdict(allow: bool, reason: Reason, cardHmac: Text, action: Text)

  /** The detector afterwards, the verdict, and the anomaly that fired, if one did. */
  datatype Judgement = Judgement(readers: Readers, verdict: Verdict, anomaly: Option<AnomalyType>)

  datatype Outcome =
    | Decided(allow: bool, reason: Reason)
    | AppendThrew
    | Cleared(was: bool)

  function Denied(reason: Reason): Verdict {
    Verdict(false, reason, [], [])
  }

  /** The card's stored form and role, under the current pepper or the previous one. */
  function ResolveCard(p: Primitives, cfg: FrameHandlerConfig, store: Store, cardId: Text, currentKv: U32)
    : (Text, Option<Text>)
    requires currentKv >= 1
  {
    if cfg.staticPepper then
      var card := CardHmac(p, 1, cardId);
      (card, store.RoleForCardHmac(card))
    else
      var card := CardHmac(p, currentKv, cardId);
      var role := store.RoleForCardHmac(card);
      if role == None && cfg.allowPreviousKeyVersion && currentKv > 1 then
        var cardPrev := CardHmac(p, currentKv - 1, cardId);
        var rolePrev := store.RoleForCardHmac(cardPrev);
        (if rolePrev.Some? then cardPrev else card, rolePrev)
      else (card, role)
  }

  /** The policy stage; the verdict names the card and action only once the card was looked up. */
  function CheckAccessPolicy(p: Primitives, cfg: FrameHandlerConfig, store: Option<Store>, h: Header, request: AccessRequest)
    : Verdict
  {
    if request.action != OPEN then Denied(BadAction)
    else if store == None then Denied(NoStore)
    else
      var currentKv := store.value.CurrentKeyVersionForReader(h.readerId);
      if currentKv == 0 then Denied(UnknownReader)
      else
        var (card, role) := ResolveCard(p, cfg, store.value, request.cardId, currentKv);
        if role == None then Verdict(false, UnknownCard, card, request.action)
        else if (h.doorId, role.value) !in store.value.doorRoles then Verdict(false, Forbidden, card, request.action)
        else Verdict(true, Ok, card, request.action)
  }

  function DecidePayload(p: Primitives, cfg: FrameHandlerConfig, store: Option<Store>, fr: HandleResult): Verdict {
    match ParseAccessRequest(p, fr.plaintext)
    case None => Denied(BadPayload)
    case Some(request) => CheckAccessPolicy(p, cfg, store, fr.header, request)
  }

  predicate NonceMatches(p: Primitives, cfg: FrameHandlerConfig, h: Header) {
    var n := NonceLen(cfg.cipherMode);
    h.nonce[..n] == HmacNonce(p, p.nonceKey(h.readerId, h.keyVersion), cfg.cipherMode, NonceContext(h))[..n]
  }

  function RejectionAnomaly(config: DetectorConfig, s: ReaderState, reason: Reason): Option<AnomalyType> {
    if reason == Replay then Some(SeqReuse)
    else if reason == MacVerificationFailed || reason == DecryptFailed
    then if StreakReached(config, s) then Some(TagFailStreak) else None
    else None
  }

  /** What the detector makes of a frame the handler rejected. */
  function AfterRejection(config: DetectorConfig, readers: Readers, r: U32, reason: Reason, ts: U64): Readers {
    if reason == Replay then readers[r := Quarantine(StateOf(readers, r), SeqReuse, ts)]
    else if reason == MacVerificationFailed || reason == DecryptFailed
    then readers[r := AfterTagFailure(config, StateOf(readers, r), ts)]
    else readers
  }

  /** From the handler's result on, once the detector has let the frame through. */
  function JudgeUnflagged(sys: System, env: Env, readers: Readers, fr: HandleResult): Judgement {
    var r, watched := fr.header.readerId, sys.detector.enabled;
    if !fr.allow
    then Judgement(if watched then AfterRejection(sys.detector, readers, r, fr.reason, env.reportClock) else readers,
                   Denied(fr.reason),
                   if watched then RejectionAnomaly(sys.detector, StateOf(readers, r), fr.reason) else None)
    else Judgement(if watched then readers[r := AfterSuccess(StateOf(readers, r), fr.header.seqNo)] else readers,
                   DecidePayload(sys.prims, sys.config, env.store, fr), None)
  }

  /** Everything after the handler, in the order of the source. */
  function Judge(sys: System, env: Env, readers: Readers, fr: HandleResult): Judgement {
    var r, s, ts := fr.header.readerId, fr.header.seqNo, env.reportClock;
    if !sys.detector.enabled then JudgeUnflagged(sys, env, readers, fr)
    else if IsQuarantined(readers, r) then Judgement(readers, Denied(Quarantined), None)
    else
      var seen := if s > 0 then readers[r := AfterSeq(sys.detector, StateOf(readers, r), s, ts)] else readers;
      if s > 0 && RollsBack(sys.detector, StateOf(readers, r), s)
      then Judgement(seen, Denied(Quarantined), Some(SeqRollback))
      else if sys.config.nonceMode == Deterministic && !NonceMatches(sys.prims, sys.config, fr.header)
      then Judgement(seen[r := Quarantine(StateOf(seen, r), NonceMismatch, ts)], Denied(Quarantined), Some(NonceMismatch))
      else JudgeUnflagged(sys, env, seen, fr)
  }

  function EventFor(h: Header, v: Verdict): AuditEvent {
    AuditEvent(h.tsUnixMs, h.readerId, h.doorId, h.seqNo, v.allow, Ascii(Code(v.reason)), v.cardHmac, v.action)
  }

  /** Logs the verdict and returns it; if the append throws, the caller gets no decision. */
  function Conclude(sys: System, env: Env, st: EngineState, h: Header, v: Verdict): (EngineState, Outcome) {
    if !sys.auditing then (st, Decided(v.allow, v.reason))
    else if Commits(sys.auditChain, env.fault)
    then (st.(audit := st.audit + [EventFor(h, v)]), Decided(v.allow, v.reason))
    else (st, AppendThrew)
  }

  function FrameStep(sys: System, st: EngineState, env: Env, bytes: Bytes): (EngineState, Outcome) {
    var (fr, windows) := HandleFrame(sys.prims, sys.config, env.store, env.decryptClock, st.windows, bytes);
    var j := Judge(sys, env, st.readers, fr);
    Conclude(sys, env, EngineState(windows, j.readers, st.audit), fr.header, j.verdict)
  }

  datatype Input = Arrived(env: Env, bytes: Bytes) | Unquarantine(readerId: U32)

  function Step(sys: System, st: EngineState, input: Input): (EngineState, Outcome) {
    match input
    case Arrived(env, bytes) => FrameStep(sys, st, env, bytes)
    case Unquarantine(r) =>
      (st.(readers := AfterUnquarantine(st.readers, r)), Cleared(IsQuarantined(st.readers, r)))
  }
}

module DecisionObject {
  import opened Options
  import opened Words
  import opened WireCodec
  import opened Domain
  import opened AnomalyDetector
  import opened ReplayHistory
  import opened FrameHandling
  import opened AuditChain
  import opened Decisions

  class DecisionEngine {
    const sys: System
    const handler: FrameHandler
    const detector: ProtocolAnomalyDetector
    const log: SqliteAuditLog?

    ghost predicate Valid()
      reads handler, handler.replayWindows.Values, log
    {
      && handler.Valid() && handler.prims == sys.prims && handler.config == sys.config
      && detector.config == sys.detector
      && (log != null <==> sys.auditing)
      && (log != null ==> log.Valid() && log.chainEnabled == sys.auditChain)
    }

    ghost function State(): EngineState
      reads handler, handler.replayWindows.Values, detector, log
    {
      EngineState(handler.State(), detector.readers, if log == null then [] else log.events)
    }

    /** A start of the server: nothing in memory, and whatever the log already holds. */
    constructor (sys: System, log: SqliteAuditLog?)
      requires log != null <==> sys.auditing
      requires log != null ==> log.Valid() && log.chainEnabled == sys.auditChain
      ensures Valid() && this.sys == sys && this.log == log
      ensures State() == StartedOn(if log == null then [] else log.events)
    {
      this.sys, this.log := sys, log;
      handler := new FrameHandler(sys.prims, sys.config);
      detector := new ProtocolAnomalyDetector(sys.detector);
    }

    /** Appends to the audit log, if there is one; `false` is an exception on its way out. */
    method LogAuditEvent(env: Env, h: Header, allow: bool, reason: Reason, cardId: Text, action: Text) returns (ok: bool)
      requires Valid()
      modifies log
      ensures Valid()
      ensures ok <==> !sys.auditing || Commits(sys.auditChain, env.fault)
      ensures log != null ==>
                log.events == if ok then old(log.events) + [EventFor(h, Verdict(allow, reason, cardId, action))]
                              else old(log.events)
    {
      hide WrittenDb, Represents, Commits;
      if log == null {
        return true;
      }
      var event := AuditEvent(h.tsUnixMs, h.readerId, h.doorId, h.seqNo, allow, Ascii(Code(reason)), cardId, action);
      ok := log.Append(event, env.fault);
    }

    method HandleFrameBytes(env: Env, bytes: Bytes) returns (out: Outcome)
      requires Valid()
      modifies handler`replayWindows, handler.replayWindows.Values, detector, log
      ensures Valid() && handler.Grown(old(handler.replayWindows))
      ensures (State(), out) == FrameStep(sys, old(State()), env, bytes)
    {
      hide HandleFrame, Judge, Conclude, FrameHandler.Valid, FrameHandler.State, FrameHandler.Grown, SqliteAuditLog.Valid;
      var fr := handler.Handle(env.store, env.decryptClock, bytes);
      out := DecideFrame(env, fr);
    }

    /** The detector's three checks, each with its own audit entry and return. */
    method DecideFrame(env: Env, fr: HandleResult) returns (out: Outcome)
      requires Valid()
      modifies detector, log
      ensures Valid()
      ensures var j := Judge(sys, env, old(detector.readers), fr);
              (State(), out) == Conclude(sys, env, old(State()).(readers := j.readers), fr.header, j.verdict)
    {
      hide NonceMatches, RollsBack, JudgeUnflagged, AfterSeq, EventFor, Commits;
      hide FrameHandler.Valid, FrameHandler.State, SqliteAuditLog.Valid;
      var r, s := fr.header.readerId, fr.header.seqNo;
      var active := detector.config.enabled;
      if active && detector.InQuarantine(r) {
        var logged := LogAuditEvent(env, fr.header, false, Quarantined, [], []);
        return if logged then Decided(false, Quarantined) else AppendThrew;
      }
      if active && s > 0 {
        var anomaly := detector.ReportSeq(r, s, env.reportClock);
        if anomaly.Some? {
          var logged := LogAuditEvent(env, fr.header, false, Quarantined, [], []);
          return if logged then Decided(false, Quarantined) else AppendThrew;
        }
      }
      if active && sys.config.nonceMode == Deterministic {
        if !NonceMatches(sys.prims, sys.config, fr.header) {
          var _ := detector.ReportNonceMismatch(r, env.reportClock);
          var logged := LogAuditEvent(env, fr.header, false, Quarantined, [], []);
          return if logged then Decided(false, Quarantined) else AppendThrew;
        }
      }
      out := DecideUnflagged(env, fr);
    }

    /** Rejections of the handler and unreadable payloads; the rest is the policy's. */
    method DecideUnflagged(env: Env, fr: HandleResult) returns (out: Outcome)
      requires Valid()
      modifies detector, log
      ensures Valid()
      ensures var j := JudgeUnflagged(sys, env, old(detector.readers), fr);
              (State(), out) == Conclude(sys, env, old(State()).(readers := j.readers), fr.header, j.verdict)
    {
      hide CheckAccessPolicy, ParseAccessRequest, StreakReached, EventFor, Commits;
      hide FrameHandler.Valid, FrameHandler.State, SqliteAuditLog.Valid;
      var r, active := fr.header.readerId, detector.config.enabled;
      if !fr.allow {
        if active {
          if fr.reason == Replay {
            var _ := detector.ReportReplay(r, env.reportClock);
          } else if fr.reason == MacVerificationFailed || fr.reason == DecryptFailed {
            var _ := detector.ReportTagFailure(r, env.reportClock);
          }
        }
        var logged := LogAuditEvent(env, fr.header, false, fr.reason, [], []);
        return if logged then Decided(false, fr.reason) else AppendThrew;
      }
      if active {
        detector.ReportSuccess(r, fr.header.seqNo);
      }
      var request := ParseAccessRequest(sys.prims, fr.plaintext);
      if request == None {
        var logged := LogAuditEvent(env, fr.header, false, BadPayload, [], []);
        return if logged then Decided(false, BadPayload) else AppendThrew;
      }
      out := CheckPolicy(env, fr.header, request.value);
    }

    /** The policy; only what follows the card lookup is logged with the card and the action. */
    method CheckPolicy(env: Env, h: Header, request: AccessRequest) returns (out: Outcome)
      requires Valid()
      modifies log
      ensures Valid()
      ensures (State(), out) ==
              Conclude(sys, env, old(State()), h, CheckAccessPolicy(sys.prims, sys.config, env.store, h, request))
      ensures out.Decided? && request.action == OPEN && env.store == None ==> out.reason == NoStore
      ensures out.Decided? && request.action != OPEN ==> out.reason == BadAction
    {
      hide ResolveCard, FromHex, EventFor, Commits, FrameHandler.Valid, FrameHandler.State, SqliteAuditLog.Valid;
      if request.action != OPEN {
        var logged := LogAuditEvent(env, h, false, BadAction, [], []);
        return if logged then Decided(false, BadAction) else AppendThrew;
      }
      if env.store == None {
        var logged := LogAuditEvent(env, h, false, NoStore, [], []);
        return if logged then Decided(false, NoStore) else AppendThrew;
      }
      var currentKv := env.store.value.CurrentKeyVersionForReader(h.readerId);
      if currentKv == 0 {
        var logged := LogAuditEvent(env, h, false, UnknownReader, [], []);
        return if logged then Decided(false, UnknownReader) else AppendThrew;
      }
      var card, role := ResolveCardHmac(env.store.value, request.cardId, currentKv);
      if role == None {
        var logged := LogAuditEvent(env, h, false, UnknownCard, card, request.action);
        return if logged then Decided(false, UnknownCard) else AppendThrew;
      }
      var allow, reason := CheckRoleAccess(env.store.value, h.doorId, role.value);
      var logged := LogAuditEvent(env, h, allow, reason, card, request.action);
      return if logged then Decided(allow, reason) else AppendThrew;
    }

    method CheckRoleAccess(store: Store, doorId: U32, role: Text) returns (allow: bool, reason: Reason)
      ensures allow <==> (doorId, role) in store.doorRoles
      ensures reason == if allow then Ok else Forbidden
    {
      if (doorId, role) !in store.doorRoles {
        return false, Forbidden;
      }
      return true, Ok;
    }

    /** Looks the card up under the current pepper, then under the previous one; reassigns its result. */
    method ResolveCardHmac(store: Store, cardId: Text, currentKv: U32) returns (card: Text, role: Option<Text>)
      requires currentKv >= 1
      ensures (card, role) == ResolveCard(sys.prims, sys.config, store, cardId, currentKv)
      ensures role == if card in store.cardRoles then Some(store.cardRoles[card]) else None
      ensures var p := sys.prims;
              if sys.config.staticPepper then FromHex(card) == Some(p.hmac(p.cardPepper(1), cardId))
              else || FromHex(card) == Some(p.hmac(p.cardPepper(currentKv), cardId))
                   || (currentKv > 1 && FromHex(card) == Some(p.hmac(p.cardPepper(currentKv - 1), cardId)))
    {
      hide CardHmac, FromHex;
      CardHmacReads(sys.prims, 1, cardId);
      CardHmacReads(sys.prims, currentKv, cardId);
      if currentKv > 1 {
        CardHmacReads(sys.prims, currentKv - 1, cardId);
      }
      if sys.config.staticPepper {
        card := CardHmac(sys.prims, 1, cardId);
        role := store.RoleForCardHmac(card);
        return;
      }
      card := CardHmac(sys.prims, currentKv, cardId);
      role := store.RoleForCardHmac(card);
      if role == None && sys.config.allowPreviousKeyVersion && currentKv > 1 {
        var cardPrev := CardHmac(sys.prims, currentKv - 1, cardId);
        role := store.RoleForCardHmac(cardPrev);
        if role.Some? {
          card := cardPrev;
        }
      }
    }

    method Unquarantine(readerId: U32) returns (was: bool)
      requires Valid()
      modifies detector
      ensures Valid()
      ensures (State(), Cleared(was)) == Step(sys, old(State()), Input.Unquarantine(readerId))
    {
      hide WrittenDb, Represents, AfterUnquarantine;
      was := detector.Unquarantine(readerId);
    }
  }
}
