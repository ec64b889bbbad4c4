/**
  The exact conditions under which no number is granted twice, with and
  without unquarantines in between, for each system that can grant at all.
 */
module GrantBound {
  import opened Options
  import opened Words
  import opened WireCodec
  import opened Domain
  import opened AnomalyDetector
  import opened ReplayHistory
  import opened FrameHandling
  import opened AuditChain
  import opened Decisions
  import opened GrantTable
  import opened EngineRuns
  import opened Sender

  // ---- a store and a sender that get any fresh number granted ----

  /** Under this system the sender can build a frame for the scan, whatever its number, that the engine can read. */
  ghost predicate Grantable(sys: System, scan: Scan) {
    var payload := sys.prims.payloadJson(scan.request);
    && OpenUndoesSeal(sys.prims)
    && AeadKeyFor(sys.prims, sys.config, BareHeader(scan)).Some?
    && |payload| <= sys.config.maxCtLen
    && sys.prims.requestJson(payload) == Some(scan.request)
    && scan.request.cardId != [] && scan.request.action == OPEN
    && scan.keyVersion >= 1
  }

  const ZERO_TAG: Tag := Zeros(16)

  /** Lawful primitives of the simplest kind. */
  function PlainPrims(): Primitives {
    Primitives(
      (k: Bytes, d: Bytes) => ZERO_HASH,
      (m: CipherMode, k: Key, n: Bytes, a: Bytes, p: Bytes) => Sealed(p, ZERO_TAG),
      (m: CipherMode, k: Key, n: Bytes, a: Bytes, c: Sealed) => Some(c.ct),
      ZERO_HASH,
      (r: U32, v: U32) => Some(ZERO_HASH),
      (r: U32, v: U32) => ZERO_HASH,
      (v: U32) => ZERO_HASH,
      (q: AccessRequest) => [],
      (b: Bytes) => Some(AccessRequest([1], OPEN)))
  }

  /** No configuration whatever stands in the way of `Grantable`. */
  lemma EveryConfigurationCanGrant(config: FrameHandlerConfig, detector: DetectorConfig, auditing: bool, auditChain: bool)
    ensures Grantable(System(PlainPrims(), config, detector, auditing, auditChain),
                      Scan(1, 1, 0, 1, 0, AccessRequest([1], OPEN)))
  {
    hide Ascii;
  }

  /** Anti-replay and the detector are on. */
  predicate Guards(sys: System) {
    sys.config.antiReplayEnabled && sys.detector.enabled
  }

  const ROLE: Text := [0x52]

  /** The reader is at the scan's key version and bound to its door; the card is enrolled with a role for the door. */
  function OpenStore(sys: System, scan: Scan): Store {
    var card := CardHmac(sys.prims, if sys.config.staticPepper then 1 else scan.keyVersion, scan.request.cardId);
    Store(map[scan.readerId := scan.keyVersion], {(scan.readerId, scan.doorId)}, map[card := ROLE], {(scan.doorId, ROLE)})
  }

  function OpenEnv(sys: System, scan: Scan): Env {
    Env(Some(OpenStore(sys, scan)), scan.tsUnixMs, 0, NoFault)
  }

  function Numbered(scan: Scan, s: U64): Scan {
    scan.(seqNo := s)
  }

  function FrameWith(sys: System, scan: Scan, s: U64): Bytes {
    var numbered := Numbered(scan, s);
    match AeadKeyFor(sys.prims, sys.config, BareHeader(scan))
    case None => []
    case Some(key) =>
      FrameBytes(SealedFrame(sys.prims, sys.config, numbered, key, SenderNonce(sys.prims, sys.config, numbered, ZERO_NONCE)))
  }

  function InputWith(sys: System, scan: Scan, s: U64): Input {
    Arrived(OpenEnv(sys, scan), FrameWith(sys, scan, s))
  }

  function InputsWith(sys: System, scan: Scan, h: History): (inputs: seq<Input>)
    ensures |inputs| == |h|
    ensures forall i :: 0 <= i < |h| ==> inputs[i] == InputWith(sys, scan, h[i])
  {
    seq(|h|, i requires 0 <= i < |h| => InputWith(sys, scan, h[i]))
  }

  lemma OpenHeader(sys: System, scan: Scan, s: U64)
    requires Grantable(sys, scan)
    ensures var h := HeaderFor(sys.config, FrameWith(sys, scan, s));
            h.readerId == scan.readerId && h.seqNo == s
  {
    hide ParseFrame, FrameBytes, SenderNonce, AeadKeyFor;
    var numbered, key := Numbered(scan, s), AeadKeyFor(sys.prims, sys.config, BareHeader(scan)).value;
    var nonce := SenderNonce(sys.prims, sys.config, numbered, ZERO_NONCE);
    SealOpens(sys.prims, sys.config, numbered, key, nonce);
    RoundTripExactly(SealedFrame(sys.prims, sys.config, numbered, key, nonce), sys.config.maxCtLen);
  }

  lemma OpenPolicy(sys: System, scan: Scan, h: Header)
    requires h.readerId == scan.readerId && h.doorId == scan.doorId
    requires scan.request.action == OPEN && scan.keyVersion >= 1
    ensures CheckAccessPolicy(sys.prims, sys.config, Some(OpenStore(sys, scan)), h, scan.request).allow
  {
    hide Ascii, CardHmac;
  }

  lemma OpenExpected(sys: System, scan: Scan, hs: Histories, s: U64)
    requires Grantable(sys, scan) && Fresh(WindowSize(sys.config), HistoryOf(hs, scan.readerId), s)
    ensures Expected(sys.config, sys.prims, OpenStore(sys, scan), scan.tsUnixMs, hs, Numbered(scan, s))
    ensures AeadKeyFor(sys.prims, sys.config, BareHeader(Numbered(scan, s))) ==
            AeadKeyFor(sys.prims, sys.config, BareHeader(scan))
  {
    hide Fresh, CardHmac, OpenUndoesSeal;
  }

  /** A frame with a fresh number passes the handler, and its verdict is the policy's unless the detector objects. */
  lemma OpenFresh(sys: System, scan: Scan, st: EngineState, s: U64)
    requires Grantable(sys, scan) && Guards(sys) && Fresh(WindowSize(sys.config), HistoryOf(st.windows, scan.readerId), s)
    ensures
      var env, bytes := OpenEnv(sys, scan), FrameWith(sys, scan, s);
      && HandleFrame(sys.prims, sys.config, env.store, env.decryptClock, st.windows, bytes).0.allow
      && (!IsQuarantined(st.readers, scan.readerId)
          && (s == 0 || !RollsBack(sys.detector, StateOf(st.readers, scan.readerId), s))
          ==> VerdictOf(sys, st, env, bytes).allow)
  {
    hide HandleFrame, FrameBytes, SealedFrame, SenderNonce, RollsBack, Fresh, AeadKeyFor, Expected, OpenStore;
    hide VerdictOf, CheckAccessPolicy;
    var env := OpenEnv(sys, scan);
    var numbered, key := Numbered(scan, s), AeadKeyFor(sys.prims, sys.config, BareHeader(scan)).value;
    var nonce := SenderNonce(sys.prims, sys.config, numbered, ZERO_NONCE);
    OpenExpected(sys, scan, st.windows, s);
    HandlerAcceptsSent(sys.prims, sys.config, env.store.value, env.decryptClock, st.windows, numbered, ZERO_NONCE, key);
    if !IsQuarantined(st.readers, scan.readerId)
       && (s == 0 || !RollsBack(sys.detector, StateOf(st.readers, scan.readerId), s)) {
      SentFrameGetsItsPolicy(sys, st, env, numbered, ZERO_NONCE, key);
      OpenPolicy(sys, scan, WithNonce(numbered, nonce));
    }
  }

  /** The open system grants whatever is fresh and within the threshold. */
  lemma OpenStep(sys: System, scan: Scan, st: EngineState, s: U64)
    requires Grantable(sys, scan) && Guards(sys) && !IsQuarantined(st.readers, scan.readerId)
    requires Fresh(WindowSize(sys.config), HistoryOf(st.windows, scan.readerId), s)
    requires s == 0 || !RollsBack(sys.detector, StateOf(st.readers, scan.readerId), s)
    ensures
      var (st', out) := Step(sys, st, InputWith(sys, scan, s));
      var r := scan.readerId;
      && out == Decided(true, Ok) && !IsQuarantined(st'.readers, r)
      && HistoryOf(st'.windows, r) == HistoryOf(st.windows, r) + [s]
      && StateOf(st'.readers, r).maxSeenSeq == Observed(StateOf(st.readers, r), s).maxSeenSeq
  {
    hide HandleFrame, Judge, FrameStep, Fresh, RollsBack, OpenStore, FrameWith, Grantable, Passes, Rank;
    var env, bytes := OpenEnv(sys, scan), FrameWith(sys, scan, s);
    var fr := HandleFrame(sys.prims, sys.config, env.store, env.decryptClock, st.windows, bytes).0;
    OpenHeader(sys, scan, s);
    OpenFresh(sys, scan, st, s);
    HandlerFootprint(sys.prims, sys.config, env.store, env.decryptClock, st.windows, bytes);
    WatchedJudgement(sys, env, st.readers, fr);
    FrameOutcome(sys, st, env, bytes);
    GrantExactly(sys, st, env, bytes);
  }

  lemma {:induction false} OpenRun(sys: System, scan: Scan, h: History)
    requires Grantable(sys, scan) && Guards(sys)
    requires Guarded(WindowSize(sys.config), sys.detector.rollbackThreshold, true, h)
    requires forall i :: 0 <= i < |h| ==> h[i] + sys.detector.rollbackThreshold < TWO64
    ensures
      var st, r := Run(sys, InputsWith(sys, scan, h)), scan.readerId;
      HistoryOf(st.windows, r) == h && !IsQuarantined(st.readers, r) && StateOf(st.readers, r).maxSeenSeq == MaxOf(h)
  {
    hide Step, Fresh, InputWith, Grantable, WindowSize;
    if h != [] {
      var last := |h| - 1;
      OpenRun(sys, scan, h[..last]);
      assert InputsWith(sys, scan, h)[..last] == InputsWith(sys, scan, h[..last]);
      OpenGuard(sys, h);
      OpenStep(sys, scan, Run(sys, InputsWith(sys, scan, h[..last])), h[last]);
      assert h[..last] + [h[last]] == h;
    }
  }

  lemma OpenGuard(sys: System, h: History)
    requires h != [] && Guarded(WindowSize(sys.config), sys.detector.rollbackThreshold, true, h)
    requires h[|h| - 1] + sys.detector.rollbackThreshold < TWO64
    ensures
      var last := |h| - 1;
      && Fresh(WindowSize(sys.config), h[..last], h[last])
      && forall s: ReaderState :: s.maxSeenSeq == MaxOf(h[..last]) ==>
           h[last] == 0 || !RollsBack(sys.detector, s, h[last])
  {
    hide Fresh, MaxOf, WindowSize, RollsBack, Guarded;
    GuardedLast(WindowSize(sys.config), sys.detector.rollbackThreshold, true, h);
    forall s: ReaderState | s.maxSeenSeq == MaxOf(h[..|h| - 1])
      ensures h[|h| - 1] == 0 || !RollsBack(sys.detector, s, h[|h| - 1])
    {
      if h[|h| - 1] > 0 {
        ToleratedExactly(sys.detector, s, h[|h| - 1]);
      }
    }
  }

  lemma GuardedLast(w: U64, t: nat, zeroExempt: bool, h: History)
    requires h != [] && Guarded(w, t, zeroExempt, h)
    ensures var last := |h| - 1; Fresh(w, h[..last], h[last]) && WithinReach(t, zeroExempt, h[..last], h[last])
  {
    hide Fresh, WithinReach;
  }

  lemma OpenGrants(sys: System, scan: Scan, h: History, i: nat)
    requires Grantable(sys, scan) && Guards(sys)
    requires Guarded(WindowSize(sys.config), sys.detector.rollbackThreshold, true, h)
    requires forall k :: 0 <= k < |h| ==> h[k] + sys.detector.rollbackThreshold < TWO64
    requires i < |h|
    ensures GrantedAt(sys, InputsWith(sys, scan, h), i, scan.readerId, h[i])
  {
    hide Step, Fresh, Grantable, HeaderFor, Guarded, Run, RollsBack, FrameWith, OpenEnv, MaxOf, WindowSize;
    var w, t := WindowSize(sys.config), sys.detector.rollbackThreshold;
    GuardedTake(w, t, h, i + 1);
    GuardedTake(w, t, h, i);
    OpenRun(sys, scan, h[..i]);
    assert InputsWith(sys, scan, h)[..i] == InputsWith(sys, scan, h[..i]);
    assert h[..i + 1][..i] == h[..i];
    OpenGuard(sys, h[..i + 1]);
    OpenStep(sys, scan, Run(sys, InputsWith(sys, scan, h[..i])), h[i]);
    OpenHeader(sys, scan, h[i]);
  }

  lemma {:induction false} GuardedTake(w: U64, t: U64, h: History, i: nat)
    requires Guarded(w, t, true, h) && i <= |h|
    ensures Guarded(w, t, true, h[..i])
  {
    if i == |h| {
      assert h[..i] == h;
    } else {
      assert h[..|h| - 1][..i] == h[..i];
      GuardedTake(w, t, h[..|h| - 1], i);
    }
  }

  // ---- without an unquarantine ----

  /** No run of this system grants a number twice without an unquarantine of its reader between. */
  ghost predicate NeverGrantsTwice(sys: System) {
    forall inputs: seq<Input>, i: nat, j: nat, r: U32, s: U64 ::
      i < j < |inputs| && GrantedAt(sys, inputs, i, r, s) && GrantedAt(sys, inputs, j, r, s)
      ==> exists k :: i < k < j && inputs[k] == Unquarantine(r)
  }

  lemma BoundSuffices(sys: System)
    requires Guards(sys) && Protects(sys.config.replayWindowSize, sys.detector.rollbackThreshold)
    ensures NeverGrantsTwice(sys)
  {
    hide GrantedAt, Protects;
    forall inputs: seq<Input>, i: nat, j: nat, r: U32, s: U64 |
      i < j < |inputs| && GrantedAt(sys, inputs, i, r, s) && GrantedAt(sys, inputs, j, r, s)
      ensures exists k :: i < k < j && inputs[k] == Unquarantine(r)
    {
      NoDoubleGrant(sys, inputs, i, j, r, s);
    }
  }

  lemma BoundNeeded(sys: System, scan: Scan)
    requires Guards(sys) && Grantable(sys, scan)
    requires !Protects(sys.config.replayWindowSize, sys.detector.rollbackThreshold)
    ensures !NeverGrantsTwice(sys)
  {
    hide GrantedAt, Guarded, Step, InputWith, Grantable, WindowSize;
    var w, t := WindowSize(sys.config), sys.detector.rollbackThreshold;
    ConfiguredWindow(sys.config);
    var s: U64 := if w <= t + 2 then w - 1 else t + 1;
    RepeatingRunIsGuarded(w, t, true, s);
    var h := RepeatingRun(w, s);
    OpenGrants(sys, scan, h, 0);
    OpenGrants(sys, scan, h, w + 1);
    var inputs := InputsWith(sys, scan, h);
    assert GrantedAt(sys, inputs, 0, scan.readerId, s) && GrantedAt(sys, inputs, w + 1, scan.readerId, s);
    OpenInputs(sys, scan, h);
  }

  lemma OpenInputs(sys: System, scan: Scan, h: History)
    ensures forall k :: 0 <= k < |h| ==> InputsWith(sys, scan, h)[k] != Unquarantine(scan.readerId)
  {
    hide OpenEnv, FrameWith;
  }

  /**
    Exactly which configured sizes and thresholds rule out a double grant with no
    unquarantine between, in every system that can grant: at most one, more than
    `2t + 1`, or so large that the 64-bit sums leave no room for a repeat.
    Cipher, derivations, nonces, associated data, skew and audit are whatever
    they are in `sys`.
   */
  lemma NoDoubleGrantExactly(sys: System, scan: Scan)
    requires Guards(sys) && Grantable(sys, scan)
    ensures
      var n, t := sys.config.replayWindowSize, sys.detector.rollbackThreshold;
      NeverGrantsTwice(sys) <==> n <= 1 || n > 2 * t + 1 || n + t >= TWO64
  {
    hide NeverGrantsTwice, Grantable;
    if Protects(sys.config.replayWindowSize, sys.detector.rollbackThreshold) {
      BoundSuffices(sys);
    } else {
      BoundNeeded(sys, scan);
    }
  }

  // ---- across unquarantines ----

  /** No run of this system ever grants a number twice, whatever an admin does. */
  ghost predicate NeverGrantsAgain(sys: System) {
    forall inputs: seq<Input>, i: nat, j: nat, r: U32, s: U64 ::
      i < j < |inputs| && GrantedAt(sys, inputs, i, r, s) ==> !GrantedAt(sys, inputs, j, r, s)
  }

  /** A window of one slot, or the largest threshold, holds through every unquarantine. */
  lemma NeverAgain(sys: System, inputs: seq<Input>, i: nat, j: nat, r: U32, s: U64)
    requires sys.config.antiReplayEnabled && sys.detector.enabled
    requires sys.config.replayWindowSize <= 1 || sys.detector.rollbackThreshold == TWO64 - 1
    requires i < j < |inputs| && GrantedAt(sys, inputs, i, r, s)
    ensures !GrantedAt(sys, inputs, j, r, s)
  {
    hide Run, GrantedAt, Fresh, Admissible, HistoryOf, WindowSize;
    if GrantedAt(sys, inputs, j, r, s) {
      var w := WindowSize(sys.config);
      ConfiguredWindow(sys.config);
      var g, h := HistoryOf(Run(sys, inputs[..i]).windows, r), HistoryOf(Run(sys, inputs[..j]).windows, r);
      GrantFacts(sys, inputs, i, r, s);
      GrantFacts(sys, inputs, j, r, s);
      RunsOnlyGrow(sys, inputs, i + 1, j, r);
      HistoriesAdmissible(sys, inputs[..j], r);
      AdmissibleAppend(w, h, s);
      AdmissibleExactly(w, h + [s]);
      assert (h + [s])[|g|] == s;
      SmallerFollower(w, h + [s], |g|, |h|);
    }
  }

  /** The inputs that get a number granted again: replay it, let `mid` be denied as quarantined, unquarantine. */
  function RegrantInputs(sys: System, scan: Scan, s: U64, mid: History): (inputs: seq<Input>)
    ensures |inputs| == |mid| + 4
  {
    InputsWith(sys, scan, [s, s] + mid) + [Unquarantine(scan.readerId), InputWith(sys, scan, s)]
  }

  /** While its reader is quarantined, a fresh frame is denied and its number recorded. */
  lemma OpenQuarantined(sys: System, scan: Scan, st: EngineState, s: U64)
    requires Grantable(sys, scan) && Guards(sys) && IsQuarantined(st.readers, scan.readerId)
    requires Fresh(WindowSize(sys.config), HistoryOf(st.windows, scan.readerId), s)
    ensures
      var (st', out) := Step(sys, st, InputWith(sys, scan, s));
      && out == Decided(false, Quarantined) && st'.readers == st.readers
      && HistoryOf(st'.windows, scan.readerId) == HistoryOf(st.windows, scan.readerId) + [s]
  {
    hide HandleFrame, Judge, FrameStep, Fresh, RollsBack, OpenStore, FrameWith, Grantable, Passes, Rank;
    var env, bytes := OpenEnv(sys, scan), FrameWith(sys, scan, s);
    var fr := HandleFrame(sys.prims, sys.config, env.store, env.decryptClock, st.windows, bytes).0;
    OpenHeader(sys, scan, s);
    OpenFresh(sys, scan, st, s);
    HandlerFootprint(sys.prims, sys.config, env.store, env.decryptClock, st.windows, bytes);
    WatchedJudgement(sys, env, st.readers, fr);
    FrameOutcome(sys, st, env, bytes);
    GrantExactly(sys, st, env, bytes);
  }

  lemma HandlerStagesIgnoreWindows(sys: System, st: EngineState, st': EngineState, env: Env, bytes: Bytes)
    requires HandlerPasses(sys, st, env, bytes)
    ensures Passes(WellFormed, sys, st', env, bytes) && Passes(StorePresent, sys, st', env, bytes)
    ensures Passes(ReaderKnown, sys, st', env, bytes) && Passes(DoorBound, sys, st', env, bytes)
    ensures Passes(KeyVersionInBand, sys, st', env, bytes)
  {
    hide ParseFrame, HeaderFor, Fresh, RollsBack, NonceMatches, Plaintext, Request, Role, VersionInBand;
    assert Passes(WellFormed, sys, st, env, bytes) && Passes(StorePresent, sys, st, env, bytes);
    assert Passes(ReaderKnown, sys, st, env, bytes) && Passes(DoorBound, sys, st, env, bytes);
    assert Passes(KeyVersionInBand, sys, st, env, bytes);
  }

  /** A number that is not fresh is the only thing the handler has against a frame of the open store. */
  lemma OpenStale(sys: System, scan: Scan, st: EngineState, s: U64)
    requires Grantable(sys, scan) && Guards(sys)
    requires !Fresh(WindowSize(sys.config), HistoryOf(st.windows, scan.readerId), s)
    ensures
      var env, bytes := OpenEnv(sys, scan), FrameWith(sys, scan, s);
      HandleFrame(sys.prims, sys.config, env.store, env.decryptClock, st.windows, bytes).0.reason == Replay
  {
    hide HandleFrame, Fresh, OpenStore, FrameWith, Grantable, HandlerPasses, VerdictOf, RollsBack;
    var env, bytes := OpenEnv(sys, scan), FrameWith(sys, scan, s);
    EmptyIsFresh(WindowSize(sys.config), s);
    OpenFresh(sys, scan, INITIAL, s);
    HandlerAllowsExactly(sys, INITIAL, env, bytes);
    HandlerStagesIgnoreWindows(sys, INITIAL, st, env, bytes);
    OpenHeader(sys, scan, s);
    FreshPart(sys, st, env, bytes);
    HandlerPart(sys, st, env, bytes);
    hide Passes;
  }

  lemma EmptyIsFresh(w: U64, s: U64)
    requires 1 <= w
    ensures Fresh(w, [], s)
  {
  }

  lemma ReplayQuarantines(sys: System, env: Env, readers: Readers, fr: HandleResult)
    requires sys.detector.enabled && !fr.allow && fr.reason == Replay
    ensures IsQuarantined(Judge(sys, env, readers, fr).readers, fr.header.readerId)
  {
    hide NonceMatches, RollsBack, DecidePayload;
  }

  /** A replay quarantines and records nothing. */
  lemma OpenReplay(sys: System, scan: Scan, st: EngineState, s: U64)
    requires Grantable(sys, scan) && Guards(sys)
    requires !Fresh(WindowSize(sys.config), HistoryOf(st.windows, scan.readerId), s)
    requires StateOf(st.readers, scan.readerId).maxSeenSeq == s
    ensures
      var st' := Step(sys, st, InputWith(sys, scan, s)).0;
      var r := scan.readerId;
      && IsQuarantined(st'.readers, r)
      && HistoryOf(st'.windows, r) == HistoryOf(st.windows, r)
      && StateOf(st'.readers, r).maxSeenSeq == s
  {
    hide HandleFrame, Judge, FrameStep, Fresh, RollsBack, OpenStore, FrameWith, Grantable;
    var env, bytes := OpenEnv(sys, scan), FrameWith(sys, scan, s);
    var fr := HandleFrame(sys.prims, sys.config, env.store, env.decryptClock, st.windows, bytes).0;
    OpenHeader(sys, scan, s);
    OpenStale(sys, scan, st, s);
    HandlerFootprint(sys.prims, sys.config, env.store, env.decryptClock, st.windows, bytes);
    WatchedJudgement(sys, env, st.readers, fr);
    ReplayQuarantines(sys, env, st.readers, fr);
    FrameOutcome(sys, st, env, bytes);
  }

  /** The state when the numbers of `mid` have come in during the quarantine. */
  lemma {:induction false} OpenMid(sys: System, scan: Scan, s: U64, mid: History)
    requires Grantable(sys, scan) && Guards(sys)
    requires Admissible(WindowSize(sys.config), [s] + mid) && s + sys.detector.rollbackThreshold < TWO64
    ensures
      var st, r := Run(sys, InputsWith(sys, scan, [s, s] + mid)), scan.readerId;
      && HistoryOf(st.windows, r) == [s] + mid
      && IsQuarantined(st.readers, r) && StateOf(st.readers, r).maxSeenSeq == s
    decreases |mid|
  {
    hide Step, Fresh, InputWith, Grantable, RollsBack, WindowSize;
    var w := WindowSize(sys.config);
    var h := [s, s] + mid;
    if mid == [] {
      OpenRun(sys, scan, [s]);
      assert h[..1] == [s] && InputsWith(sys, scan, h)[..1] == InputsWith(sys, scan, [s]);
      LastIsNotFresh(w, [s]);
      OpenReplay(sys, scan, Run(sys, InputsWith(sys, scan, [s])), s);
    } else {
      var last := |mid| - 1;
      var front := mid[..last];
      assert [s] + mid == ([s] + front) + [mid[last]];
      AdmissibleAppend(w, [s] + front, mid[last]);
      OpenMid(sys, scan, s, front);
      assert h == ([s, s] + front) + [mid[last]];
      assert InputsWith(sys, scan, h)[..|h| - 1] == InputsWith(sys, scan, [s, s] + front);
      OpenQuarantined(sys, scan, Run(sys, InputsWith(sys, scan, [s, s] + front)), mid[last]);
    }
  }

  lemma RegrantPrefixes(sys: System, scan: Scan, s: U64, mid: History)
    ensures
      var inputs, first := RegrantInputs(sys, scan, s, mid), InputsWith(sys, scan, [s, s] + mid);
      var n := |mid| + 2;
      && inputs[0] == InputWith(sys, scan, s) && inputs[..0] == []
      && inputs[..n] == first
      && inputs[n] == Unquarantine(scan.readerId) && inputs[..n + 1][..n] == inputs[..n]
      && inputs[n + 1] == InputWith(sys, scan, s)
  {
    hide InputWith;
  }

  lemma OpenGrantedAt(sys: System, scan: Scan, inputs: seq<Input>, i: nat, s: U64)
    requires Grantable(sys, scan) && Guards(sys) && i < |inputs| && inputs[i] == InputWith(sys, scan, s)
    requires var st := Run(sys, inputs[..i]);
             && !IsQuarantined(st.readers, scan.readerId)
             && Fresh(WindowSize(sys.config), HistoryOf(st.windows, scan.readerId), s)
             && StateOf(st.readers, scan.readerId).maxSeenSeq <= s && s + sys.detector.rollbackThreshold < TWO64
    ensures GrantedAt(sys, inputs, i, scan.readerId, s)
  {
    hide Step, Fresh, Grantable, HeaderFor, Run, FrameWith, OpenEnv, WindowSize;
    OpenStep(sys, scan, Run(sys, inputs[..i]), s);
    OpenHeader(sys, scan, s);
  }

  /**
    A number that the window would take once more after the numbers of `mid` is
    granted once more, if `mid` comes in between a replay and an unquarantine.
   */
  lemma Regrant(sys: System, scan: Scan, s: U64, mid: History)
    requires Grantable(sys, scan) && Guards(sys) && s + sys.detector.rollbackThreshold < TWO64
    requires Admissible(WindowSize(sys.config), [s] + mid + [s])
    ensures
      var inputs := RegrantInputs(sys, scan, s, mid);
      GrantedAt(sys, inputs, 0, scan.readerId, s) && GrantedAt(sys, inputs, |mid| + 3, scan.readerId, s)
  {
    hide Step, Fresh, InputWith, Grantable, RegrantInputs, Admissible, GrantedAt, WindowSize;
    var inputs, w := RegrantInputs(sys, scan, s, mid), WindowSize(sys.config);
    var n := |mid| + 2;
    RegrantPrefixes(sys, scan, s, mid);
    AdmissibleAppend(w, [s] + mid, s);
    OpenMid(sys, scan, s, mid);
    RunNext(sys, inputs, n);
    AfterClearing(sys, Run(sys, inputs[..n]), scan.readerId);
    OpenGrantedAt(sys, scan, inputs, n + 1, s);
    EmptyIsFresh(w, s);
    OpenGrantedAt(sys, scan, inputs, 0, s);
  }

  lemma AfterClearing(sys: System, st: EngineState, r: U32)
    ensures
      var st' := Step(sys, st, Unquarantine(r)).0;
      && !IsQuarantined(st'.readers, r) && st'.windows == st.windows
      && StateOf(st'.readers, r).maxSeenSeq == StateOf(st.readers, r).maxSeenSeq
  {
  }

  /** The frames of a regrant between the replay and the unquarantine are each denied as quarantined. */
  lemma RegrantIsQuarantined(sys: System, scan: Scan, s: U64, mid: History, k: nat)
    requires Grantable(sys, scan) && Guards(sys) && s + sys.detector.rollbackThreshold < TWO64
    requires Admissible(WindowSize(sys.config), [s] + mid) && k < |mid|
    ensures OutcomeAt(sys, RegrantInputs(sys, scan, s, mid), k + 2) == Decided(false, Quarantined)
  {
    hide Step, Fresh, InputWith, Grantable, RegrantInputs, Admissible, WindowSize;
    RegrantMiddle(sys, scan, s, mid, k);
    FreshInMiddle(WindowSize(sys.config), s, mid, k);
    OpenMid(sys, scan, s, mid[..k]);
    OpenQuarantined(sys, scan, Run(sys, InputsWith(sys, scan, [s, s] + mid[..k])), mid[k]);
  }

  lemma RegrantMiddle(sys: System, scan: Scan, s: U64, mid: History, k: nat)
    requires k < |mid|
    ensures var inputs := RegrantInputs(sys, scan, s, mid);
            inputs[..k + 2] == InputsWith(sys, scan, [s, s] + mid[..k]) && inputs[k + 2] == InputWith(sys, scan, mid[k])
  {
    hide InputWith;
    assert ([s, s] + mid)[..k + 2] == [s, s] + mid[..k];
  }

  lemma FreshInMiddle(w: U64, s: U64, mid: History, k: nat)
    requires Admissible(w, [s] + mid) && k < |mid|
    ensures Admissible(w, [s] + mid[..k]) && Fresh(w, [s] + mid[..k], mid[k])
  {
    hide Fresh, Admissible;
    AdmissibleTake(w, [s] + mid, k + 2);
    assert ([s] + mid)[..k + 2] == [s] + mid[..k] + [mid[k]];
    AdmissibleAppend(w, [s] + mid[..k], mid[k]);
  }

  lemma {:induction false} AdmissibleTake(w: U64, h: History, i: nat)
    requires Admissible(w, h) && i <= |h|
    ensures Admissible(w, h[..i])
  {
    if i == |h| {
      assert h[..i] == h;
    } else {
      assert h[..|h| - 1][..i] == h[..i];
      AdmissibleTake(w, h[..|h| - 1], i);
    }
  }

  /**
    Window 4 and threshold 1 meet the bound of the theorem above. Still 2 is
    granted twice: grant 2, replay it, let 1, 3, 4, 5 be denied, unquarantine, send 2.
   */
  lemma UnquarantineReopens(sys: System, scan: Scan)
    requires Grantable(sys, scan) && Guards(sys)
    requires sys.config.replayWindowSize == 4 && sys.detector.rollbackThreshold == 1
    ensures
      var inputs, r := RegrantInputs(sys, scan, 2, [1, 3, 4, 5]), scan.readerId;
      && NeverGrantsTwice(sys)
      && GrantedAt(sys, inputs, 0, r, 2) && GrantedAt(sys, inputs, 7, r, 2)
  {
    hide GrantedAt, NeverGrantsTwice, RegrantInputs, Grantable;
    BoundSuffices(sys);
    ConfiguredWindow(sys.config);
    AdmissibleExactly(4, [2] + [1, 3, 4, 5] + [2]);
    Regrant(sys, scan, 2, [1, 3, 4, 5]);
  }

  /** Enough denied numbers to make a window of two or more slots forget 1 without outgrowing it. */
  function Distraction(w: U64): (mid: History)
    requires 2 <= w
    ensures |mid| == w
  {
    RepeatingRun(w, 1)[1..w + 1]
  }

  /** With two or more slots, and any threshold but the largest, 1 is granted, replayed, and granted again. */
  lemma RegrantOfOne(sys: System, scan: Scan)
    requires Grantable(sys, scan) && Guards(sys)
    requires 2 <= sys.config.replayWindowSize && sys.detector.rollbackThreshold < TWO64 - 1
    ensures
      var w, r := sys.config.replayWindowSize, scan.readerId;
      var inputs := RegrantInputs(sys, scan, 1, Distraction(w));
      GrantedAt(sys, inputs, 0, r, 1) && GrantedAt(sys, inputs, w + 3, r, 1)
  {
    hide GrantedAt, RegrantInputs, Admissible, Grantable, WindowSize;
    var w := WindowSize(sys.config);
    ConfiguredWindow(sys.config);
    RepeatingRunIsAdmissible(w, 1);
    assert RepeatingRun(w, 1) == [1] + Distraction(w) + [1];
    Regrant(sys, scan, 1, Distraction(w));
  }

  /**
    Exactly which windows and thresholds never grant a number twice at all,
    through any unquarantines, in every system that can grant: one slot, or the
    largest 64-bit threshold, at which every number not above the maximum is
    flagged.
   */
  lemma NeverGrantsAgainExactly(sys: System, scan: Scan)
    requires Guards(sys) && Grantable(sys, scan)
    ensures NeverGrantsAgain(sys) <==> sys.config.replayWindowSize <= 1 || sys.detector.rollbackThreshold == TWO64 - 1
  {
    hide GrantedAt, Grantable, RegrantInputs, Distraction, WindowSize;
    if sys.config.replayWindowSize <= 1 || sys.detector.rollbackThreshold == TWO64 - 1 {
      forall inputs: seq<Input>, i: nat, j: nat, r: U32, s: U64 |
        i < j < |inputs| && GrantedAt(sys, inputs, i, r, s)
        ensures !GrantedAt(sys, inputs, j, r, s)
      {
        NeverAgain(sys, inputs, i, j, r, s);
      }
    } else {
      RegrantOfOne(sys, scan);
      var w: nat, r := sys.config.replayWindowSize, scan.readerId;
      var inputs := RegrantInputs(sys, scan, 1, Distraction(w));
      assert GrantedAt(sys, inputs, 0, r, 1) && GrantedAt(sys, inputs, w + 3, r, 1);
    }
  }

  // ---- across restarts ----

  /** A restart forgets: whatever was granted before, each start of the server grants any number anew. */
  lemma RestartReopens(sys: System, scan: Scan, s: U64)
    requires Guards(sys) && Grantable(sys, scan)
    ensures GrantedAt(sys, [InputWith(sys, scan, s)], 0, scan.readerId, s)
  {
    hide Fresh, Grantable, HeaderFor, FrameWith, OpenEnv, WindowSize, FrameStep;
    EmptyIsFresh(WindowSize(sys.config), s);
    assert [InputWith(sys, scan, s)][..0] == [];
    OpenStep(sys, scan, INITIAL, s);
    OpenHeader(sys, scan, s);
  }
}
