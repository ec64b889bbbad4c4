/** Whole runs of the engine: grants, quarantine, the audit trail, and independence of readers. */
module EngineRuns {
  import opened Options
  import opened Words
  import opened Pigeonhole
  import opened WireCodec
  import opened Domain
  import opened AnomalyDetector
  import opened ReplayHistory
  import opened FrameHandling
  import opened AuditEncoding
  import opened AuditChain
  import opened Decisions
  import opened GrantTable

  /** The state after a run from start-up. Each frame brings its own store and clocks. */
  function Run(sys: System, inputs: seq<Input>): EngineState {
    if inputs == [] then INITIAL
    else
      var last := |inputs| - 1;
      Step(sys, Run(sys, inputs[..last]), inputs[last]).0
  }

  function OutcomeAt(sys: System, inputs: seq<Input>, i: nat): Outcome
    requires i < |inputs|
  {
    Step(sys, Run(sys, inputs[..i]), inputs[i]).1
  }

  lemma RunNext(sys: System, inputs: seq<Input>, m: nat)
    requires m < |inputs|
    ensures Run(sys, inputs[..m + 1]) == Step(sys, Run(sys, inputs[..m]), inputs[m]).0
  {
    assert inputs[..m + 1][..m] == inputs[..m];
  }

  /** The reader an input concerns. */
  function ReaderOf(sys: System, input: Input): U32 {
    match input
    case Arrived(_, bytes) => HeaderFor(sys.config, bytes).readerId
    case Unquarantine(r) => r
  }

  // ---- one step ----

  lemma JudgeFootprint(sys: System, env: Env, readers: Readers, fr: HandleResult, q: U32)
    requires q != fr.header.readerId
    ensures StateOf(Judge(sys, env, readers, fr).readers, q) == StateOf(readers, q)
  {
    hide NonceMatches, DecidePayload;
  }

  lemma JudgeIsLocal(sys: System, env: Env, readers: Readers, readers': Readers, fr: HandleResult)
    requires StateOf(readers, fr.header.readerId) == StateOf(readers', fr.header.readerId)
    ensures
      var j, j' := Judge(sys, env, readers, fr), Judge(sys, env, readers', fr);
      && j.verdict == j'.verdict && j.anomaly == j'.anomaly
      && StateOf(j.readers, fr.header.readerId) == StateOf(j'.readers, fr.header.readerId)
  {
    hide NonceMatches, DecidePayload, AfterSeq, AfterTagFailure, RollsBack, StreakReached;
  }

  /** What a judged frame does to its reader while the detector is on. */
  lemma WatchedJudgement(sys: System, env: Env, readers: Readers, fr: HandleResult)
    requires sys.detector.enabled
    ensures
      var r, s := fr.header.readerId, fr.header.seqNo;
      var j := Judge(sys, env, readers, fr);
      var before, after := StateOf(readers, r), StateOf(j.readers, r);
      && (after.quarantine.Some? <==> before.quarantine.Some? || j.anomaly.Some?)
      && (before.quarantine.Some? ==> j.readers == readers && j.verdict == Denied(Quarantined) && j.anomaly == None)
      && (j.anomaly.Some? ==> !j.verdict.allow && after.quarantine == Some(QuarantineInfo(env.reportClock, j.anomaly.value)))
      && (j.verdict.allow ==> fr.allow && after.quarantine == None)
      && (s > 0 && RollsBack(sys.detector, before, s) ==> j.verdict == Denied(Quarantined) && after.quarantine.Some?)
      && after.maxSeenSeq == (if before.quarantine.None? && s > 0 && !RollsBack(sys.detector, before, s)
                              then Observed(before, s).maxSeenSeq else before.maxSeenSeq)
  {
    hide NonceMatches, DecidePayload, RollsBack;
  }

  lemma UnwatchedJudgement(sys: System, env: Env, readers: Readers, fr: HandleResult)
    requires !sys.detector.enabled
    ensures Judge(sys, env, readers, fr).readers == readers
  {
    hide DecidePayload;
  }

  lemma OnlyAllowedAreGranted(sys: System, env: Env, readers: Readers, fr: HandleResult)
    ensures Judge(sys, env, readers, fr).verdict.allow ==> fr.allow
  {
    hide NonceMatches, DecidePayload, RollsBack;
  }

  lemma FrameOutcome(sys: System, st: EngineState, env: Env, bytes: Bytes)
    ensures
      var fr := HandleFrame(sys.prims, sys.config, env.store, env.decryptClock, st.windows, bytes).0;
      var j := Judge(sys, env, st.readers, fr);
      var (st', out) := FrameStep(sys, st, env, bytes);
      && st'.readers == j.readers
      && st'.windows == HandleFrame(sys.prims, sys.config, env.store, env.decryptClock, st.windows, bytes).1
      && (out == Decided(j.verdict.allow, j.verdict.reason) || out == AppendThrew)
  {
    hide HandleFrame, Judge, EventFor;
  }

  /** An input leaves every other reader's window and detector entry alone. */
  lemma StepElsewhere(sys: System, st: EngineState, input: Input, q: U32)
    requires ReaderOf(sys, input) != q
    ensures
      var st' := Step(sys, st, input).0;
      HistoryOf(st'.windows, q) == HistoryOf(st.windows, q) && StateOf(st'.readers, q) == StateOf(st.readers, q)
  {
    hide HandleFrame, Judge, FrameStep;
    match input
    case Arrived(env, bytes) =>
      var fr := HandleFrame(sys.prims, sys.config, env.store, env.decryptClock, st.windows, bytes).0;
      HandlerFootprint(sys.prims, sys.config, env.store, env.decryptClock, st.windows, bytes);
      JudgeFootprint(sys, env, st.readers, fr, q);
      FrameOutcome(sys, st, env, bytes);
    case Unquarantine(r) =>
  }

  // ---- quarantine ----

  predicate QuarantinedAfter(sys: System, inputs: seq<Input>, r: U32) {
    IsQuarantined(Run(sys, inputs).readers, r)
  }

  /** Only `unquarantine` ends a quarantine. */
  lemma {:induction false} QuarantineSticks(sys: System, inputs: seq<Input>, m: nat, n: nat, r: U32)
    requires sys.detector.enabled && m <= n <= |inputs|
    requires QuarantinedAfter(sys, inputs[..m], r)
    requires forall k :: m <= k < n ==> inputs[k] != Unquarantine(r)
    ensures QuarantinedAfter(sys, inputs[..n], r)
    decreases n - m
  {
    hide HandleFrame, Judge, FrameStep;
    if m < n {
      var st, input := Run(sys, inputs[..m]), inputs[m];
      RunNext(sys, inputs, m);
      if ReaderOf(sys, input) != r {
        StepElsewhere(sys, st, input, r);
      } else {
        var env, bytes := input.env, input.bytes;
        var fr := HandleFrame(sys.prims, sys.config, env.store, env.decryptClock, st.windows, bytes).0;
        HandlerFootprint(sys.prims, sys.config, env.store, env.decryptClock, st.windows, bytes);
        WatchedJudgement(sys, env, st.readers, fr);
        FrameOutcome(sys, st, env, bytes);
      }
      QuarantineSticks(sys, inputs, m + 1, n, r);
    }
  }

  /** The anomaly, if any, that input `i` of a run set off, going by the first stage its frame failed. */
  function AnomalyAt(sys: System, inputs: seq<Input>, i: nat): Option<AnomalyType>
    requires i < |inputs|
  {
    match inputs[i]
    case Unquarantine(_) => None
    case Arrived(env, bytes) =>
      var st := Run(sys, inputs[..i]);
      if !sys.detector.enabled then None
      else AnomalyAtStage(FirstFailure(sys, st, env, bytes), sys.detector,
                          StateOf(st.readers, HeaderFor(sys.config, bytes).readerId))
  }

  /** An anomaly of `r` at input `i` that no later input of the run took back. */
  ghost predicate StandingAnomaly(sys: System, inputs: seq<Input>, i: nat, r: U32) {
    && i < |inputs| && ReaderOf(sys, inputs[i]) == r && AnomalyAt(sys, inputs, i).Some?
    && forall k :: i < k < |inputs| ==> inputs[k] != Unquarantine(r)
  }

  lemma StandingStep(sys: System, inputs: seq<Input>, r: U32)
    requires inputs != []
    ensures
      var last := |inputs| - 1;
      (exists i :: StandingAnomaly(sys, inputs, i, r)) <==>
      (ReaderOf(sys, inputs[last]) == r && AnomalyAt(sys, inputs, last).Some?)
      || (inputs[last] != Unquarantine(r) && exists i :: StandingAnomaly(sys, inputs[..last], i, r))
  {
    hide AnomalyAt, ReaderOf;
    var last := |inputs| - 1;
    var front := inputs[..last];
    forall i | 0 <= i < last
      ensures front[i] == inputs[i] && AnomalyAt(sys, front, i) == AnomalyAt(sys, inputs, i)
    {
      AnomalyPrefix(sys, inputs, i);
    }
    if i: nat :| StandingAnomaly(sys, front, i, r) && inputs[last] != Unquarantine(r) {
      assert StandingAnomaly(sys, inputs, i, r);
    }
    if ReaderOf(sys, inputs[last]) == r && AnomalyAt(sys, inputs, last).Some? {
      assert StandingAnomaly(sys, inputs, last, r);
    }
    if i: nat :| StandingAnomaly(sys, inputs, i, r) && i < last {
      assert StandingAnomaly(sys, front, i, r);
    }
  }

  lemma AnomalyPrefix(sys: System, inputs: seq<Input>, i: nat)
    requires i < |inputs| - 1
    ensures AnomalyAt(sys, inputs[..|inputs| - 1], i) == AnomalyAt(sys, inputs, i)
  {
    hide FirstFailure, AnomalyAtStage, Run, HeaderFor;
    assert inputs[..|inputs| - 1][..i] == inputs[..i];
  }

  /** A reader is quarantined exactly when an anomaly fired for it since its last unquarantine. */
  lemma {:induction false} QuarantinedExactly(sys: System, inputs: seq<Input>, r: U32)
    requires sys.detector.enabled
    ensures QuarantinedAfter(sys, inputs, r) <==> exists i :: StandingAnomaly(sys, inputs, i, r)
  {
    hide HandleFrame, Judge, FrameStep, StandingAnomaly, FirstFailure, AnomalyAtStage;
    if inputs == [] {
      forall i ensures !StandingAnomaly(sys, inputs, i, r) { NoneStands(sys, r, i); }
    } else {
      var last := |inputs| - 1;
      var st, input := Run(sys, inputs[..last]), inputs[last];
      QuarantinedExactly(sys, inputs[..last], r);
      StandingStep(sys, inputs, r);
      if ReaderOf(sys, input) != r {
        StepElsewhere(sys, st, input, r);
      } else if input.Arrived? {
        var env, bytes := input.env, input.bytes;
        var fr := HandleFrame(sys.prims, sys.config, env.store, env.decryptClock, st.windows, bytes).0;
        HandlerFootprint(sys.prims, sys.config, env.store, env.decryptClock, st.windows, bytes);
        WatchedJudgement(sys, env, st.readers, fr);
        AnomalyExactly(sys, st, env, bytes);
        FrameOutcome(sys, st, env, bytes);
      }
    }
  }

  /** The quarantine on record is that of the standing anomaly: its type, at its clock reading. */
  lemma {:induction false} QuarantineNamesItsAnomaly(sys: System, inputs: seq<Input>, i: nat, r: U32)
    requires sys.detector.enabled && StandingAnomaly(sys, inputs, i, r) && inputs[i].Arrived?
    ensures StateOf(Run(sys, inputs).readers, r).quarantine ==
            Some(QuarantineInfo(inputs[i].env.reportClock, AnomalyAt(sys, inputs, i).value))
  {
    hide HandleFrame, Judge, FrameStep, FirstFailure, AnomalyAtStage;
    var last := |inputs| - 1;
    var front := inputs[..last];
    var st, input := Run(sys, front), inputs[last];
    if i < last {
      AnomalyPrefix(sys, inputs, i);
      QuarantineNamesItsAnomaly(sys, front, i, r);
    }
    if ReaderOf(sys, input) != r {
      StepElsewhere(sys, st, input, r);
    } else {
      var env, bytes := input.env, input.bytes;
      var fr := HandleFrame(sys.prims, sys.config, env.store, env.decryptClock, st.windows, bytes).0;
      HandlerFootprint(sys.prims, sys.config, env.store, env.decryptClock, st.windows, bytes);
      WatchedJudgement(sys, env, st.readers, fr);
      AnomalyExactly(sys, st, env, bytes);
      FrameOutcome(sys, st, env, bytes);
    }
  }

  lemma NoneStands(sys: System, r: U32, i: nat)
    ensures !StandingAnomaly(sys, [], i, r)
  {
  }

  /** From an anomaly until the next unquarantine, every frame of the reader is denied as quarantined. */
  lemma DeniedUntilUnquarantined(sys: System, inputs: seq<Input>, i: nat, j: nat, r: U32)
    requires sys.detector.enabled && i < j < |inputs|
    requires StandingAnomaly(sys, inputs[..j], i, r)
    requires inputs[j].Arrived? && ReaderOf(sys, inputs[j]) == r
    ensures OutcomeAt(sys, inputs, j) == Decided(false, Quarantined) || OutcomeAt(sys, inputs, j) == AppendThrew
    ensures Run(sys, inputs[..j + 1]).readers == Run(sys, inputs[..j]).readers
  {
    hide HandleFrame, Judge, FrameStep, StandingAnomaly;
    QuarantinedExactly(sys, inputs[..j], r);
    RunNext(sys, inputs, j);
    var st, env, bytes := Run(sys, inputs[..j]), inputs[j].env, inputs[j].bytes;
    var fr := HandleFrame(sys.prims, sys.config, env.store, env.decryptClock, st.windows, bytes).0;
    HandlerFootprint(sys.prims, sys.config, env.store, env.decryptClock, st.windows, bytes);
    WatchedJudgement(sys, env, st.readers, fr);
    FrameOutcome(sys, st, env, bytes);
  }

  predicate StreakInBounds(config: DetectorConfig, s: ReaderState) {
    && (s.consecutiveTagFails <= config.tagFailStreakLimit || s.consecutiveTagFails <= 1)
    && (s.quarantine == None ==> s.consecutiveTagFails == 0 || s.consecutiveTagFails < config.tagFailStreakLimit)
  }

  lemma JudgeKeepsStreak(sys: System, env: Env, readers: Readers, fr: HandleResult)
    requires StreakInBounds(sys.detector, StateOf(readers, fr.header.readerId))
    ensures StreakInBounds(sys.detector, StateOf(Judge(sys, env, readers, fr).readers, fr.header.readerId))
  {
    hide NonceMatches, DecidePayload, RollsBack;
  }

  /** The failure counter never exceeds max(limit, 1), so its 32 bits never wrap. */
  lemma {:induction false} FailureCounterBounded(sys: System, inputs: seq<Input>, r: U32)
    ensures StreakInBounds(sys.detector, StateOf(Run(sys, inputs).readers, r))
  {
    hide HandleFrame, Judge, FrameStep;
    if inputs != [] {
      var last := |inputs| - 1;
      var st, input := Run(sys, inputs[..last]), inputs[last];
      FailureCounterBounded(sys, inputs[..last], r);
      if ReaderOf(sys, input) != r {
        StepElsewhere(sys, st, input, r);
      } else if input.Arrived? {
        var env, bytes := input.env, input.bytes;
        var fr := HandleFrame(sys.prims, sys.config, env.store, env.decryptClock, st.windows, bytes).0;
        HandlerFootprint(sys.prims, sys.config, env.store, env.decryptClock, st.windows, bytes);
        JudgeKeepsStreak(sys, env, st.readers, fr);
        FrameOutcome(sys, st, env, bytes);
      }
    }
  }

  /** The cipher failures denied to `r` since it last passed the handler or came out of quarantine. */
  function FailuresInARow(sys: System, inputs: seq<Input>, r: U32): nat {
    if inputs == [] then 0
    else
      var last := |inputs| - 1;
      var st, input := Run(sys, inputs[..last]), inputs[last];
      var earlier := FailuresInARow(sys, inputs[..last], r);
      if ReaderOf(sys, input) != r then earlier
      else
        match input
        case Unquarantine(_) => if IsQuarantined(st.readers, r) then 0 else earlier
        case Arrived(env, bytes) =>
          var fr := HandleFrame(sys.prims, sys.config, env.store, env.decryptClock, st.windows, bytes).0;
          var reason := Judge(sys, env, st.readers, fr).verdict.reason;
          if reason == DecryptFailed then earlier + 1
          else if fr.allow && reason != Quarantined then 0
          else earlier
  }

  lemma JudgeCountsFailures(sys: System, env: Env, readers: Readers, fr: HandleResult)
    requires sys.detector.enabled && fr.reason != MacVerificationFailed && fr.reason != Quarantined
    requires fr.allow <==> fr.reason == Ok
    requires StreakInBounds(sys.detector, StateOf(readers, fr.header.readerId))
    ensures
      var r := fr.header.readerId;
      var j := Judge(sys, env, readers, fr);
      var before: int, after: int := StateOf(readers, r).consecutiveTagFails, StateOf(j.readers, r).consecutiveTagFails;
      after == if j.verdict.reason == DecryptFailed then before + 1
               else if fr.allow && j.verdict.reason != Quarantined then 0 else before
  {
    hide NonceMatches, RollsBack, JudgeUnflagged;
    var r, s, ts := fr.header.readerId, fr.header.seqNo, env.reportClock;
    UnflaggedCountsFailures(sys, env, readers, fr);
    if s > 0 {
      UnflaggedCountsFailures(sys, env, readers[r := AfterSeq(sys.detector, StateOf(readers, r), s, ts)], fr);
    }
  }

  lemma UnflaggedCountsFailures(sys: System, env: Env, readers: Readers, fr: HandleResult)
    requires sys.detector.enabled && fr.reason != MacVerificationFailed && fr.reason != Quarantined
    requires fr.allow <==> fr.reason == Ok
    ensures
      var r := fr.header.readerId;
      var j := JudgeUnflagged(sys, env, readers, fr);
      var before: int, after: int := StateOf(readers, r).consecutiveTagFails, StateOf(j.readers, r).consecutiveTagFails;
      before == 0 || before < sys.detector.tagFailStreakLimit ==>
        j.verdict.reason != Quarantined
        && after == if j.verdict.reason == DecryptFailed then before + 1 else if fr.allow then 0 else before
  {
    hide DecidePayload;
    PayloadReasons(sys.prims, sys.config, env.store, fr);
  }

  lemma PayloadReasons(p: Primitives, cfg: FrameHandlerConfig, store: Option<Store>, fr: HandleResult)
    ensures var reason := DecidePayload(p, cfg, store, fr).reason;
            reason != DecryptFailed && reason != Quarantined
  {
    hide CheckAccessPolicy, ParseAccessRequest;
    match ParseAccessRequest(p, fr.plaintext)
    case None =>
    case Some(request) => PolicyReasons(p, cfg, store, fr.header, request);
  }

  lemma PolicyReasons(p: Primitives, cfg: FrameHandlerConfig, store: Option<Store>, h: Header, request: AccessRequest)
    ensures var reason := CheckAccessPolicy(p, cfg, store, h, request).reason;
            reason != DecryptFailed && reason != Quarantined
  {
    hide ResolveCard;
  }

  /** The streak counter counts exactly the failures in a row, and never wraps. */
  lemma {:induction false} CounterIsFailuresInARow(sys: System, inputs: seq<Input>, r: U32)
    requires sys.detector.enabled
    ensures StateOf(Run(sys, inputs).readers, r).consecutiveTagFails == FailuresInARow(sys, inputs, r)
  {
    hide HandleFrame, Judge, FrameStep, StreakInBounds, ParseFrame;
    if inputs != [] {
      var last := |inputs| - 1;
      var st, input := Run(sys, inputs[..last]), inputs[last];
      CounterIsFailuresInARow(sys, inputs[..last], r);
      if ReaderOf(sys, input) != r {
        StepElsewhere(sys, st, input, r);
      } else if input.Arrived? {
        var env, bytes := input.env, input.bytes;
        var fr := HandleFrame(sys.prims, sys.config, env.store, env.decryptClock, st.windows, bytes).0;
        HandlerFootprint(sys.prims, sys.config, env.store, env.decryptClock, st.windows, bytes);
        HandlerReasons(sys.prims, sys.config, env.store, env.decryptClock, st.windows, bytes);
        FailureCounterBounded(sys, inputs[..last], r);
        JudgeCountsFailures(sys, env, st.readers, fr);
        FrameOutcome(sys, st, env, bytes);
      }
    }
  }

  /**
    When the failure streak fires: at a frame that comes as far as the seal and
    fails there, if with it the failures in a row reach the limit.
   */
  lemma StreakFiresExactly(sys: System, inputs: seq<Input>, i: nat)
    requires sys.detector.enabled && i < |inputs| && inputs[i].Arrived?
    ensures
      var env, bytes := inputs[i].env, inputs[i].bytes;
      var r := HeaderFor(sys.config, bytes).readerId;
      AnomalyAt(sys, inputs, i) == Some(TagFailStreak) <==>
      && FirstFailure(sys, Run(sys, inputs[..i]), env, bytes) == Some(SealIntact)
      && FailuresInARow(sys, inputs[..i], r) + 1 >= sys.detector.tagFailStreakLimit
  {
    hide Run, FirstFailure, HeaderFor, FailuresInARow;
    var st, env, bytes := Run(sys, inputs[..i]), inputs[i].env, inputs[i].bytes;
    var r := HeaderFor(sys.config, bytes).readerId;
    CounterIsFailuresInARow(sys, inputs[..i], r);
    FailureCounterBounded(sys, inputs[..i], r);
    if FirstFailure(sys, st, env, bytes) == Some(SealIntact) {
      SealFailsUnquarantined(sys, st, env, bytes);
    }
  }

  lemma SealFailsUnquarantined(sys: System, st: EngineState, env: Env, bytes: Bytes)
    requires sys.detector.enabled && FirstFailure(sys, st, env, bytes) == Some(SealIntact)
    ensures StateOf(st.readers, HeaderFor(sys.config, bytes).readerId).quarantine == None
  {
    hide FirstFailure, HeaderFor, Passes, RollsBack, NonceMatches;
    FirstFailureIsFirst(sys, st, env, bytes);
    WatchStages(sys, st, env, bytes);
    assert Passes(NotQuarantined, sys, st, env, bytes);
  }

  /** The numbers of `r` that were shown to the rollback test and not flagged. */
  function Unflagged(sys: System, inputs: seq<Input>, r: U32): seq<U64> {
    if inputs == [] then []
    else
      var last := |inputs| - 1;
      var before := StateOf(Run(sys, inputs[..last]).readers, r);
      var shown := Unflagged(sys, inputs[..last], r);
      if inputs[last].Unquarantine? || ReaderOf(sys, inputs[last]) != r then shown
      else
        var s := HeaderFor(sys.config, inputs[last].bytes).seqNo;
        if before.quarantine.None? && s > 0 && !RollsBack(sys.detector, before, s) then shown + [s] else shown
  }

  /** The detector's maximum is the maximum of all unflagged numbers; unquarantine keeps it. */
  lemma {:induction false} MaximumOfUnflagged(sys: System, inputs: seq<Input>, r: U32)
    requires sys.detector.enabled
    ensures StateOf(Run(sys, inputs).readers, r).maxSeenSeq == MaxOf(Unflagged(sys, inputs, r))
  {
    hide HandleFrame, Judge, FrameStep, RollsBack;
    if inputs != [] {
      var last := |inputs| - 1;
      var st, input := Run(sys, inputs[..last]), inputs[last];
      MaximumOfUnflagged(sys, inputs[..last], r);
      if ReaderOf(sys, input) != r {
        StepElsewhere(sys, st, input, r);
      } else if input.Arrived? {
        var env, bytes := input.env, input.bytes;
        var fr := HandleFrame(sys.prims, sys.config, env.store, env.decryptClock, st.windows, bytes).0;
        HandlerFootprint(sys.prims, sys.config, env.store, env.decryptClock, st.windows, bytes);
        WatchedJudgement(sys, env, st.readers, fr);
        FrameOutcome(sys, st, env, bytes);
        MaxOfAppend(Unflagged(sys, inputs[..last], r), HeaderFor(sys.config, bytes).seqNo);
      }
    }
  }

  /** Over any stretch of a run the detector's maximum only rises and a window's history only grows. */
  lemma {:induction false} RunsOnlyGrow(sys: System, inputs: seq<Input>, m: nat, n: nat, r: U32)
    requires m <= n <= |inputs|
    ensures
      var st, st' := Run(sys, inputs[..m]), Run(sys, inputs[..n]);
      && StateOf(st.readers, r).maxSeenSeq <= StateOf(st'.readers, r).maxSeenSeq
      && HistoryOf(st.windows, r) <= HistoryOf(st'.windows, r)
    decreases n - m
  {
    hide Step, ReaderOf;
    if m < n {
      RunNext(sys, inputs, m);
      StepGrows(sys, Run(sys, inputs[..m]), inputs[m], r);
      RunsOnlyGrow(sys, inputs, m + 1, n, r);
    }
  }

  lemma StepGrows(sys: System, st: EngineState, input: Input, r: U32)
    ensures
      var st' := Step(sys, st, input).0;
      && StateOf(st.readers, r).maxSeenSeq <= StateOf(st'.readers, r).maxSeenSeq
      && HistoryOf(st.windows, r) <= HistoryOf(st'.windows, r)
  {
    hide HandleFrame, Judge, FrameStep, RollsBack;
    if ReaderOf(sys, input) != r {
      StepElsewhere(sys, st, input, r);
    } else if input.Arrived? {
      var env, bytes := input.env, input.bytes;
      var fr := HandleFrame(sys.prims, sys.config, env.store, env.decryptClock, st.windows, bytes).0;
      HandlerFootprint(sys.prims, sys.config, env.store, env.decryptClock, st.windows, bytes);
      if sys.detector.enabled {
        WatchedJudgement(sys, env, st.readers, fr);
      } else {
        UnwatchedJudgement(sys, env, st.readers, fr);
      }
      FrameOutcome(sys, st, env, bytes);
    }
  }

  /** Input `i` is a frame of reader `r` with number `x > 0` that the rollback test saw and let through. */
  predicate ShownAt(sys: System, inputs: seq<Input>, i: nat, r: U32, x: U64) {
    && i < |inputs| && inputs[i].Arrived? && x > 0
    && HeaderFor(sys.config, inputs[i].bytes).readerId == r
    && HeaderFor(sys.config, inputs[i].bytes).seqNo == x
    && !QuarantinedAfter(sys, inputs[..i], r)
    && !RollsBack(sys.detector, StateOf(Run(sys, inputs[..i]).readers, r), x)
  }

  lemma ShownLater(sys: System, inputs: seq<Input>, n: nat, i: nat, r: U32, x: U64)
    requires n <= |inputs| && ShownAt(sys, inputs[..n], i, r, x)
    ensures ShownAt(sys, inputs, i, r, x)
  {
    hide RollsBack, HeaderFor, QuarantinedAfter;
    assert inputs[..n][..i] == inputs[..i];
  }

  lemma {:induction false} UnflaggedWereShown(sys: System, inputs: seq<Input>, r: U32, x: U64)
    requires x in Unflagged(sys, inputs, r)
    ensures exists i :: ShownAt(sys, inputs, i, r, x)
  {
    hide ShownAt, RollsBack, HeaderFor;
    var last := |inputs| - 1;
    if x in Unflagged(sys, inputs[..last], r) {
      UnflaggedWereShown(sys, inputs[..last], r, x);
      var i :| ShownAt(sys, inputs[..last], i, r, x);
      ShownLater(sys, inputs, last, i, r, x);
    } else {
      NewlyShown(sys, inputs, r, x);
    }
  }

  lemma NewlyShown(sys: System, inputs: seq<Input>, r: U32, x: U64)
    requires inputs != [] && x in Unflagged(sys, inputs, r) && x !in Unflagged(sys, inputs[..|inputs| - 1], r)
    ensures ShownAt(sys, inputs, |inputs| - 1, r, x)
  {
    hide RollsBack, HeaderFor, Run;
  }

  /**
    The rollback test flags a number exactly when some number shown before, to
    whatever end, is above it by more than the threshold (in the 64-bit sum of
    the code). Frames need not be authentic and no unquarantine takes it back.
   */
  lemma RollsBackExactly(sys: System, inputs: seq<Input>, r: U32, s: U64)
    requires sys.detector.enabled
    ensures RollsBack(sys.detector, StateOf(Run(sys, inputs).readers, r), s) <==>
            exists i: nat, x: U64 :: ShownAt(sys, inputs, i, r, x) && SumU64(s, sys.detector.rollbackThreshold) < x
  {
    hide ShownAt, Run, Unflagged, SumU64, MaxOf;
    var top := StateOf(Run(sys, inputs).readers, r).maxSeenSeq;
    MaximumOfUnflagged(sys, inputs, r);
    MaxOfBounds(Unflagged(sys, inputs, r));
    if RollsBack(sys.detector, StateOf(Run(sys, inputs).readers, r), s) {
      UnflaggedWereShown(sys, inputs, r, top);
    }
    forall i: nat, x: U64 | ShownAt(sys, inputs, i, r, x)
      ensures x <= top
    {
      ShownInRange(sys, inputs, i, r, x);
      ShownIsKnown(sys, inputs, i, r, x);
      RunsOnlyGrow(sys, inputs, i + 1, |inputs|, r);
      assert inputs[..|inputs|] == inputs;
    }
  }

  lemma ShownInRange(sys: System, inputs: seq<Input>, i: nat, r: U32, x: U64)
    requires ShownAt(sys, inputs, i, r, x)
    ensures i < |inputs| && x > 0
  {
  }

  /**
    So one number shown, authentic or not, shuts out what lies more than the
    threshold below it for good: each such frame is denied as quarantined and
    leaves its reader so, whatever number of unquarantines came between.
   */
  lemma RolledBackForever(sys: System, inputs: seq<Input>, i: nat, j: nat, r: U32, x: U64)
    requires sys.detector.enabled && i < j < |inputs| && ShownAt(sys, inputs, i, r, x)
    requires inputs[j].Arrived? && HeaderFor(sys.config, inputs[j].bytes).readerId == r
    requires 0 < HeaderFor(sys.config, inputs[j].bytes).seqNo
    requires SumU64(HeaderFor(sys.config, inputs[j].bytes).seqNo, sys.detector.rollbackThreshold) < x
    ensures OutcomeAt(sys, inputs, j) == Decided(false, Quarantined) || OutcomeAt(sys, inputs, j) == AppendThrew
    ensures QuarantinedAfter(sys, inputs[..j + 1], r)
  {
    hide HandleFrame, Judge, FrameStep, RollsBack, SumU64, ShownAt, HeaderFor;
    ShownEarlier(sys, inputs, j, i, r, x);
    RollsBackExactly(sys, inputs[..j], r, HeaderFor(sys.config, inputs[j].bytes).seqNo);
    RunNext(sys, inputs, j);
    var st, env, bytes := Run(sys, inputs[..j]), inputs[j].env, inputs[j].bytes;
    var fr := HandleFrame(sys.prims, sys.config, env.store, env.decryptClock, st.windows, bytes).0;
    HandlerFootprint(sys.prims, sys.config, env.store, env.decryptClock, st.windows, bytes);
    WatchedJudgement(sys, env, st.readers, fr);
    FrameOutcome(sys, st, env, bytes);
  }

  lemma ShownEarlier(sys: System, inputs: seq<Input>, n: nat, i: nat, r: U32, x: U64)
    requires i < n <= |inputs| && ShownAt(sys, inputs, i, r, x)
    ensures ShownAt(sys, inputs[..n], i, r, x)
  {
    hide RollsBack, HeaderFor, QuarantinedAfter;
    assert inputs[..n][..i] == inputs[..i];
  }

  lemma ShownIsKnown(sys: System, inputs: seq<Input>, i: nat, r: U32, x: U64)
    requires sys.detector.enabled && ShownAt(sys, inputs, i, r, x)
    ensures x <= StateOf(Run(sys, inputs[..i + 1]).readers, r).maxSeenSeq
  {
    hide HandleFrame, Judge, FrameStep, RollsBack;
    RunNext(sys, inputs, i);
    var st, env, bytes := Run(sys, inputs[..i]), inputs[i].env, inputs[i].bytes;
    var fr := HandleFrame(sys.prims, sys.config, env.store, env.decryptClock, st.windows, bytes).0;
    HandlerFootprint(sys.prims, sys.config, env.store, env.decryptClock, st.windows, bytes);
    WatchedJudgement(sys, env, st.readers, fr);
    FrameOutcome(sys, st, env, bytes);
  }

  // ---- grants ----

  lemma {:induction false} HistoriesAdmissible(sys: System, inputs: seq<Input>, r: U32)
    requires sys.config.antiReplayEnabled
    ensures Admissible(WindowSize(sys.config), HistoryOf(Run(sys, inputs).windows, r))
  {
    hide HandleFrame, Judge, FrameStep, Fresh, WindowSize;
    if inputs != [] {
      var last := |inputs| - 1;
      var st, input := Run(sys, inputs[..last]), inputs[last];
      var h := HistoryOf(st.windows, r);
      HistoriesAdmissible(sys, inputs[..last], r);
      if ReaderOf(sys, input) != r {
        StepElsewhere(sys, st, input, r);
      } else if input.Arrived? {
        var env, bytes := input.env, input.bytes;
        HandlerFootprint(sys.prims, sys.config, env.store, env.decryptClock, st.windows, bytes);
        FrameOutcome(sys, st, env, bytes);
        AdmissibleAppend(WindowSize(sys.config), h, HeaderFor(sys.config, bytes).seqNo);
        assert h + [] == h;
      }
    }
  }

  /** Input `i` is a frame of reader `r` with number `s`, and it was granted. */
  predicate GrantedAt(sys: System, inputs: seq<Input>, i: nat, r: U32, s: U64) {
    && i < |inputs| && inputs[i].Arrived?
    && HeaderFor(sys.config, inputs[i].bytes).readerId == r
    && HeaderFor(sys.config, inputs[i].bytes).seqNo == s
    && OutcomeAt(sys, inputs, i) == Decided(true, Ok)
  }

  /** A granted number was fresh and is recorded, with or without a detector. */
  lemma GrantRecords(sys: System, inputs: seq<Input>, i: nat, r: U32, s: U64)
    requires sys.config.antiReplayEnabled && GrantedAt(sys, inputs, i, r, s)
    ensures
      var h, h' := HistoryOf(Run(sys, inputs[..i]).windows, r), HistoryOf(Run(sys, inputs[..i + 1]).windows, r);
      h' == h + [s] && Fresh(WindowSize(sys.config), h, s)
  {
    hide HandleFrame, Judge, FrameStep, Fresh, WindowSize, RollsBack;
    RunNext(sys, inputs, i);
    var st, env, bytes := Run(sys, inputs[..i]), inputs[i].env, inputs[i].bytes;
    var fr := HandleFrame(sys.prims, sys.config, env.store, env.decryptClock, st.windows, bytes).0;
    HandlerFootprint(sys.prims, sys.config, env.store, env.decryptClock, st.windows, bytes);
    OnlyAllowedAreGranted(sys, env, st.readers, fr);
    FrameOutcome(sys, st, env, bytes);
  }

  /** The numbers of `r` that arrived with inputs `m` to `n`. */
  function ArrivedNumbers(sys: System, inputs: seq<Input>, m: nat, n: nat, r: U32): set<U64>
    requires m <= n <= |inputs|
  {
    set i | m <= i < n && inputs[i].Arrived? && HeaderFor(sys.config, inputs[i].bytes).readerId == r
      :: HeaderFor(sys.config, inputs[i].bytes).seqNo
  }

  /** A window records only what arrives, each step at most one number. */
  lemma {:induction false} RecordedArrived(sys: System, inputs: seq<Input>, m: nat, n: nat, r: U32)
    requires m <= n <= |inputs|
    ensures
      var g, h := HistoryOf(Run(sys, inputs[..m]).windows, r), HistoryOf(Run(sys, inputs[..n]).windows, r);
      && g <= h
      && forall k :: |g| <= k < |h| ==> h[k] in ArrivedNumbers(sys, inputs, m, n, r)
    decreases n
  {
    hide Step, ReaderOf, Run, HistoryOf, HeaderFor, ArrivedNumbers;
    if m < n {
      var g, h := HistoryOf(Run(sys, inputs[..m]).windows, r), HistoryOf(Run(sys, inputs[..n - 1]).windows, r);
      RecordedArrived(sys, inputs, m, n - 1, r);
      RunNext(sys, inputs, n - 1);
      StepRecords(sys, Run(sys, inputs[..n - 1]), inputs[n - 1], r);
      ArrivedNext(sys, inputs, m, n, r);
    }
  }

  lemma ArrivedNext(sys: System, inputs: seq<Input>, m: nat, n: nat, r: U32)
    requires m < n <= |inputs|
    ensures ArrivedNumbers(sys, inputs, m, n - 1, r) <= ArrivedNumbers(sys, inputs, m, n, r)
    ensures inputs[n - 1].Arrived? && HeaderFor(sys.config, inputs[n - 1].bytes).readerId == r ==>
              HeaderFor(sys.config, inputs[n - 1].bytes).seqNo in ArrivedNumbers(sys, inputs, m, n, r)
  {
    hide HeaderFor;
  }

  lemma StepRecords(sys: System, st: EngineState, input: Input, r: U32)
    ensures
      var h, h' := HistoryOf(st.windows, r), HistoryOf(Step(sys, st, input).0.windows, r);
      || h' == h
      || (&& input.Arrived? && HeaderFor(sys.config, input.bytes).readerId == r
          && h' == h + [HeaderFor(sys.config, input.bytes).seqNo])
  {
    hide HandleFrame, Judge, FrameStep, HeaderFor;
    match input
    case Arrived(env, bytes) =>
      HandlerFootprint(sys.prims, sys.config, env.store, env.decryptClock, st.windows, bytes);
      FrameOutcome(sys, st, env, bytes);
      assert HistoryOf(st.windows, r) + [] == HistoryOf(st.windows, r);
    case Unquarantine(_) =>
  }

  /**
    Two grants of one number, in any run and with no help from the detector:
    in between, at least `W` other numbers of the reader arrived, one of them
    smaller.
   */
  lemma RegrantNeedsFrames(sys: System, inputs: seq<Input>, i: nat, j: nat, r: U32, s: U64)
    requires sys.config.antiReplayEnabled
    requires i < j < |inputs| && GrantedAt(sys, inputs, i, r, s) && GrantedAt(sys, inputs, j, r, s)
    ensures
      var others := ArrivedNumbers(sys, inputs, i + 1, j, r) - {s};
      |others| >= sys.config.replayWindowSize && exists x :: x in others && x < s
  {
    hide Run, GrantedAt, Fresh, Admissible, HistoryOf, WindowSize, Distinct, ArrivedNumbers;
    var w := WindowSize(sys.config);
    ConfiguredWindow(sys.config);
    var g, h := HistoryOf(Run(sys, inputs[..i + 1]).windows, r), HistoryOf(Run(sys, inputs[..j]).windows, r);
    var arrived := ArrivedNumbers(sys, inputs, i + 1, j, r);
    GrantRecords(sys, inputs, i, r, s);
    GrantRecords(sys, inputs, j, r, s);
    RecordedArrived(sys, inputs, i + 1, j, r);
    HistoriesAdmissible(sys, inputs[..j], r);
    AdmissibleAppend(w, h, s);
    AdmissibleExactly(w, h + [s]);
    OthersInBetween(w, h, |g| - 1, s, arrived);
  }

  lemma OthersInBetween(w: U64, h: History, a: nat, s: U64, arrived: set<U64>)
    requires 1 <= w && SpacedAndYoung(w, h + [s]) && a < |h| && h[a] == s
    requires forall k :: a < k < |h| ==> h[k] in arrived
    ensures |arrived - {s}| >= w && exists x :: x in arrived - {s} && x < s
  {
    var all := h + [s];
    NextAreDistinct(w, all, a, |h|);
    SmallerFollower(w, all, a, |h|);
    var mid := all[a + 1..a + 1 + w];
    assert forall k :: 0 <= k < |mid| ==> mid[k] == h[a + 1 + k] && mid[k] != s;
    DistinctCount(mid, arrived - {s});
    var k :| a < k <= a + w && all[k] < s;
    assert h[k] in arrived - {s} && h[k] < s;
  }

  /** A grant's clock is within the skew of the frame's timestamp. */
  lemma GrantInSkew(sys: System, inputs: seq<Input>, i: nat, r: U32, s: U64)
    requires sys.config.maxSkewMs != 0 && GrantedAt(sys, inputs, i, r, s)
    ensures
      var ts, now := HeaderFor(sys.config, inputs[i].bytes).tsUnixMs, inputs[i].env.decryptClock;
      now <= ts + sys.config.maxSkewMs && ts <= now + sys.config.maxSkewMs
  {
    hide FrameStep, Run, VerdictOf, Rank, HeaderFor, PassesBelow;
    var st, env, bytes := Run(sys, inputs[..i]), inputs[i].env, inputs[i].bytes;
    GrantExactly(sys, st, env, bytes);
    assert Passes(NotTooOld, sys, st, env, bytes) && Passes(NotTooFuture, sys, st, env, bytes);
  }

  /**
    With a skew limit, grants of frames under one timestamp lie within twice
    the limit of each other, whatever unquarantines or restarts come between:
    the two runs may be one or belong to different starts of the server.
   */
  lemma RegrantsAreClose(sys: System, inputs: seq<Input>, i: nat, r: U32, s: U64,
                         inputs': seq<Input>, j: nat, r': U32, s': U64)
    requires sys.config.maxSkewMs != 0
    requires GrantedAt(sys, inputs, i, r, s) && GrantedAt(sys, inputs', j, r', s')
    requires HeaderFor(sys.config, inputs[i].bytes).tsUnixMs == HeaderFor(sys.config, inputs'[j].bytes).tsUnixMs
    ensures var gap: int := inputs[i].env.decryptClock - inputs'[j].env.decryptClock;
            -2 * sys.config.maxSkewMs <= gap <= 2 * sys.config.maxSkewMs
  {
    hide GrantedAt, HeaderFor;
    GrantInSkew(sys, inputs, i, r, s);
    GrantInSkew(sys, inputs', j, r', s');
  }

  /** What a grant says of the states around it. */
  lemma GrantFacts(sys: System, inputs: seq<Input>, i: nat, r: U32, s: U64)
    requires sys.config.antiReplayEnabled && sys.detector.enabled && GrantedAt(sys, inputs, i, r, s)
    ensures
      var st, st' := Run(sys, inputs[..i]), Run(sys, inputs[..i + 1]);
      var before, after := StateOf(st.readers, r), StateOf(st'.readers, r);
      && HistoryOf(st'.windows, r) == HistoryOf(st.windows, r) + [s]
      && Fresh(WindowSize(sys.config), HistoryOf(st.windows, r), s)
      && before.quarantine == None && after.quarantine == None
      && Tolerated(sys.detector.rollbackThreshold, before.maxSeenSeq, s)
      && s <= after.maxSeenSeq
  {
    hide HandleFrame, Judge, FrameStep, Fresh, WindowSize, RollsBack;
    RunNext(sys, inputs, i);
    var st, env, bytes := Run(sys, inputs[..i]), inputs[i].env, inputs[i].bytes;
    var fr := HandleFrame(sys.prims, sys.config, env.store, env.decryptClock, st.windows, bytes).0;
    HandlerFootprint(sys.prims, sys.config, env.store, env.decryptClock, st.windows, bytes);
    WatchedJudgement(sys, env, st.readers, fr);
    FrameOutcome(sys, st, env, bytes);
    if s > 0 {
      ToleratedExactly(sys.detector, StateOf(st.readers, r), s);
    }
  }

  /** Window sizes and thresholds that go together; size 0 is raised to 1. */
  predicate Protects(size: U64, t: U64) {
    size <= 1 || size > 2 * t + 1 || size + t >= TWO64
  }

  /** After place `a`, which holds `s`: every number is one the rollback test tolerates beside `s`, and all are known to it. */
  ghost predicate TrackedSince(h: History, a: nat, s: U64, t: U64, top: U64) {
    && a < |h| && h[a] == s && s <= top
    && forall k :: a < k < |h| ==> Tolerated(t, s, h[k]) && h[k] <= top
  }

  lemma TrackedAppend(h: History, a: nat, s: U64, t: U64, top: U64, x: U64, top': U64)
    requires TrackedSince(h, a, s, t, top)
    requires Tolerated(t, top, x)
    requires x <= top' && top <= top'
    ensures TrackedSince(h + [x], a, s, t, top')
  {
  }

  /** While the reader stays out of quarantine after a grant, its window stays tracked. */
  lemma {:induction false} TrackedAfterGrant(sys: System, inputs: seq<Input>, i: nat, m: nat, r: U32, s: U64)
    requires sys.config.antiReplayEnabled && sys.detector.enabled && GrantedAt(sys, inputs, i, r, s)
    requires i < m <= |inputs|
    requires forall n :: i < n <= m ==> !QuarantinedAfter(sys, inputs[..n], r)
    ensures
      var st := Run(sys, inputs[..m]);
      TrackedSince(HistoryOf(st.windows, r), |HistoryOf(Run(sys, inputs[..i]).windows, r)|, s,
                   sys.detector.rollbackThreshold, StateOf(st.readers, r).maxSeenSeq)
    decreases m
  {
    hide HandleFrame, Judge, FrameStep, GrantedAt, Fresh;
    if m == i + 1 {
      GrantFacts(sys, inputs, i, r, s);
    } else {
      TrackedAfterGrant(sys, inputs, i, m - 1, r, s);
      TrackedStep(sys, inputs, m - 1, r, |HistoryOf(Run(sys, inputs[..i]).windows, r)|, s);
    }
  }

  lemma TrackedStep(sys: System, inputs: seq<Input>, n: nat, r: U32, a: nat, s: U64)
    requires sys.config.antiReplayEnabled && sys.detector.enabled && n < |inputs|
    requires !QuarantinedAfter(sys, inputs[..n + 1], r)
    requires var st := Run(sys, inputs[..n]);
             TrackedSince(HistoryOf(st.windows, r), a, s, sys.detector.rollbackThreshold, StateOf(st.readers, r).maxSeenSeq)
    ensures var st := Run(sys, inputs[..n + 1]);
            TrackedSince(HistoryOf(st.windows, r), a, s, sys.detector.rollbackThreshold, StateOf(st.readers, r).maxSeenSeq)
  {
    hide HandleFrame, Judge, FrameStep, Fresh, TrackedSince, RollsBack;
    RunNext(sys, inputs, n);
    var st, input := Run(sys, inputs[..n]), inputs[n];
    var h, before := HistoryOf(st.windows, r), StateOf(st.readers, r);
    if ReaderOf(sys, input) != r {
      StepElsewhere(sys, st, input, r);
    } else if input.Arrived? {
      var env, bytes := input.env, input.bytes;
      var x := HeaderFor(sys.config, bytes).seqNo;
      var fr := HandleFrame(sys.prims, sys.config, env.store, env.decryptClock, st.windows, bytes).0;
      HandlerFootprint(sys.prims, sys.config, env.store, env.decryptClock, st.windows, bytes);
      WatchedJudgement(sys, env, st.readers, fr);
      FrameOutcome(sys, st, env, bytes);
      var top := StateOf(Run(sys, inputs[..n + 1]).readers, r).maxSeenSeq;
      if x > 0 {
        ToleratedExactly(sys.detector, before, x);
      }
      TrackedAppend(h, a, s, sys.detector.rollbackThreshold, before.maxSeenSeq, x, top);
      TrackedRaise(h, a, s, sys.detector.rollbackThreshold, before.maxSeenSeq, top);
      assert h + [] == h;
    }
  }

  lemma TrackedRaise(h: History, a: nat, s: U64, t: U64, top: U64, top': U64)
    requires TrackedSince(h, a, s, t, top) && top <= top'
    ensures TrackedSince(h, a, s, t, top')
  {
  }

  /**
    No double grant: with anti-replay and the detector on, and a window of at
    most one slot, of more than `2T + 1`, or of `2^64 - T` and more, between any two
    grants of one reader and number there is an unquarantine of that reader.
    Stores, clocks and storage faults may differ at every frame.
   */
  lemma NoDoubleGrant(sys: System, inputs: seq<Input>, i: nat, j: nat, r: U32, s: U64)
    requires sys.config.antiReplayEnabled && sys.detector.enabled
    requires Protects(sys.config.replayWindowSize, sys.detector.rollbackThreshold)
    requires i < j < |inputs| && GrantedAt(sys, inputs, i, r, s) && GrantedAt(sys, inputs, j, r, s)
    ensures exists k :: i < k < j && inputs[k] == Unquarantine(r)
  {
    hide HandleFrame, Judge, FrameStep, GrantedAt, Fresh, Admissible;
    if forall k :: i < k < j ==> inputs[k] != Unquarantine(r) {
      GrantFacts(sys, inputs, j, r, s);
      forall n | i < n <= j
        ensures !QuarantinedAfter(sys, inputs[..n], r)
      {
        if QuarantinedAfter(sys, inputs[..n], r) {
          QuarantineSticks(sys, inputs, n, j, r);
        }
      }
      TrackedAfterGrant(sys, inputs, i, j, r, s);
      var h := HistoryOf(Run(sys, inputs[..j]).windows, r);
      var top := StateOf(Run(sys, inputs[..j]).readers, r).maxSeenSeq;
      var w := WindowSize(sys.config);
      ConfiguredWindow(sys.config);
      HistoriesAdmissible(sys, inputs[..j], r);
      AdmissibleAppend(w, h, s);
      AdmissibleExactly(w, h + [s]);
      RepeatInTracked(w, sys.detector.rollbackThreshold, h, |HistoryOf(Run(sys, inputs[..i]).windows, r)|, s, top);
    }
  }

  lemma RepeatInTracked(w: U64, t: U64, h: History, a: nat, s: U64, top: U64)
    requires 1 <= w && SpacedAndYoung(w, h + [s])
    requires TrackedSince(h, a, s, t, top) && Tolerated(t, top, s)
    ensures !Protects(w, t)
  {
    var g := h + [s];
    assert forall k :: 0 <= k < |h| ==> g[k] == h[k];
    SecondAcceptanceNeedsSlack(w, t, true, g, a, |h|, top);
    SecondAcceptanceNeedsHeadroom(w, TWO64 - t, g, a, |h|);
  }

  // ---- the audit trail ----

  /** A returned decision; `card` is the hash that looking up the card of the request gives for this frame. */
  datatype Logged = Logged(header: Header, allow: bool, reason: Reason, card: Text)

  /** The decision a step returned, if its input is a frame and the append did not throw. */
  function Returned(sys: System, input: Input, out: Outcome): seq<Logged> {
    if input.Arrived? && out.Decided?
    then [Logged(HeaderFor(sys.config, input.bytes), out.allow, out.reason, Lookup(sys, input.env, input.bytes).0)]
    else []
  }

  /** The decisions a run returned, in order. */
  function DecisionHistory(sys: System, inputs: seq<Input>): seq<Logged> {
    if inputs == [] then []
    else
      var last := |inputs| - 1;
      DecisionHistory(sys, inputs[..last]) + Returned(sys, inputs[last], OutcomeAt(sys, inputs, last))
  }

  predicate Records(e: AuditEvent, d: Logged) {
    && e.tsUnixMs == d.header.tsUnixMs && e.readerId == d.header.readerId
    && e.doorId == d.header.doorId && e.seqNo == d.header.seqNo
    && e.allow == d.allow && e.reason == Ascii(Code(d.reason))
    && (if d.reason == Ok || d.reason == UnknownCard || d.reason == Forbidden
        then e.cardId == d.card && e.action == OPEN else e.cardId == [] && e.action == [])
  }

  /** One step logs what it returns, and nothing if it returns no decision. */
  lemma StepIsLogged(sys: System, st: EngineState, input: Input)
    requires sys.auditing
    ensures
      var (st', out) := Step(sys, st, input);
      var d := Returned(sys, input, out);
      if d == [] then st'.audit == st.audit
      else exists e :: st'.audit == st.audit + [e] && Records(e, d[0])
  {
    hide HandleFrame, Judge, Code, Ascii, Lookup, Request, HeaderFor, Commits;
    match input
    case Arrived(env, bytes) =>
      var fr := HandleFrame(sys.prims, sys.config, env.store, env.decryptClock, st.windows, bytes).0;
      HandlerFootprint(sys.prims, sys.config, env.store, env.decryptClock, st.windows, bytes);
      VerdictNamesItsCard(sys, st, env, bytes);
      if Step(sys, st, input).1.Decided? {
        var e := EventFor(fr.header, VerdictOf(sys, st, env, bytes));
        assert Step(sys, st, input).0.audit == st.audit + [e];
      }
    case Unquarantine(_) =>
  }

  /** The audit log is the history of returned decisions, entry by entry, even where appends fail. */
  lemma {:induction false} AuditIsDecisionHistory(sys: System, inputs: seq<Input>)
    requires sys.auditing
    ensures
      var audit, ds := Run(sys, inputs).audit, DecisionHistory(sys, inputs);
      |audit| == |ds| && forall i :: 0 <= i < |audit| ==> Records(audit[i], ds[i])
  {
    hide Step, Records, Returned;
    if inputs != [] {
      var last := |inputs| - 1;
      AuditIsDecisionHistory(sys, inputs[..last]);
      StepIsLogged(sys, Run(sys, inputs[..last]), inputs[last]);
      AtMostOneReturned(sys, inputs[last], OutcomeAt(sys, inputs, last));
    }
  }

  lemma AtMostOneReturned(sys: System, input: Input, out: Outcome)
    ensures |Returned(sys, input, out)| <= 1
  {
  }

  lemma {:induction false} HistoryAllowsOk(sys: System, inputs: seq<Input>)
    ensures forall d :: d in DecisionHistory(sys, inputs) ==> (d.allow <==> d.reason == Ok)
  {
    hide FrameStep, Passes, Lookup, HeaderFor, VerdictOf, Rank;
    if inputs != [] {
      var last := |inputs| - 1;
      HistoryAllowsOk(sys, inputs[..last]);
      if inputs[last].Arrived? {
        GrantExactly(sys, Run(sys, inputs[..last]), inputs[last].env, inputs[last].bytes);
      }
    }
  }

  /** Exactly the entries that allow read "ok". */
  lemma GrantsReadOk(sys: System, inputs: seq<Input>, i: nat)
    requires sys.auditing && i < |Run(sys, inputs).audit|
    ensures Run(sys, inputs).audit[i].allow <==> Run(sys, inputs).audit[i].reason == [0x6f, 0x6b]
  {
    hide Run, DecisionHistory, Code;
    AuditIsDecisionHistory(sys, inputs);
    HistoryAllowsOk(sys, inputs);
    var d := DecisionHistory(sys, inputs)[i];
    assert d in DecisionHistory(sys, inputs);
    CodeReads(d.reason);
    CodeReads(Ok);
    ShortCodeIsOk(d.reason);
    hide ReasonOf;
  }

  lemma ShortCodeIsOk(r: Reason)
    ensures r == Ok ==> Ascii(Code(r)) == [0x6f, 0x6b]
    ensures |Code(r)| == 2 <==> r == Ok
  {
  }

  function Arrivals(inputs: seq<Input>): nat {
    if inputs == [] then 0 else Arrivals(inputs[..|inputs| - 1]) + if inputs[|inputs| - 1].Arrived? then 1 else 0
  }

  /** When no append fails, every processed frame has exactly one entry. */
  lemma {:induction false} OneEntryPerFrame(sys: System, inputs: seq<Input>)
    requires sys.auditing
    requires forall i :: 0 <= i < |inputs| && inputs[i].Arrived? ==> Commits(sys.auditChain, inputs[i].env.fault)
    ensures |Run(sys, inputs).audit| == Arrivals(inputs)
  {
    hide HandleFrame, Judge, EventFor;
    if inputs != [] {
      OneEntryPerFrame(sys, inputs[..|inputs| - 1]);
    }
  }

  /** Whatever the engine logs is free of NULs and short. */
  lemma VerdictsArePlain(sys: System, env: Env, readers: Readers, fr: HandleResult)
    ensures
      var v := Judge(sys, env, readers, fr).verdict;
      (v.cardHmac == [] || (|v.cardHmac| == 64 && 0 !in v.cardHmac)) && (v.action == [] || v.action == OPEN)
  {
    hide NonceMatches, RollsBack, StreakReached, ParseAccessRequest;
    if fr.allow {
      match ParseAccessRequest(sys.prims, fr.plaintext)
      case None =>
      case Some(request) => PolicyIsPlain(sys.prims, sys.config, env.store, fr.header, request);
    }
  }

  lemma PolicyIsPlain(p: Primitives, cfg: FrameHandlerConfig, store: Option<Store>, h: Header, request: AccessRequest)
    ensures
      var v := CheckAccessPolicy(p, cfg, store, h, request);
      if v.reason == Ok || v.reason == UnknownCard || v.reason == Forbidden
      then |v.cardHmac| == 64 && 0 !in v.cardHmac && v.action == OPEN
      else v.cardHmac == [] && v.action == []
  {
    hide CardHmac, Ascii;
  }

  lemma {:induction false} AuditIsPlain(sys: System, inputs: seq<Input>)
    ensures forall e :: e in Run(sys, inputs).audit ==> NulFree(e) && Short(e)
  {
    hide HandleFrame, Judge;
    if inputs != [] {
      var last := |inputs| - 1;
      var st, input := Run(sys, inputs[..last]), inputs[last];
      AuditIsPlain(sys, inputs[..last]);
      if input.Arrived? {
        var env := input.env;
        var fr := HandleFrame(sys.prims, sys.config, env.store, env.decryptClock, st.windows, input.bytes).0;
        VerdictsArePlain(sys, env, st.readers, fr);
        EventIsPlain(fr.header, Judge(sys, env, st.readers, fr).verdict);
      }
    }
  }

  lemma EventIsPlain(h: Header, v: Verdict)
    requires v.cardHmac == [] || (|v.cardHmac| == 64 && 0 !in v.cardHmac)
    requires v.action == [] || v.action == OPEN
    ensures NulFree(EventFor(h, v)) && Short(EventFor(h, v))
  {
    assert OPEN == Ascii("open");
  }

  // ---- restarts ----

  /** A run of a server started on a log; everything else it kept in memory is gone. */
  function RunOn(sys: System, log: seq<AuditEvent>, inputs: seq<Input>): EngineState {
    if inputs == [] then StartedOn(log)
    else
      var last := |inputs| - 1;
      Step(sys, RunOn(sys, log, inputs[..last]), inputs[last]).0
  }

  function OnLog(log: seq<AuditEvent>, st: EngineState): EngineState {
    st.(audit := log + st.audit)
  }

  lemma StepOnLog(sys: System, log: seq<AuditEvent>, st: EngineState, input: Input)
    ensures var (st', out) := Step(sys, st, input);
            Step(sys, OnLog(log, st), input) == (OnLog(log, st'), out)
  {
    hide HandleFrame, Judge, EventFor, AfterUnquarantine, Commits;
    match input
    case Arrived(env, bytes) =>
      var (fr, windows) := HandleFrame(sys.prims, sys.config, env.store, env.decryptClock, st.windows, bytes);
      var event := EventFor(fr.header, Judge(sys, env, st.readers, fr).verdict);
      assert log + (st.audit + [event]) == (log + st.audit) + [event];
    case Unquarantine(_) =>
  }

  /** No decision reads the log: a server started on one decides as if it had started on an empty one, and extends it. */
  lemma {:induction false} RunsOnlyExtendTheLog(sys: System, log: seq<AuditEvent>, inputs: seq<Input>)
    ensures RunOn(sys, log, inputs) == OnLog(log, Run(sys, inputs))
    ensures inputs != [] ==>
              var last := |inputs| - 1;
              Step(sys, RunOn(sys, log, inputs[..last]), inputs[last]).1 == OutcomeAt(sys, inputs, last)
  {
    hide Step;
    if inputs == [] {
      assert log + [] == log;
    } else {
      var last := |inputs| - 1;
      RunsOnlyExtendTheLog(sys, log, inputs[..last]);
      StepOnLog(sys, log, Run(sys, inputs[..last]), inputs[last]);
    }
  }

  /** The audit log after several starts of the server, one after another on the same table. */
  function SessionLog(sys: System, sessions: seq<seq<Input>>): seq<AuditEvent> {
    if sessions == [] then []
    else
      var last := |sessions| - 1;
      RunOn(sys, SessionLog(sys, sessions[..last]), sessions[last]).audit
  }

  function SessionHistory(sys: System, sessions: seq<seq<Input>>): seq<Logged> {
    if sessions == [] then []
    else
      var last := |sessions| - 1;
      SessionHistory(sys, sessions[..last]) + DecisionHistory(sys, sessions[last])
  }

  /** Across restarts, too, the log is the history of returned decisions, and plain. */
  lemma {:induction false} SessionsAreLogged(sys: System, sessions: seq<seq<Input>>)
    requires sys.auditing
    ensures
      var log, ds := SessionLog(sys, sessions), SessionHistory(sys, sessions);
      && |log| == |ds| && (forall i :: 0 <= i < |log| ==> Records(log[i], ds[i]))
      && forall e :: e in log ==> NulFree(e) && Short(e)
  {
    hide Run, RunOn, DecisionHistory, Records, NulFree, Short;
    if sessions != [] {
      var last := |sessions| - 1;
      SessionsAreLogged(sys, sessions[..last]);
      RunsOnlyExtendTheLog(sys, SessionLog(sys, sessions[..last]), sessions[last]);
      AuditIsDecisionHistory(sys, sessions[last]);
      AuditIsPlain(sys, sessions[last]);
    }
  }

  /**
    The log of any series of starts and runs verifies; and any table that
    verifies under the same key against its final anchor holds exactly the
    audit events of those runs, or shows a collision or a preimage of the zero
    block.
   */
  lemma AnchoredHistory(sys: System, sessions: seq<seq<Input>>, key: Key, other: AuditDb)
    requires sys.auditing && sys.auditChain
    requires
      var db := WrittenDb(sys.prims.hmac, key, true, SessionLog(sys, sessions));
      Verified(sys.prims.hmac, key, other) && other.anchor == db.anchor && AllShort(other.rows)
    ensures
      var audit := SessionLog(sys, sessions);
      var db := WrittenDb(sys.prims.hmac, key, true, audit);
      && Verified(sys.prims.hmac, key, db)
      && match Compare(db.rows, other.rows)
         case SameRecords => EventsOf(other.rows) == audit && SameHashes(db.rows, other.rows)
         case Collision(x, y) => x != y && sys.prims.hmac(key, x) == sys.prims.hmac(key, y)
         case ZeroPreimage(x) => sys.prims.hmac(key, x) == ZERO_HASH
  {
    hide SessionLog, NulFree, Short, Compare, WrittenDb, Verified;
    var audit := SessionLog(sys, sessions);
    var db := WrittenDb(sys.prims.hmac, key, true, audit);
    SessionsAreLogged(sys, sessions);
    NulFreeLogVerifies(sys.prims.hmac, key, audit);
    assert AllShort(db.rows) by {
      forall i | 0 <= i < |db.rows|
        ensures Short(EventOf(db.rows[i]))
      {
        assert EventsOf(db.rows)[i] == audit[i];
      }
    }
    TamperEvidence(sys.prims.hmac, key, db, other);
  }

  // ---- independence of readers ----

  function Restrict(sys: System, inputs: seq<Input>, r: U32): seq<Input> {
    if inputs == [] then []
    else
      var last := |inputs| - 1;
      Restrict(sys, inputs[..last], r) + if ReaderOf(sys, inputs[last]) == r then [inputs[last]] else []
  }

  /** The outcomes of the inputs that concern `r`. */
  function OutcomesFor(sys: System, inputs: seq<Input>, r: U32): seq<Outcome> {
    if inputs == [] then []
    else
      var last := |inputs| - 1;
      OutcomesFor(sys, inputs[..last], r)
      + if ReaderOf(sys, inputs[last]) == r then [OutcomeAt(sys, inputs, last)] else []
  }

  predicate AgreeOn(st: EngineState, st': EngineState, r: U32) {
    HistoryOf(st.windows, r) == HistoryOf(st'.windows, r) && StateOf(st.readers, r) == StateOf(st'.readers, r)
  }

  lemma StepIsLocal(sys: System, st: EngineState, st': EngineState, input: Input, r: U32)
    requires AgreeOn(st, st', r) && ReaderOf(sys, input) == r
    ensures Step(sys, st, input).1 == Step(sys, st', input).1
    ensures AgreeOn(Step(sys, st, input).0, Step(sys, st', input).0, r)
  {
    hide HandleFrame, Judge;
    match input
    case Arrived(env, bytes) =>
      var fr := HandleFrame(sys.prims, sys.config, env.store, env.decryptClock, st.windows, bytes).0;
      HandlerFootprint(sys.prims, sys.config, env.store, env.decryptClock, st.windows, bytes);
      HandlerFootprint(sys.prims, sys.config, env.store, env.decryptClock, st'.windows, bytes);
      HandlerIsLocal(sys.prims, sys.config, env.store, env.decryptClock, st.windows, st'.windows, bytes);
      JudgeIsLocal(sys, env, st.readers, st'.readers, fr);
      FrameOutcome(sys, st, env, bytes);
      FrameOutcome(sys, st', env, bytes);
    case Unquarantine(_) =>
  }

  /** A reader's outcomes in an interleaved run are those of the run restricted to its own inputs. */
  lemma {:induction false} ReadersAreIndependent(sys: System, inputs: seq<Input>, r: U32)
    ensures
      var own := Restrict(sys, inputs, r);
      && OutcomesFor(sys, inputs, r) == OutcomesFor(sys, own, r)
      && AgreeOn(Run(sys, inputs), Run(sys, own), r)
  {
    hide Step, ReaderOf;
    if inputs != [] {
      var last := |inputs| - 1;
      var st, input := Run(sys, inputs[..last]), inputs[last];
      ReadersAreIndependent(sys, inputs[..last], r);
      if ReaderOf(sys, input) == r {
        var before := Restrict(sys, inputs[..last], r);
        var own := Restrict(sys, inputs, r);
        assert own[..|own| - 1] == before && own[|own| - 1] == input;
        StepIsLocal(sys, st, Run(sys, before), input, r);
      } else {
        StepElsewhere(sys, st, input, r);
        assert Restrict(sys, inputs, r) == Restrict(sys, inputs[..last], r);
      }
    }
  }
}
