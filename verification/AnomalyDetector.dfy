/** Per-reader anomaly detection and quarantine (access_core/src/protocol_anomaly_detector.cpp). */
module AnomalyDetector {
  import opened Options
  import opened Words

  datatype AnomalyType = SeqReuse | SeqRollback | NonceMismatch | TagFailStreak

  datatype DetectorConfig = DetectorConfig(enabled: bool, rollbackThreshold: U64, tagFailStreakLimit: U32)

  datatype QuarantineInfo = QuarantineInfo(tsUnixMs: U64, reason: AnomalyType)

  datatype ReaderState = ReaderState(maxSeenSeq: U64, consecutiveTagFails: U32, quarantine: Option<QuarantineInfo>)

  type Readers = map<U32, ReaderState>

  const UNSEEN := ReaderState(0, 0, None)

  function StateOf(readers: Readers, readerId: U32): ReaderState {
    if readerId in readers then readers[readerId] else UNSEEN
  }

  predicate IsQuarantined(readers: Readers, readerId: U32) {
    StateOf(readers, readerId).quarantine.Some?
  }

  function Quarantine(s: ReaderState, reason: AnomalyType, ts: U64): ReaderState {
    s.(quarantine := Some(QuarantineInfo(ts, reason)))
  }

  function SumU64(a: U64, b: U64): U64 {
    (a + b) % TWO64
  }

  /** The rollback test, in 64-bit arithmetic. */
  predicate RollsBack(config: DetectorConfig, s: ReaderState, seqNo: U64) {
    s.maxSeenSeq > 0 && SumU64(seqNo, config.rollbackThreshold) < s.maxSeenSeq
  }

  function Observed(s: ReaderState, seqNo: U64): ReaderState {
    if seqNo > s.maxSeenSeq then s.(maxSeenSeq := seqNo) else s
  }

  function AfterSeq(config: DetectorConfig, s: ReaderState, seqNo: U64, ts: U64): ReaderState {
    if RollsBack(config, s, seqNo) then Quarantine(s, SeqRollback, ts) else Observed(s, seqNo)
  }

  function OneMoreFailure(s: ReaderState): ReaderState {
    s.(consecutiveTagFails := (s.consecutiveTagFails + 1) % TWO32)
  }

  predicate StreakReached(config: DetectorConfig, s: ReaderState) {
    OneMoreFailure(s).consecutiveTagFails >= config.tagFailStreakLimit
  }

  function AfterTagFailure(config: DetectorConfig, s: ReaderState, ts: U64): ReaderState {
    if StreakReached(config, s) then Quarantine(OneMoreFailure(s), TagFailStreak, ts) else OneMoreFailure(s)
  }

  function AfterSuccess(s: ReaderState, seqNo: U64): ReaderState {
    Observed(s.(consecutiveTagFails := 0), seqNo)
  }

  function AfterUnquarantine(readers: Readers, readerId: U32): Readers {
    if IsQuarantined(readers, readerId)
    then readers[readerId := StateOf(readers, readerId).(quarantine := None, consecutiveTagFails := 0)]
    else readers
  }

  /** Silence bounds the drop below the maximum, whether or not the sum wraps. */
  lemma SilenceBoundsTheDrop(config: DetectorConfig, s: ReaderState, seqNo: U64)
    requires !RollsBack(config, s, seqNo)
    ensures s.maxSeenSeq <= seqNo + config.rollbackThreshold
    ensures seqNo <= Observed(s, seqNo).maxSeenSeq <= seqNo + config.rollbackThreshold
  {
  }

  /** What the test lets through: within `t` below `top`, or, where the sum wraps, at least `2^64 - t` above it. */
  predicate Tolerated(t: U64, top: U64, x: U64) {
    x == 0 || top <= x + t < TWO64 || top + TWO64 <= x + t
  }

  lemma ToleratedExactly(config: DetectorConfig, s: ReaderState, seqNo: U64)
    requires seqNo > 0
    ensures Tolerated(config.rollbackThreshold, s.maxSeenSeq, seqNo) <==> !RollsBack(config, s, seqNo)
  {
  }

  /**
    The test is the documented `seq < maxSeen - threshold` over the integers
    exactly for the numbers whose sum does not wrap to a value below the maximum.
   */
  lemma RollbackTestExactly(config: DetectorConfig, s: ReaderState, seqNo: U64)
    ensures
      var sum := seqNo + config.rollbackThreshold;
      (RollsBack(config, s, seqNo) <==> sum < s.maxSeenSeq) <==> !(TWO64 <= sum < TWO64 + s.maxSeenSeq)
  {
  }

  /** Near the top of the range the wrapped sum flags a number that is above the maximum. */
  lemma WrapFlagsAHigherNumber()
    ensures
      var s := UNSEEN.(maxSeenSeq := TWO64 - 50);
      RollsBack(DetectorConfig(true, 100, 5), s, TWO64 - 40) && TWO64 - 40 > s.maxSeenSeq
  {
  }

  class ProtocolAnomalyDetector {
    const config: DetectorConfig
    var readers: Readers

    constructor (config: DetectorConfig)
      ensures this.config == config && readers == map[]
    {
      this.config := config;
      readers := map[];
    }

    predicate InQuarantine(readerId: U32)
      reads this
    {
      readerId in readers && readers[readerId].quarantine.Some?
    }

    /** Finds or creates the entry, as indexing the hash map does. */
    method GetState(readerId: U32) returns (s: ReaderState)
      modifies this`readers
      ensures s == StateOf(old(readers), readerId)
      ensures readers == old(readers)[readerId := s]
    {
      if readerId !in readers {
        readers := readers[readerId := UNSEEN];
      }
      s := readers[readerId];
    }

    method DoQuarantine(readerId: U32, reason: AnomalyType, ts: U64)
      requires readerId in readers
      modifies this`readers
      ensures readers == old(readers)[readerId := Quarantine(old(readers)[readerId], reason, ts)]
    {
      readers := readers[readerId := readers[readerId].(quarantine := Some(QuarantineInfo(ts, reason)))];
    }

    method ReportReplay(readerId: U32, ts: U64) returns (anomaly: AnomalyType)
      modifies this`readers
      ensures anomaly == SeqReuse
      ensures readers == old(readers)[readerId := Quarantine(StateOf(old(readers), readerId), SeqReuse, ts)]
    {
      var _ := GetState(readerId);
      DoQuarantine(readerId, SeqReuse, ts);
      return SeqReuse;
    }

    method ReportSeq(readerId: U32, seqNo: U64, ts: U64) returns (anomaly: Option<AnomalyType>)
      modifies this`readers
      ensures anomaly == if RollsBack(config, StateOf(old(readers), readerId), seqNo) then Some(SeqRollback) else None
      ensures readers == old(readers)[readerId := AfterSeq(config, StateOf(old(readers), readerId), seqNo, ts)]
    {
      var state := GetState(readerId);
      if state.maxSeenSeq > 0 && (seqNo + config.rollbackThreshold) % TWO64 < state.maxSeenSeq {
        DoQuarantine(readerId, SeqRollback, ts);
        return Some(SeqRollback);
      }
      if seqNo > state.maxSeenSeq {
        readers := readers[readerId := state.(maxSeenSeq := seqNo)];
      }
      return None;
    }

    method ReportNonceMismatch(readerId: U32, ts: U64) returns (anomaly: AnomalyType)
      modifies this`readers
      ensures anomaly == NonceMismatch
      ensures readers == old(readers)[readerId := Quarantine(StateOf(old(readers), readerId), NonceMismatch, ts)]
    {
      var _ := GetState(readerId);
      DoQuarantine(readerId, NonceMismatch, ts);
      return NonceMismatch;
    }

    method ReportTagFailure(readerId: U32, ts: U64) returns (anomaly: Option<AnomalyType>)
      modifies this`readers
      ensures anomaly == if StreakReached(config, StateOf(old(readers), readerId)) then Some(TagFailStreak) else None
      ensures readers == old(readers)[readerId := AfterTagFailure(config, StateOf(old(readers), readerId), ts)]
    {
      var state := GetState(readerId);
      state := state.(consecutiveTagFails := (state.consecutiveTagFails + 1) % TWO32);
      readers := readers[readerId := state];
      if state.consecutiveTagFails >= config.tagFailStreakLimit {
        DoQuarantine(readerId, TagFailStreak, ts);
        return Some(TagFailStreak);
      }
      return None;
    }

    method ReportSuccess(readerId: U32, seqNo: U64)
      modifies this`readers
      ensures readers == old(readers)[readerId := AfterSuccess(StateOf(old(readers), readerId), seqNo)]
    {
      var state := GetState(readerId);
      state := state.(consecutiveTagFails := 0);
      if seqNo > state.maxSeenSeq {
        state := state.(maxSeenSeq := seqNo);
      }
      readers := readers[readerId := state];
    }

    method Unquarantine(readerId: U32) returns (was: bool)
      modifies this`readers
      ensures was <==> IsQuarantined(old(readers), readerId)
      ensures readers == AfterUnquarantine(old(readers), readerId)
    {
      if readerId !in readers || readers[readerId].quarantine.None? {
        return false;
      }
      readers := readers[readerId := readers[readerId].(quarantine := None)];
      readers := readers[readerId := readers[readerId].(consecutiveTagFails := 0)];
      return true;
    }
  }
}
