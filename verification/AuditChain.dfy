/**
  The hash-chained audit log: the encoding under the hash, the writer and the
  independent verifier (access_storage/src/serialization.cpp,
  sqlite_audit_log.cpp, audit_verify.cpp).
 */
module AuditEncoding {
  import opened Options
  import opened Words
  import opened Domain

  /** The length prefix is the size cut to 32 bits. */
  function Prefixed(s: Bytes): Bytes {
    Le32(|s| % TWO32) + s
  }

  method PutBytesWithLen(s: Bytes, out: Bytes) returns (r: Bytes)
    ensures r == out + Prefixed(s)
  {
    r := PutLe32(|s| % TWO32, out);
    r := r + s;
  }

  function NumberBytes(e: AuditEvent): (b: Bytes)
    ensures |b| == 25
  {
    Le64(e.tsUnixMs) + Le32(e.readerId) + Le32(e.doorId) + Le64(e.seqNo) + [if e.allow then 1 else 0]
  }

  function EventBytes(e: AuditEvent): Bytes {
    NumberBytes(e) + Prefixed(e.reason) + Prefixed(e.cardId) + Prefixed(e.action)
  }

  function EntryHash(hmac: Hmac, key: Key, prev: Bytes, e: AuditEvent): Hash {
    hmac(key, prev + EventBytes(e))
  }

  predicate Short(e: AuditEvent) {
    |e.reason| < TWO32 && |e.cardId| < TWO32 && |e.action| < TWO32
  }

  // ---- the encoding, read at its offsets ----

  /** A length and that many bytes, from place `at` on, and the place after them. */
  function ReadText(b: Bytes, at: nat): Option<(Text, nat)> {
    if |b| < at + 4 then None
    else
      var n := Word32(b[at..at + 4]);
      if |b| < at + 4 + n then None else Some((b[at + 4..at + 4 + n], at + 4 + n))
  }

  /** Time, reader, door and number at 0, 8, 12 and 16; the decision at 24, 1 for allow; then three texts to the end. */
  function ReadEvent(b: Bytes): Option<AuditEvent> {
    if |b| < 25 || b[24] > 1 then None
    else
      match ReadText(b, 25)
      case None => None
      case Some((reason, i)) =>
        match ReadText(b, i)
        case None => None
        case Some((cardId, j)) =>
          match ReadText(b, j)
          case None => None
          case Some((action, k)) =>
            if k != |b| then None
            else Some(AuditEvent(Word64(b[0..8]), Word32(b[8..12]), Word32(b[12..16]), Word64(b[16..24]), b[24] == 1,
                                 reason, cardId, action))
  }

  /** The fixed part reads back for every event, however long its texts are. */
  lemma NumbersInPlace(e: AuditEvent)
    ensures
      var b := EventBytes(e);
      && |b| >= 25 && Word64(b[0..8]) == e.tsUnixMs && Word32(b[8..12]) == e.readerId
      && Word32(b[12..16]) == e.doorId && Word64(b[16..24]) == e.seqNo
      && b[24] == (if e.allow then 1 else 0)
      && b[25..] == Prefixed(e.reason) + (Prefixed(e.cardId) + Prefixed(e.action))
  {
    hide Prefixed, NumberBytes, Word32, Word64, Le32, Le64;
    var b, x, rest := EventBytes(e), NumberBytes(e), Prefixed(e.reason) + (Prefixed(e.cardId) + Prefixed(e.action));
    assert b == x + rest;
    hide EventBytes;
    SliceInFront(x, rest, 0, 8); SliceInFront(x, rest, 8, 12);
    SliceInFront(x, rest, 12, 16); SliceInFront(x, rest, 16, 24);
    assert (x + rest)[25..] == rest && (x + rest)[24] == x[24];
    NumberParts(e);
    Word64OfLe64(e.tsUnixMs); Word32OfLe32(e.readerId); Word32OfLe32(e.doorId); Word64OfLe64(e.seqNo);
  }

  lemma NumberParts(e: AuditEvent)
    ensures var x := NumberBytes(e);
            && x[0..8] == Le64(e.tsUnixMs) && x[8..12] == Le32(e.readerId) && x[12..16] == Le32(e.doorId)
            && x[16..24] == Le64(e.seqNo) && x[24] == (if e.allow then 1 else 0)
  {
  }

  /** A prefixed text is read where it stands, whatever comes before and after. */
  lemma ReadPrefixed(b: Bytes, at: nat, s: Bytes, rest: Bytes)
    requires |s| < TWO32 && at <= |b| && b[at..] == Prefixed(s) + rest
    ensures ReadText(b, at) == Some((s, at + 4 + |s|)) && at + 4 + |s| <= |b| && b[at + 4 + |s|..] == rest
  {
    var tail := b[at..];
    PrefixedParts(s, rest);
    Word32OfLe32(|s|);
    assert b[at..at + 4] == tail[..4] && b[at + 4..at + 4 + |s|] == tail[4..4 + |s|];
    assert b[at + 4 + |s|..] == tail[4 + |s|..];
  }

  lemma PrefixedParts(s: Bytes, rest: Bytes)
    requires |s| < TWO32
    ensures var x := Prefixed(s) + rest;
            |x| == 4 + |s| + |rest| && x[..4] == Le32(|s|) && x[4..4 + |s|] == s && x[4 + |s|..] == rest
  {
  }

  lemma EncodedReads(e: AuditEvent)
    requires Short(e)
    ensures ReadEvent(EventBytes(e)) == Some(e)
  {
    hide Prefixed, EventBytes, ReadText, Word32, Word64;
    var b := EventBytes(e);
    NumbersInPlace(e);
    ReadPrefixed(b, 25, e.reason, Prefixed(e.cardId) + Prefixed(e.action));
    ReadPrefixed(b, 29 + |e.reason|, e.cardId, Prefixed(e.action));
    assert Prefixed(e.action) + [] == Prefixed(e.action);
    ReadPrefixed(b, 33 + |e.reason| + |e.cardId|, e.action, []);
  }

  /** What a text reads as, it is the prefixed form of. */
  lemma ReadTextPrints(b: Bytes, at: nat)
    requires at <= |b| && ReadText(b, at).Some?
    ensures var (s, i) := ReadText(b, at).value;
            |s| < TWO32 && at + 4 <= i <= |b| && Prefixed(s) == b[at..i]
  {
    hide Word32, Le32;
    var (s, i) := ReadText(b, at).value;
    SliceJoin(b, at, at + 4, i);
    assert |s| % TWO32 == |s| && Le32(|s|) == b[at..at + 4];
  }

  lemma SliceJoin(b: Bytes, i: nat, j: nat, k: nat)
    requires i <= j <= k <= |b|
    ensures b[i..j] + b[j..k] == b[i..k]
  {
  }

  lemma SliceInFront(x: Bytes, rest: Bytes, i: nat, j: nat)
    requires i <= j <= |x|
    ensures (x + rest)[i..j] == x[i..j]
  {
  }

  lemma ReadEventPrints(b: Bytes)
    requires ReadEvent(b).Some?
    ensures Short(ReadEvent(b).value) && EventBytes(ReadEvent(b).value) == b
  {
    hide Prefixed, ReadText, Word32, Word64, NumberBytes;
    var e, i := ReadEvent(b).value, ReadText(b, 25).value.1;
    ReadTextPrints(b, 25);
    var j := ReadText(b, i).value.1;
    ReadTextPrints(b, i);
    ReadTextPrints(b, j);
    NumbersPrint(b, e);
    assert b[0..25] + b[25..i] + b[i..j] + b[j..] == b;
  }

  lemma NumbersPrint(b: Bytes, e: AuditEvent)
    requires |b| >= 25 && b[24] <= 1
    requires e.tsUnixMs == Word64(b[0..8]) && e.readerId == Word32(b[8..12]) && e.doorId == Word32(b[12..16])
    requires e.seqNo == Word64(b[16..24]) && (e.allow <==> b[24] == 1)
    ensures NumberBytes(e) == b[0..25]
  {
    hide Word32, Word64;
    assert b[0..25] == b[0..8] + b[8..12] + b[12..16] + b[16..24] + [b[24]];
  }

  /** The encoding of an event is the one byte string that reads as it. */
  lemma ReadEventExactly(b: Bytes, e: AuditEvent)
    ensures ReadEvent(b) == Some(e) <==> Short(e) && b == EventBytes(e)
  {
    hide EventBytes, ReadEvent;
    if ReadEvent(b).Some? {
      ReadEventPrints(b);
    }
    if Short(e) {
      EncodedReads(e);
    }
  }

  /** The canonical bytes determine the event. */
  lemma EventBytesInjective(e: AuditEvent, f: AuditEvent)
    requires Short(e) && Short(f) && EventBytes(e) == EventBytes(f)
    ensures e == f
  {
    EncodedReads(e);
    EncodedReads(f);
  }

  /** `h` is the HMAC of the previous hash followed by bytes that read as the event. */
  ghost predicate HashedFrom(hmac: Hmac, key: Key, prev: Bytes, e: AuditEvent, h: Bytes) {
    exists b :: ReadEvent(b) == Some(e) && h == hmac(key, prev + b)
  }

  lemma EntryHashReads(hmac: Hmac, key: Key, prev: Bytes, e: AuditEvent, h: Bytes)
    requires Short(e)
    ensures h == EntryHash(hmac, key, prev, e) <==> HashedFrom(hmac, key, prev, e, h)
  {
    hide ReadEvent, EventBytes;
    ReadEventExactly(EventBytes(e), e);
    if HashedFrom(hmac, key, prev, e, h) {
      var b :| ReadEvent(b) == Some(e) && h == hmac(key, prev + b);
      ReadEventExactly(b, e);
    }
  }
}

module AuditChain {
  import opened Options
  import opened Words
  import opened Domain
  import opened AuditEncoding

  // ---- storage ----

  type I64 = x: int | -0x8000_0000_0000_0000 <= x < 0x8000_0000_0000_0000

  /** A row of `audit_log`: signed integer columns, NUL-terminated text, blobs of any length. */
  datatype Row = Row(
    id: int,
    tsUnixMs: I64,
    readerId: I64,
    doorId: I64,
    seqNo: I64,
    allow: I64,
    reason: Text,
    cardHmac: Option<Text>,
    action: Option<Text>,
    prevHash: Bytes,
    entryHash: Bytes)

  /** The two tables; `anchor` is the blob of the single anchor row, if that row exists. */
  datatype AuditDb = AuditDb(rows: seq<Row>, anchor: Option<Bytes>)

  function ToI64(x: U64): I64 {
    if x < 0x8000_0000_0000_0000 then x else x - TWO64
  }

  function ToI32(x: U32): I64 {
    if x < 0x8000_0000 then x else x - TWO32
  }

  /** Text passed as a C string ends at its first NUL. */
  function CString(s: Text): (t: Text)
    ensures |t| <= |s|
    ensures 0 !in t
    ensures 0 !in s ==> t == s
    ensures t == s ==> 0 !in s
  {
    if s == [] || s[0] == 0 then [] else [s[0]] + CString(s[1..])
  }

  function RowOf(id: int, e: AuditEvent, prev: Bytes, entry: Bytes): Row {
    Row(id, ToI64(e.tsUnixMs), ToI32(e.readerId), ToI32(e.doorId), ToI64(e.seqNo), if e.allow then 1 else 0,
        CString(e.reason),
        if e.cardId == [] then None else Some(CString(e.cardId)),
        if e.action == [] then None else Some(CString(e.action)),
        prev, entry)
  }

  function Coalesce(t: Option<Text>): Text {
    if t.Some? then t.value else []
  }

  /** What the verifier reads from a row: integers cut to their width, NULL text as empty. */
  function EventOf(row: Row): AuditEvent {
    AuditEvent(row.tsUnixMs % TWO64, row.readerId % TWO32, row.doorId % TWO32, row.seqNo % TWO64,
               row.allow % TWO32 != 0,
               CString(row.reason), CString(Coalesce(row.cardHmac)), CString(Coalesce(row.action)))
  }

  function Truncated(e: AuditEvent): AuditEvent {
    e.(reason := CString(e.reason), cardId := CString(e.cardId), action := CString(e.action))
  }

  predicate NulFree(e: AuditEvent) {
    0 !in e.reason && 0 !in e.cardId && 0 !in e.action
  }

  /** A C string is all of the text before its first NUL. */
  lemma {:induction false} CStringCut(s: Text)
    ensures var t := CString(s);
            0 !in t && t == s[..|t|] && (|t| < |s| ==> s[|t|] == 0)
  {
    if s != [] && s[0] != 0 {
      CStringCut(s[1..]);
      assert s == [s[0]] + s[1..];
    }
  }

  /** The columns of a stored event: its numbers modulo their width, 1 for allow and 0 for deny, NULL for an empty text. */
  lemma StoredColumns(id: int, e: AuditEvent, prev: Bytes, entry: Bytes)
    ensures
      var row := RowOf(id, e, prev, entry);
      && row.id == id && row.prevHash == prev && row.entryHash == entry
      && (row.tsUnixMs - e.tsUnixMs) % TWO64 == 0 && (row.seqNo - e.seqNo) % TWO64 == 0
      && -0x8000_0000 <= row.readerId < 0x8000_0000 && (row.readerId - e.readerId) % TWO32 == 0
      && -0x8000_0000 <= row.doorId < 0x8000_0000 && (row.doorId - e.doorId) % TWO32 == 0
      && row.allow == (if e.allow then 1 else 0) && row.reason == CString(e.reason)
      && (row.cardHmac == None <==> e.cardId == []) && (row.cardHmac.Some? ==> row.cardHmac.value == CString(e.cardId))
      && (row.action == None <==> e.action == []) && (row.action.Some? ==> row.action.value == CString(e.action))
  {
  }

  /** How any row is read: numbers cut to their width, and as allow whatever is not zero in its low 32 bits. */
  lemma ColumnsRead(row: Row)
    ensures
      var e := EventOf(row);
      && (e.tsUnixMs - row.tsUnixMs) % TWO64 == 0 && (e.seqNo - row.seqNo) % TWO64 == 0
      && (e.readerId - row.readerId) % TWO32 == 0 && (e.doorId - row.doorId) % TWO32 == 0
      && (e.allow <==> row.allow % TWO32 > 0) && e.reason == CString(row.reason)
      && e.cardId == (match row.cardHmac case None => [] case Some(t) => CString(t))
      && e.action == (match row.action case None => [] case Some(t) => CString(t))
  {
  }

  /** Storing and reading back changes nothing but what follows a NUL. */
  lemma ReadBack(id: int, e: AuditEvent, prev: Bytes, entry: Bytes)
    ensures EventOf(RowOf(id, e, prev, entry)) == Truncated(e)
    ensures Truncated(e) == e <==> NulFree(e)
  {
  }

  // ---- the verifier ----

  function LastHash(rows: seq<Row>): Bytes {
    if rows == [] then ZERO_HASH else rows[|rows| - 1].entryHash
  }

  /** The row has two whole hashes, links to `prev` and hashes to its entry hash. */
  predicate Links(hmac: Hmac, key: Key, row: Row, prev: Bytes) {
    && |row.prevHash| == 32 && |row.entryHash| == 32
    && row.prevHash == prev
    && row.entryHash == EntryHash(hmac, key, prev, EventOf(row))
  }

  predicate RowOk(hmac: Hmac, key: Key, rows: seq<Row>, i: nat)
    requires i < |rows|
  {
    Links(hmac, key, rows[i], LastHash(rows[..i]))
  }

  predicate ChainOk(hmac: Hmac, key: Key, rows: seq<Row>) {
    forall i :: 0 <= i < |rows| ==> RowOk(hmac, key, rows, i)
  }

  predicate Verified(hmac: Hmac, key: Key, db: AuditDb) {
    ChainOk(hmac, key, db.rows) && db.anchor == Some(LastHash(db.rows))
  }

  datatype VerifyError =
    | NoError
    | BadBlobLength
    | PrevHashMismatch
    | EntryHashMismatch
    | AnchorMissing
    | AnchorBadBlob
    | AnchorMismatch
    | StepFailed
    | DbIsNull

  datatype VerifyResult = VerifyResult(ok: bool, badId: int, error: VerifyError)

  /** What a row that does not link to `prev` is reported for: each kind with its own cause. */
  predicate Blames(hmac: Hmac, key: Key, row: Row, prev: Bytes, error: VerifyError) {
    var whole := |row.prevHash| == 32 && |row.entryHash| == 32;
    match error
    case BadBlobLength => !whole
    case PrevHashMismatch => whole && row.prevHash != prev
    case EntryHashMismatch => whole && row.prevHash == prev && row.entryHash != hmac(key, prev + EventBytes(EventOf(row)))
    case _ => false
  }

  /** Where reading fails, if it does: preparing a query throws, a row step is number `n` (from 0), or the anchor's is. */
  datatype ReadFault = NoReadFault | QueryThrows | StepFails(n: nat) | AnchorQueryThrows | AnchorStepFails

  /** The rows that are read before a step fails, and whether one does: after the last row comes one more step. */
  function RowsRead(rows: seq<Row>, fault: ReadFault): (read: seq<Row>)
    ensures read <= rows
  {
    if fault.StepFails? && fault.n <= |rows| then rows[..fault.n] else rows
  }

  predicate CutShort(rows: seq<Row>, fault: ReadFault) {
    fault.StepFails? && fault.n <= |rows|
  }

  /** What the anchor comes to once all rows link; nothing if its query throws. */
  function AnchorResult(db: AuditDb, fault: ReadFault): Option<VerifyResult> {
    if fault == AnchorQueryThrows then None
    else if fault == AnchorStepFails then Some(VerifyResult(false, -1, AnchorMissing))
    else Some(AnchorVerdict(db))
  }

  function AnchorVerdict(db: AuditDb): VerifyResult {
    match db.anchor
    case None => VerifyResult(false, -1, AnchorMissing)
    case Some(a) =>
      if |a| != 32 then VerifyResult(false, -1, AnchorBadBlob)
      else if a != LastHash(db.rows) then VerifyResult(false, if db.rows == [] then -1 else -2, AnchorMismatch)
      else VerifyResult(true, -1, NoError)
  }

  /**
    `res` reports the first row read that does not link; if there is none, a
    step that failed; and speaks of the anchor only if all rows link.
   */
  ghost predicate Diagnoses(hmac: Hmac, key: Key, db: AuditDb, fault: ReadFault, res: Option<VerifyResult>) {
    var rows := RowsRead(db.rows, fault);
    || (ChainOk(hmac, key, rows)
        && res == if CutShort(db.rows, fault) then Some(VerifyResult(false, -1, StepFailed)) else AnchorResult(db, fault))
    || exists i :: && 0 <= i < |rows| && !RowOk(hmac, key, rows, i)
                   && (forall j :: 0 <= j < i ==> RowOk(hmac, key, rows, j))
                   && exists error :: && Blames(hmac, key, rows[i], LastHash(rows[..i]), error)
                                      && res == Some(VerifyResult(false, rows[i].id, error))
  }

  /** The verifier's own encoder, over the fields of an extracted row. */
  method ComputeEntryHash(hmac: Hmac, key: Key, prev: Bytes, ts: U64, readerId: U32, doorId: U32, seqNo: U64,
                          allow: bool, reason: Text, cardHmac: Text, action: Text)
    returns (h: Hash)
    ensures h == EntryHash(hmac, key, prev, AuditEvent(ts, readerId, doorId, seqNo, allow, reason, cardHmac, action))
  {
    var fields := PutLe64(ts, []);
    assert fields == Le64(ts);
    fields := PutLe32(readerId, fields);
    fields := PutLe32(doorId, fields);
    fields := PutLe64(seqNo, fields);
    fields := fields + [if allow then 1 else 0];
    fields := PutBytesWithLen(reason, fields);
    fields := PutBytesWithLen(cardHmac, fields);
    fields := PutBytesWithLen(action, fields);
    h := hmac(key, prev + fields);
  }

  method VerifyRow(hmac: Hmac, key: Key, row: Row, expectedPrev: Bytes) returns (res: VerifyResult)
    requires |row.prevHash| == 32 && |row.entryHash| == 32
    ensures res.ok <==> Links(hmac, key, row, expectedPrev)
    ensures res.ok ==> res == VerifyResult(true, -1, NoError)
    ensures !res.ok ==> res.badId == row.id && Blames(hmac, key, row, expectedPrev, res.error)
  {
    if row.prevHash != expectedPrev {
      return VerifyResult(false, row.id, PrevHashMismatch);
    }
    var e := EventOf(row);
    var expectedEntry := ComputeEntryHash(hmac, key, expectedPrev, e.tsUnixMs, e.readerId, e.doorId, e.seqNo,
                                          e.allow, e.reason, e.cardId, e.action);
    if row.entryHash != expectedEntry {
      return VerifyResult(false, row.id, EntryHashMismatch);
    }
    return VerifyResult(true, -1, NoError);
  }

  /** `None` is an exception on its way out. */
  method VerifyAnchor(db: AuditDb, fault: ReadFault, lastEntry: Bytes, anyRows: bool) returns (res: Option<VerifyResult>)
    requires |lastEntry| == 32 && lastEntry == LastHash(db.rows) && (anyRows <==> db.rows != [])
    ensures res == AnchorResult(db, fault)
  {
    if fault == AnchorQueryThrows {
      return None;
    }
    if fault == AnchorStepFails || db.anchor == None {
      return Some(VerifyResult(false, -1, AnchorMissing));
    }
    if |db.anchor.value| != 32 {
      return Some(VerifyResult(false, -1, AnchorBadBlob));
    }
    if db.anchor.value != lastEntry {
      return Some(VerifyResult(false, if anyRows then -2 else -1, AnchorMismatch));
    }
    return Some(VerifyResult(true, -1, NoError));
  }

  lemma BadBlobBreaksLink(hmac: Hmac, key: Key, row: Row, prev: Bytes)
    requires |row.prevHash| != 32 || |row.entryHash| != 32
    ensures !Links(hmac, key, row, prev)
  {
  }

  /** Walks the rows in id order; fails at the first bad row or step, then checks the anchor. A handle may be null. */
  method VerifyAuditChain(hmac: Hmac, key: Key, handle: Option<AuditDb>, fault: ReadFault)
    returns (res: Option<VerifyResult>)
    ensures (res.Some? && res.value.ok) ==> handle.Some? && Verified(hmac, key, handle.value)
    ensures fault == NoReadFault && handle.Some? ==> res.Some? && (res.value.ok <==> Verified(hmac, key, handle.value))
    ensures match handle
            case None => res == Some(VerifyResult(false, -1, DbIsNull))
            case Some(db) => if fault == QueryThrows then res == None else Diagnoses(hmac, key, db, fault, res)
    ensures res.Some? && handle.Some? && res.value.error == AnchorMismatch ==>
              handle.value.anchor.Some? && res.value.badId == if |handle.value.rows| > 0 then -2 else -1
  {
    hide Links, RowOk, Diagnoses, AnchorVerdict, Verified, EventBytes, EventOf;
    if handle == None {
      return Some(VerifyResult(false, -1, DbIsNull));
    }
    if fault == QueryThrows {
      return None;
    }
    var db := handle.value;
    ghost var read := RowsRead(db.rows, fault);
    var expectedPrev: Bytes, lastEntry: Bytes, anyRows := ZERO_HASH, ZERO_HASH, false;
    var i := 0;
    while true
      invariant 0 <= i <= |read|
      invariant forall j :: 0 <= j < i ==> RowOk(hmac, key, read, j)
      invariant expectedPrev == lastEntry == LastHash(read[..i]) && |lastEntry| == 32
      invariant anyRows <==> i > 0
      decreases |read| - i
    {
      if fault == StepFails(i) {
        assert read[..i] == read;
        AllRowsLink(hmac, key, db, fault);
        return Some(VerifyResult(false, -1, StepFailed));
      }
      if i == |db.rows| {
        break;
      }
      var row := db.rows[i];
      if |row.prevHash| != 32 || |row.entryHash| != 32 {
        BadBlobBreaksLink(hmac, key, row, expectedPrev);
        FirstBadRow(hmac, key, db, fault, i, BadBlobLength);
        return Some(VerifyResult(false, row.id, BadBlobLength));
      }
      var rowResult := VerifyRow(hmac, key, row, expectedPrev);
      if !rowResult.ok {
        FirstBadRow(hmac, key, db, fault, i, rowResult.error);
        return Some(rowResult);
      }
      LinkedRowIsOk(hmac, key, read, i);
      anyRows := true;
      lastEntry := row.entryHash;
      expectedPrev := row.entryHash;
      i := i + 1;
      assert LastHash(read[..i]) == lastEntry;
    }
    assert read[..i] == read == db.rows;
    MismatchIsTruncation(db);
    AllRowsLink(hmac, key, db, fault);
    res := VerifyAnchor(db, fault, lastEntry, anyRows);
  }

  /** The stored hash before row `i`; zeros at the start. */
  function PrevOf(rows: seq<Row>, i: nat): Bytes
    requires i < |rows|
  {
    if i == 0 then Zeros(32) else rows[i - 1].entryHash
  }

  predicate Torn(rows: seq<Row>, i: nat) {
    i < |rows| && (|rows[i].prevHash| != 32 || |rows[i].entryHash| != 32)
  }

  predicate Unlinked(rows: seq<Row>, i: nat) {
    i < |rows| && rows[i].prevHash != PrevOf(rows, i)
  }

  predicate Altered(hmac: Hmac, key: Key, rows: seq<Row>, i: nat) {
    && i < |rows| && rows[i].prevHash == PrevOf(rows, i)
    && rows[i].entryHash != hmac(key, rows[i].prevHash + EventBytes(EventOf(rows[i])))
  }

  /** Each kind of row error has its own cause in the table. */
  lemma BlameMeans(hmac: Hmac, key: Key, rows: seq<Row>, i: nat, error: VerifyError)
    requires i < |rows| && Blames(hmac, key, rows[i], LastHash(rows[..i]), error)
    ensures error == BadBlobLength <==> Torn(rows, i)
    ensures error == PrevHashMismatch <==> !Torn(rows, i) && Unlinked(rows, i)
    ensures error == EntryHashMismatch <==> !Torn(rows, i) && Altered(hmac, key, rows, i)
  {
    hide EventBytes, EventOf;
    assert LastHash(rows[..i]) == PrevOf(rows, i);
  }

  lemma MismatchIsTruncation(db: AuditDb)
    ensures AnchorVerdict(db).error == AnchorMismatch ==>
              db.anchor.Some? && AnchorVerdict(db).badId == if |db.rows| > 0 then -2 else -1
  {
  }

  lemma LinkedRowIsOk(hmac: Hmac, key: Key, rows: seq<Row>, i: nat)
    requires i < |rows| && Links(hmac, key, rows[i], LastHash(rows[..i]))
    ensures RowOk(hmac, key, rows, i)
  {
  }

  /** What the first row that does not link comes to, in words of the contract. */
  lemma FirstBadRow(hmac: Hmac, key: Key, db: AuditDb, fault: ReadFault, i: nat, error: VerifyError)
    requires var read := RowsRead(db.rows, fault);
             && i < |read| && !Links(hmac, key, read[i], LastHash(read[..i]))
             && Blames(hmac, key, read[i], LastHash(read[..i]), error)
             && forall j :: 0 <= j < i ==> RowOk(hmac, key, read, j)
    ensures Diagnoses(hmac, key, db, fault, Some(VerifyResult(false, db.rows[i].id, error)))
    ensures !Verified(hmac, key, db)
  {
    hide Links, LastHash, Blames;
    var read := RowsRead(db.rows, fault);
    assert read[..i] == db.rows[..i];
    assert !RowOk(hmac, key, read, i) && !RowOk(hmac, key, db.rows, i);
  }

  lemma AllRowsLink(hmac: Hmac, key: Key, db: AuditDb, fault: ReadFault)
    requires var read := RowsRead(db.rows, fault);
             |LastHash(read)| == 32 && forall j :: 0 <= j < |read| ==> RowOk(hmac, key, read, j)
    ensures Diagnoses(hmac, key, db, fault,
                      if CutShort(db.rows, fault) then Some(VerifyResult(false, -1, StepFailed)) else AnchorResult(db, fault))
    ensures RowsRead(db.rows, fault) == db.rows ==>
              (Verified(hmac, key, db) <==> AnchorVerdict(db) == VerifyResult(true, -1, NoError))
    ensures !AnchorVerdict(db).ok || AnchorVerdict(db) == VerifyResult(true, -1, NoError)
  {
    hide Links, RowOk;
  }

  /** Row `i` names the hash before it (zeros at the start) and carries the HMAC of that and of bytes that read as its event. */
  ghost predicate FollowsOn(hmac: Hmac, key: Key, rows: seq<Row>, i: nat)
    requires i < |rows|
  {
    var prev := PrevOf(rows, i);
    && |rows[i].prevHash| == 32 && |rows[i].entryHash| == 32
    && rows[i].prevHash == prev && HashedFrom(hmac, key, prev, EventOf(rows[i]), rows[i].entryHash)
  }

  /**
    What the verifier accepts, with the hashed bytes read at their offsets:
    every row follows on, and the anchor is the last hash.
   */
  lemma VerifiedExactly(hmac: Hmac, key: Key, db: AuditDb)
    requires AllShort(db.rows)
    ensures Verified(hmac, key, db) <==>
            && (forall i :: 0 <= i < |db.rows| ==> FollowsOn(hmac, key, db.rows, i))
            && db.anchor == Some(if db.rows == [] then Zeros(32) else db.rows[|db.rows| - 1].entryHash)
  {
    hide EventOf, EntryHash, HashedFrom;
    forall i | 0 <= i < |db.rows|
      ensures RowOk(hmac, key, db.rows, i) <==> FollowsOn(hmac, key, db.rows, i)
    {
      EntryHashReads(hmac, key, LastHash(db.rows[..i]), EventOf(db.rows[i]), db.rows[i].entryHash);
      assert i > 0 ==> db.rows[..i][i - 1] == db.rows[i - 1];
    }
  }

  // ---- tamper evidence ----

  /** What two tables under one anchor prove: the same records, or a broken hash. */
  datatype Evidence = SameRecords | Collision(x: Bytes, y: Bytes) | ZeroPreimage(x: Bytes)

  function HashInput(row: Row): Bytes {
    row.prevHash + EventBytes(EventOf(row))
  }

  /** Walks both tables back from their ends to the first difference. */
  function Compare(s: seq<Row>, t: seq<Row>): Evidence {
    if s == [] && t == [] then SameRecords
    else if s == [] then ZeroPreimage(HashInput(t[|t| - 1]))
    else if t == [] then ZeroPreimage(HashInput(s[|s| - 1]))
    else
      var x, y := HashInput(s[|s| - 1]), HashInput(t[|t| - 1]);
      if x != y then Collision(x, y) else Compare(s[..|s| - 1], t[..|t| - 1])
  }

  function EventsOf(rows: seq<Row>): (es: seq<AuditEvent>)
    ensures |es| == |rows|
    ensures forall i :: 0 <= i < |rows| ==> es[i] == EventOf(rows[i])
  {
    seq(|rows|, i requires 0 <= i < |rows| => EventOf(rows[i]))
  }

  predicate AllShort(rows: seq<Row>) {
    forall i :: 0 <= i < |rows| ==> Short(EventOf(rows[i]))
  }

  predicate SameHashes(s: seq<Row>, t: seq<Row>) {
    |s| == |t| && forall i :: 0 <= i < |s| ==> s[i].prevHash == t[i].prevHash && s[i].entryHash == t[i].entryHash
  }

  ghost predicate Holds(hmac: Hmac, key: Key, s: seq<Row>, t: seq<Row>, evidence: Evidence) {
    match evidence
    case SameRecords => EventsOf(s) == EventsOf(t) && SameHashes(s, t)
    case Collision(x, y) => x != y && hmac(key, x) == hmac(key, y)
    case ZeroPreimage(x) => hmac(key, x) == ZERO_HASH
  }

  lemma ChainPrefix(hmac: Hmac, key: Key, rows: seq<Row>)
    requires rows != [] && ChainOk(hmac, key, rows)
    ensures ChainOk(hmac, key, rows[..|rows| - 1])
    ensures RowOk(hmac, key, rows, |rows| - 1)
  {
    var front := rows[..|rows| - 1];
    forall i | 0 <= i < |front|
      ensures RowOk(hmac, key, front, i)
    {
      assert RowOk(hmac, key, rows, i);
      assert front[..i] == rows[..i];
    }
  }

  lemma {:induction false} ChainsUnderOneHash(hmac: Hmac, key: Key, s: seq<Row>, t: seq<Row>)
    requires ChainOk(hmac, key, s) && ChainOk(hmac, key, t) && LastHash(s) == LastHash(t)
    requires AllShort(s) && AllShort(t)
    ensures Holds(hmac, key, s, t, Compare(s, t))
  {
    if s != [] {
      ChainPrefix(hmac, key, s);
    }
    if t != [] {
      ChainPrefix(hmac, key, t);
    }
    if s != [] && t != [] {
      var a, b := s[|s| - 1], t[|t| - 1];
      if HashInput(a) == HashInput(b) {
        assert HashInput(a)[..32] == a.prevHash && HashInput(b)[..32] == b.prevHash;
        assert HashInput(a)[32..] == EventBytes(EventOf(a)) && HashInput(b)[32..] == EventBytes(EventOf(b));
        EventBytesInjective(EventOf(a), EventOf(b));
        ChainsUnderOneHash(hmac, key, s[..|s| - 1], t[..|t| - 1]);
        SameRecordsAppend(s, t);
      }
    }
  }

  lemma SameRecordsAppend(s: seq<Row>, t: seq<Row>)
    requires s != [] && t != [] && EventOf(s[|s| - 1]) == EventOf(t[|t| - 1])
    requires var a, b := s[|s| - 1], t[|t| - 1]; a.prevHash == b.prevHash && a.entryHash == b.entryHash
    ensures EventsOf(s[..|s| - 1]) == EventsOf(t[..|t| - 1]) ==> EventsOf(s) == EventsOf(t)
    ensures SameHashes(s[..|s| - 1], t[..|t| - 1]) ==> SameHashes(s, t)
  {
    hide EventOf;
    var s', t' := EventsOf(s[..|s| - 1]), EventsOf(t[..|t| - 1]);
    assert EventsOf(s) == s' + [EventOf(s[|s| - 1])];
    assert EventsOf(t) == t' + [EventOf(t[|t| - 1])];
  }

  /**
    Tamper evidence: two tables that verify under one key and one anchor hold
    the same records and hashes in the same order, or `Compare` exhibits two inputs with
    one HMAC, or an input whose HMAC is the zero block.
   */
  lemma TamperEvidence(hmac: Hmac, key: Key, d: AuditDb, d': AuditDb)
    requires Verified(hmac, key, d) && Verified(hmac, key, d') && d.anchor == d'.anchor
    requires AllShort(d.rows) && AllShort(d'.rows)
    ensures Holds(hmac, key, d.rows, d'.rows, Compare(d.rows, d'.rows))
  {
    ChainsUnderOneHash(hmac, key, d.rows, d'.rows);
  }

  // ---- the writer ----

  /** The tables after one committed append. */
  function AppendedDb(hmac: Hmac, key: Key, chain: bool, db: AuditDb, e: AuditEvent): AuditDb {
    var prev := if chain then LastHash(db.rows) else ZERO_HASH;
    var entry := if chain then EntryHash(hmac, key, prev, e) else ZERO_HASH;
    AuditDb(db.rows + [RowOf(|db.rows| + 1, e, prev, entry)], if chain then Some(entry) else db.anchor)
  }

  lemma AppendedRow(hmac: Hmac, key: Key, db: AuditDb, e: AuditEvent)
    requires Short(e)
    ensures
      var db' := AppendedDb(hmac, key, true, db, e);
      var n := |db.rows|;
      && |db'.rows| == n + 1 && db'.anchor == Some(db'.rows[n].entryHash)
      && db'.rows[n].prevHash == (if db.rows == [] then Zeros(32) else db.rows[n - 1].entryHash)
      && HashedFrom(hmac, key, db'.rows[n].prevHash, e, db'.rows[n].entryHash)
  {
    hide HashedFrom, EntryHash;
    EntryHashReads(hmac, key, LastHash(db.rows), e, EntryHash(hmac, key, LastHash(db.rows), e));
  }

  /** The tables after the given events were appended to an empty log. */
  function WrittenDb(hmac: Hmac, key: Key, chain: bool, events: seq<AuditEvent>): (db: AuditDb)
    ensures |db.rows| == |events|
    ensures |LastHash(db.rows)| == 32
    decreases |events|
  {
    if events == [] then AuditDb([], Some(ZERO_HASH))
    else
      var n := |events| - 1;
      AppendedDb(hmac, key, chain, WrittenDb(hmac, key, chain, events[..n]), events[n])
  }

  lemma WrittenAppend(hmac: Hmac, key: Key, chain: bool, events: seq<AuditEvent>, e: AuditEvent)
    ensures WrittenDb(hmac, key, chain, events + [e]) ==
            AppendedDb(hmac, key, chain, WrittenDb(hmac, key, chain, events), e)
  {
    assert (events + [e])[..|events|] == events;
  }

  /** With chaining on, the last entry hash is always the anchor. */
  lemma {:induction false} AnchorIsLast(hmac: Hmac, key: Key, events: seq<AuditEvent>)
    ensures WrittenDb(hmac, key, true, events).anchor == Some(LastHash(WrittenDb(hmac, key, true, events).rows))
  {
  }

  lemma WrittenLast(hmac: Hmac, key: Key, events: seq<AuditEvent>)
    requires events != []
    ensures
      var n := |events| - 1;
      var before := WrittenDb(hmac, key, true, events[..n]).rows;
      WrittenDb(hmac, key, true, events).rows ==
      before + [RowOf(n + 1, events[n], LastHash(before), EntryHash(hmac, key, LastHash(before), events[n]))]
  {
    hide RowOf, EntryHash, LastHash;
  }

  /** Row `i` of a written table is what appending event `i` to the first `i` wrote. */
  lemma {:induction false} WrittenRow(hmac: Hmac, key: Key, events: seq<AuditEvent>, i: nat)
    requires i < |events|
    ensures
      var before := WrittenDb(hmac, key, true, events[..i]);
      var rows := WrittenDb(hmac, key, true, events).rows;
      && rows[..i] == before.rows
      && rows[i] == RowOf(i + 1, events[i], LastHash(before.rows), EntryHash(hmac, key, LastHash(before.rows), events[i]))
  {
    hide WrittenDb, RowOf, EntryHash, LastHash;
    var n := |events| - 1;
    var d, rows := WrittenDb(hmac, key, true, events[..n]).rows, WrittenDb(hmac, key, true, events).rows;
    WrittenLast(hmac, key, events);
    if i < n {
      assert events[..n][..i] == events[..i] && events[..n][i] == events[i];
      assert rows[..i] == d[..i] && rows[i] == d[i];
      WrittenRow(hmac, key, events[..n], i);
    }
  }

  /** The hash input of event `i` as the writer hashed it, and as the verifier will. */
  function WriterInput(hmac: Hmac, key: Key, events: seq<AuditEvent>, i: nat): Bytes
    requires i < |events|
  {
    LastHash(WrittenDb(hmac, key, true, events[..i]).rows) + EventBytes(events[i])
  }

  function VerifierInput(hmac: Hmac, key: Key, events: seq<AuditEvent>, i: nat): Bytes
    requires i < |events|
  {
    LastHash(WrittenDb(hmac, key, true, events[..i]).rows) + EventBytes(Truncated(events[i]))
  }

  /** Writer and verifier agree exactly when no hash input lost bytes to NUL truncation, up to equal HMACs. */
  lemma WrittenVerifiesExactly(hmac: Hmac, key: Key, events: seq<AuditEvent>)
    ensures Verified(hmac, key, WrittenDb(hmac, key, true, events)) <==>
            forall i :: 0 <= i < |events| ==>
              hmac(key, WriterInput(hmac, key, events, i)) == hmac(key, VerifierInput(hmac, key, events, i))
  {
    AnchorIsLast(hmac, key, events);
    var rows := WrittenDb(hmac, key, true, events).rows;
    forall i | 0 <= i < |events|
      ensures RowOk(hmac, key, rows, i) <==>
              hmac(key, WriterInput(hmac, key, events, i)) == hmac(key, VerifierInput(hmac, key, events, i))
    {
      WrittenRow(hmac, key, events, i);
      var prev := LastHash(rows[..i]);
      ReadBack(i + 1, events[i], prev, EntryHash(hmac, key, prev, events[i]));
    }
  }

  /** A log of NUL-free events verifies, and its anchor is the last entry hash. */
  lemma NulFreeLogVerifies(hmac: Hmac, key: Key, events: seq<AuditEvent>)
    requires forall i :: 0 <= i < |events| ==> NulFree(events[i])
    ensures Verified(hmac, key, WrittenDb(hmac, key, true, events))
    ensures var db := WrittenDb(hmac, key, true, events); db.anchor == Some(LastHash(db.rows))
    ensures EventsOf(WrittenDb(hmac, key, true, events).rows) == events
  {
    WrittenVerifiesExactly(hmac, key, events);
    forall i | 0 <= i < |events|
      ensures EventOf(WrittenDb(hmac, key, true, events).rows[i]) == events[i] && Truncated(events[i]) == events[i]
    {
      WrittenEvent(hmac, key, events, i);
    }
  }

  lemma WrittenEvent(hmac: Hmac, key: Key, events: seq<AuditEvent>, i: nat)
    requires i < |events|
    ensures EventOf(WrittenDb(hmac, key, true, events).rows[i]) == Truncated(events[i])
    ensures Truncated(events[i]) == events[i] <==> NulFree(events[i])
  {
    WrittenRow(hmac, key, events, i);
    var prev := LastHash(WrittenDb(hmac, key, true, events[..i]).rows);
    ReadBack(i + 1, events[i], prev, EntryHash(hmac, key, prev, events[i]));
  }

  lemma {:induction false} UnchainedRow(hmac: Hmac, key: Key, events: seq<AuditEvent>, i: nat)
    requires i < |events|
    ensures
      var db := WrittenDb(hmac, key, false, events);
      db.anchor == Some(ZERO_HASH) && db.rows[i] == RowOf(i + 1, events[i], ZERO_HASH, ZERO_HASH)
  {
    hide RowOf, EntryHash;
    var n := |events| - 1;
    if i < n {
      UnchainedRow(hmac, key, events[..n], i);
    } else {
      UnchainedAnchor(hmac, key, events);
    }
  }

  lemma {:induction false} UnchainedAnchor(hmac: Hmac, key: Key, events: seq<AuditEvent>)
    ensures WrittenDb(hmac, key, false, events).anchor == Some(ZERO_HASH)
  {
    hide RowOf, EntryHash;
    if events != [] {
      UnchainedAnchor(hmac, key, events[..|events| - 1]);
    }
  }

  /**
    With chaining off every stored hash is zero, and the log verifies exactly
    when every event, put after the zero block, hashes to the zero block. So
    short of that, one entry is enough for the server to refuse its own table.
   */
  lemma UnchainedVerifiesExactly(hmac: Hmac, key: Key, events: seq<AuditEvent>)
    ensures Verified(hmac, key, WrittenDb(hmac, key, false, events)) <==>
            forall i :: 0 <= i < |events| ==> hmac(key, ZERO_HASH + EventBytes(Truncated(events[i]))) == ZERO_HASH
  {
    hide WrittenDb, RowOf, EventOf, Truncated;
    var rows := WrittenDb(hmac, key, false, events).rows;
    UnchainedAnchor(hmac, key, events);
    forall i | 0 <= i < |events|
      ensures rows[i].entryHash == rows[i].prevHash == ZERO_HASH && EventOf(rows[i]) == Truncated(events[i])
    {
      UnchainedRow(hmac, key, events, i);
      ReadBack(i + 1, events[i], ZERO_HASH, ZERO_HASH);
      RowHashes(i + 1, events[i], ZERO_HASH, ZERO_HASH);
    }
    forall i | 0 <= i < |events|
      ensures RowOk(hmac, key, rows, i) <==>
              hmac(key, ZERO_HASH + EventBytes(Truncated(events[i]))) == ZERO_HASH
    {
      assert LastHash(rows[..i]) == ZERO_HASH;
    }
  }

  lemma RowHashes(id: int, e: AuditEvent, prev: Bytes, entry: Bytes)
    ensures RowOf(id, e, prev, entry).prevHash == prev && RowOf(id, e, prev, entry).entryHash == entry
  {
  }

  /** Any table that verifies, whoever wrote it, still does after an append of a NUL-free event, and reads back with it. */
  lemma AppendKeepsVerified(hmac: Hmac, key: Key, db: AuditDb, e: AuditEvent)
    requires Verified(hmac, key, db) && NulFree(e)
    ensures
      var db' := AppendedDb(hmac, key, true, db, e);
      Verified(hmac, key, db') && EventsOf(db'.rows) == EventsOf(db.rows) + [e]
  {
    hide RowOf, EventOf, Truncated, NulFree;
    var n, prev := |db.rows|, LastHash(db.rows);
    var entry := EntryHash(hmac, key, prev, e);
    var rows := AppendedDb(hmac, key, true, db, e).rows;
    ReadBack(n + 1, e, prev, entry);
    RowHashes(n + 1, e, prev, entry);
    assert n > 0 ==> RowOk(hmac, key, db.rows, n - 1);
    forall i | 0 <= i <= n
      ensures RowOk(hmac, key, rows, i)
    {
      if i < n {
        assert RowOk(hmac, key, db.rows, i);
        assert rows[..i] == db.rows[..i];
      } else {
        assert rows[..n] == db.rows;
      }
    }
  }

  /** An event with a NUL in it breaks verification, or shows two inputs with one HMAC. */
  lemma NulBreaksVerification(hmac: Hmac, key: Key, events: seq<AuditEvent>, i: nat)
    requires i < |events| && Short(events[i]) && !NulFree(events[i])
    requires Verified(hmac, key, WrittenDb(hmac, key, true, events))
    ensures
      var x, y := WriterInput(hmac, key, events, i), VerifierInput(hmac, key, events, i);
      x != y && hmac(key, x) == hmac(key, y)
  {
    WrittenVerifiesExactly(hmac, key, events);
    var x, y := WriterInput(hmac, key, events, i), VerifierInput(hmac, key, events, i);
    assert x[32..] == EventBytes(events[i]) && y[32..] == EventBytes(Truncated(events[i]));
    if x == y {
      EventBytesInjective(events[i], Truncated(events[i]));
    }
  }

  /** Whether an append commits, given the step at which storage throws. */
  predicate Commits(chain: bool, fault: Fault) {
    fault == NoFault || (fault == AnchorFails && !chain)
  }

  /** One call of append: a transaction, all of it or nothing. */
  function AppendStep(hmac: Hmac, key: Key, chain: bool, db: AuditDb, e: AuditEvent, fault: Fault): AuditDb {
    if Commits(chain, fault) then AppendedDb(hmac, key, chain, db, e) else db
  }

  datatype Call = Call(event: AuditEvent, fault: Fault)

  function AppendRun(hmac: Hmac, key: Key, chain: bool, calls: seq<Call>): AuditDb {
    if calls == [] then AuditDb([], Some(ZERO_HASH))
    else
      var last := |calls| - 1;
      AppendStep(hmac, key, chain, AppendRun(hmac, key, chain, calls[..last]), calls[last].event, calls[last].fault)
  }

  function Committed(chain: bool, calls: seq<Call>): seq<AuditEvent> {
    if calls == [] then []
    else
      var last := |calls| - 1;
      Committed(chain, calls[..last]) + if Commits(chain, calls[last].fault) then [calls[last].event] else []
  }

  lemma {:induction false} RunWritesCommitted(hmac: Hmac, key: Key, chain: bool, calls: seq<Call>)
    ensures AppendRun(hmac, key, chain, calls) == WrittenDb(hmac, key, chain, Committed(chain, calls))
  {
    hide AppendedDb, WrittenDb;
    if calls == [] {
      NothingWritten(hmac, key, chain);
    } else {
      var last := |calls| - 1;
      RunWritesCommitted(hmac, key, chain, calls[..last]);
      WrittenAppend(hmac, key, chain, Committed(chain, calls[..last]), calls[last].event);
      assert Committed(chain, calls[..last]) + [] == Committed(chain, calls[..last]);
    }
  }

  lemma NothingWritten(hmac: Hmac, key: Key, chain: bool)
    ensures WrittenDb(hmac, key, chain, []) == AuditDb([], Some(ZERO_HASH))
  {
  }

  /**
    Any mix of committed and rolled-back appends of NUL-free events leaves a
    log that verifies, holds the committed events, and ends at its anchor.
   */
  lemma MixedAppendsVerify(hmac: Hmac, key: Key, calls: seq<Call>)
    requires forall i :: 0 <= i < |calls| ==> NulFree(calls[i].event)
    ensures
      var db := AppendRun(hmac, key, true, calls);
      && Verified(hmac, key, db) && db.anchor == Some(LastHash(db.rows))
      && EventsOf(db.rows) == Committed(true, calls)
  {
    hide *;
    RunWritesCommitted(hmac, key, true, calls);
    CommittedNulFree(true, calls);
    NulFreeLogVerifies(hmac, key, Committed(true, calls));
  }

  lemma {:induction false} CommittedNulFree(chain: bool, calls: seq<Call>)
    requires forall i :: 0 <= i < |calls| ==> NulFree(calls[i].event)
    ensures forall i :: 0 <= i < |Committed(chain, calls)| ==> NulFree(Committed(chain, calls)[i])
  {
    hide NulFree;
    if calls != [] {
      CommittedNulFree(chain, calls[..|calls| - 1]);
    }
  }

  class SqliteAuditLog {
    const hmac: Hmac
    const key: Key
    const chainEnabled: bool
    var rows: seq<Row>
    var anchor: Option<Bytes>
    ghost var events: seq<AuditEvent>  // those whose append committed

    ghost predicate Valid()
      reads this
    {
      AuditDb(rows, anchor) == WrittenDb(hmac, key, chainEnabled, events)
    }

    constructor (hmac: Hmac, key: Key, chainEnabled: bool)
      ensures Valid() && events == []
      ensures this.hmac == hmac && this.key == key && this.chainEnabled == chainEnabled
    {
      this.hmac, this.key, this.chainEnabled := hmac, key, chainEnabled;
      rows, anchor := [], Some(ZERO_HASH);
      events := [];
    }

    /** Throws on a stored hash that is not 32 bytes. */
    method GetLastEntryHash() returns (last: Option<Bytes>)
      ensures last == if |LastHash(rows)| == 32 then Some(LastHash(rows)) else None
    {
      if rows == [] {
        return Some(ZERO_HASH);
      }
      var blob := rows[|rows| - 1].entryHash;
      if |blob| != 32 {
        return None;
      }
      return Some(blob);
    }

    /** The writer's encoder, over the event. */
    method ComputeHash(prev: Bytes, e: AuditEvent) returns (h: Hash)
      ensures h == EntryHash(hmac, key, prev, e)
    {
      var fields := PutLe64(e.tsUnixMs, []);
      assert fields == Le64(e.tsUnixMs);
      fields := PutLe32(e.readerId, fields);
      fields := PutLe32(e.doorId, fields);
      fields := PutLe64(e.seqNo, fields);
      fields := fields + [if e.allow then 1 else 0];
      fields := PutBytesWithLen(e.reason, fields);
      fields := PutBytesWithLen(e.cardId, fields);
      fields := PutBytesWithLen(e.action, fields);
      h := hmac(key, prev + fields);
    }

    method InsertAuditEntry(e: AuditEvent, prev: Bytes, entry: Bytes, fault: Fault) returns (ok: bool)
      modifies this`rows
      ensures ok <==> fault != InsertFails
      ensures rows == if ok then old(rows) + [RowOf(|old(rows)| + 1, e, prev, entry)] else old(rows)
    {
      if fault == InsertFails {
        return false;
      }
      var cardHmac := if e.cardId == [] then None else Some(CString(e.cardId));
      var action := if e.action == [] then None else Some(CString(e.action));
      rows := rows + [Row(|rows| + 1, ToI64(e.tsUnixMs), ToI32(e.readerId), ToI32(e.doorId), ToI64(e.seqNo),
                          if e.allow then 1 else 0, CString(e.reason), cardHmac, action, prev, entry)];
      return true;
    }

    /** All or nothing: a failed step rolls both tables back, and the exception leaves `append`. */
    method Append(e: AuditEvent, fault: Fault) returns (ok: bool)
      requires Valid()
      modifies this
      ensures Valid()
      ensures ok <==> fault == NoFault || (fault == AnchorFails && !chainEnabled)
      ensures ok && chainEnabled && Short(e) ==>
                && |rows| == |old(rows)| + 1
                && var row := rows[|old(rows)|];
                   && row.prevHash == (if old(rows) == [] then Zeros(32) else old(rows)[|old(rows)| - 1].entryHash)
                   && HashedFrom(hmac, key, row.prevHash, e, row.entryHash) && anchor == Some(row.entryHash)
      ensures events == if ok then old(events) + [e] else old(events)
      ensures AuditDb(rows, anchor) == AppendStep(hmac, key, chainEnabled, old(AuditDb(rows, anchor)), e, fault)
    {
      hide WrittenDb, AppendedDb, EntryHash, HashedFrom;
      if Short(e) {
        AppendedRow(hmac, key, AuditDb(rows, anchor), e);
      }
      if fault == BeginFails {
        return false;
      }
      var savedRows, savedAnchor := rows, anchor;
      ok := InTransaction(e, fault);
      if !ok {
        rows, anchor := savedRows, savedAnchor;
        return;
      }
      WrittenAppend(hmac, key, chainEnabled, events, e);
      events := events + [e];
    }

    method InTransaction(e: AuditEvent, fault: Fault) returns (ok: bool)
      requires Valid() && fault != BeginFails
      modifies this`rows, this`anchor
      ensures ok <==> Commits(chainEnabled, fault)
      ensures ok ==> AuditDb(rows, anchor) == AppendedDb(hmac, key, chainEnabled, old(AuditDb(rows, anchor)), e)
    {
      if !chainEnabled {
        ok := InsertAuditEntry(e, ZERO_HASH, ZERO_HASH, fault);
        return ok && fault != CommitFails;
      }
      var prev := GetLastEntryHash();
      if prev == None {
        return false;
      }
      var entry := ComputeHash(prev.value, e);
      ok := InsertAuditEntry(e, prev.value, entry, fault);
      if !ok || fault == AnchorFails {
        return false;
      }
      anchor := Some(entry);
      return fault != CommitFails;
    }
  }
}
