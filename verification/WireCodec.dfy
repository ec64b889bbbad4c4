/**
  The wire format: packet header, frame printer and the cursor parser
  (protocol_lib/src/packet.cpp, frame.cpp, frame_parser.cpp).
 */
module WireCodec {
  import opened Words
  import opened Options

  type Nonce = b: Bytes | |b| == 24 witness Zeros(24)
  type Tag = b: Bytes | |b| == 16 witness Zeros(16)

  const ZERO_NONCE: Nonce := Zeros(24)

  datatype Header = Header(readerId: U32, doorId: U32, tsUnixMs: U64, seqNo: U64, keyVersion: U32, nonce: Nonce)
  datatype Frame = Frame(header: Header, ct: Bytes, tag: Tag)

  const ZERO_HEADER := Header(0, 0, 0, 0, 0, ZERO_NONCE)

  const MAGIC: Bytes := [0x41, 0x53, 0x30, 0x31]  // "AS01"
  const VERSION: U8 := 1

  const HEADER_SIZE: nat := 52
  const TAG_SIZE: nat := 16
  const CT_OFFSET: nat := 61
  const MIN_FRAME_SIZE: nat := 77

  function HeaderBytes(h: Header): (b: Bytes)
    ensures |b| == HEADER_SIZE
  {
    Le32(h.readerId) + Le32(h.doorId) + Le64(h.tsUnixMs) + Le64(h.seqNo) + Le32(h.keyVersion) + h.nonce
  }

  method ToBytes(h: Header) returns (out: Bytes)
    ensures out == HeaderBytes(h) && HeaderOf(out) == h
  {
    hide HeaderOf;
    HeaderOfBytes(h);
    out := PutLe32(h.readerId, []);
    out := PutLe32(h.doorId, out);
    out := PutLe64(h.tsUnixMs, out);
    out := PutLe64(h.seqNo, out);
    out := PutLe32(h.keyVersion, out);
    out := out + h.nonce;
  }

  function HeaderOf(b: Bytes): Header
    requires |b| == HEADER_SIZE
  {
    Header(Word32(b[0..4]), Word32(b[4..8]), Word64(b[8..16]), Word64(b[16..24]), Word32(b[24..28]), b[28..52])
  }

  lemma HeaderOfBytes(h: Header)
    ensures HeaderOf(HeaderBytes(h)) == h
  {
    var b := HeaderBytes(h);
    assert b[0..4] == Le32(h.readerId);
    assert b[4..8] == Le32(h.doorId);
    assert b[8..16] == Le64(h.tsUnixMs);
    assert b[16..24] == Le64(h.seqNo);
    assert b[24..28] == Le32(h.keyVersion);
    assert b[28..52] == h.nonce;
    Word32OfLe32(h.readerId); Word32OfLe32(h.doorId); Word32OfLe32(h.keyVersion);
    Word64OfLe64(h.tsUnixMs); Word64OfLe64(h.seqNo);
  }

  lemma BytesOfHeader(b: Bytes)
    requires |b| == HEADER_SIZE
    ensures HeaderBytes(HeaderOf(b)) == b
  {
    assert b == b[0..4] + b[4..8] + b[8..16] + b[16..24] + b[24..28] + b[28..52];
  }

  /** The length field is the ciphertext size cut to 32 bits. */
  function FrameBytes(f: Frame): Bytes {
    MAGIC + [VERSION] + HeaderBytes(f.header) + Le32(|f.ct| % TWO32) + f.ct + f.tag
  }

  method Serialize(f: Frame) returns (out: Bytes)
    ensures out == FrameBytes(f)
  {
    out := MAGIC;
    out := out + [VERSION];
    ghost var before := out;
    out := PutLe32(f.header.readerId, out);
    out := PutLe32(f.header.doorId, out);
    out := PutLe64(f.header.tsUnixMs, out);
    out := PutLe64(f.header.seqNo, out);
    out := PutLe32(f.header.keyVersion, out);
    out := out + f.header.nonce;
    assert out == before + HeaderBytes(f.header);
    out := PutLe32(|f.ct| % TWO32, out);
    out := out + f.ct;
    out := out + f.tag;
  }

  datatype ParseError = TooSmall | BadMagic | BadVersion | CtLenExceedsLimit | LengthMismatch | TrailingBytes

  datatype ParseResult = Parsed(frame: Frame) | Malformed(error: ParseError)

  /** The language the parser accepts, read at fixed offsets, with the first error it reports. */
  function ParseFrame(b: Bytes, maxCtLen: U32): ParseResult {
    if |b| < MIN_FRAME_SIZE then Malformed(TooSmall)
    else if b[0..4] != MAGIC then Malformed(BadMagic)
    else if b[4] != VERSION then Malformed(BadVersion)
    else
      var ctLen := Word32(b[57..61]);
      if ctLen > maxCtLen then Malformed(CtLenExceedsLimit)
      else if |b| < CT_OFFSET + ctLen + TAG_SIZE then Malformed(LengthMismatch)
      else if |b| > CT_OFFSET + ctLen + TAG_SIZE then Malformed(TrailingBytes)
      else Parsed(Frame(HeaderOf(b[5..57]), b[61..61 + ctLen], b[61 + ctLen..]))
  }

  lemma HeaderInPlace(b: Bytes)
    requires |b| >= CT_OFFSET
    ensures HeaderOf(b[5..57]) == Header(Word32(b[5..9]), Word32(b[9..13]), Word64(b[13..21]), Word64(b[21..29]),
                                         Word32(b[29..33]), b[33..57])
  {
    hide Word32, Word64;
    SliceOfSlice(b, 5, 57, 0, 4);
    SliceOfSlice(b, 5, 57, 4, 8);
    SliceOfSlice(b, 5, 57, 8, 16);
    SliceOfSlice(b, 5, 57, 16, 24);
    SliceOfSlice(b, 5, 57, 24, 28);
    SliceOfSlice(b, 5, 57, 28, 52);
  }

  lemma SliceOfSlice(b: Bytes, i: nat, j: nat, k: nat, l: nat)
    requires i <= j <= |b| && k <= l <= j - i
    ensures b[i..j][k..l] == b[i + k..i + l]
  {
    var x, y := b[i..j][k..l], b[i + k..i + l];
    forall m | 0 <= m < l - k
      ensures x[m] == y[m]
    {
      assert x[m] == b[i..j][k + m];
    }
  }

  lemma FrameParts(f: Frame)
    ensures
      var b := FrameBytes(f);
      && |b| == CT_OFFSET + |f.ct| + TAG_SIZE
      && b[0..4] == MAGIC && b[4] == VERSION
      && b[5..57] == HeaderBytes(f.header)
      && b[57..61] == Le32(|f.ct| % TWO32)
      && b[61..61 + |f.ct|] == f.ct
      && b[61 + |f.ct|..] == f.tag
  {
  }

  /** Where the fields of a frame stand: "AS01", version 1, the header, the length, the ciphertext and the tag. */
  lemma FrameLayout(f: Frame)
    ensures
      var b, h := FrameBytes(f), f.header;
      && |b| == 77 + |f.ct| && b[0..4] == [0x41, 0x53, 0x30, 0x31] && b[4] == 1
      && Word32(b[5..9]) == h.readerId && Word32(b[9..13]) == h.doorId
      && Word64(b[13..21]) == h.tsUnixMs && Word64(b[21..29]) == h.seqNo
      && Word32(b[29..33]) == h.keyVersion && b[33..57] == h.nonce
      && Word32(b[57..61]) == |f.ct| % TWO32 && b[61..61 + |f.ct|] == f.ct && b[61 + |f.ct|..] == f.tag
  {
    hide Word32, Word64, HeaderBytes, HeaderOf;
    FrameParts(f);
    HeaderOfBytes(f.header);
    Word32OfLe32(|f.ct| % TWO32);
    HeaderInPlace(FrameBytes(f));
    hide FrameBytes;
  }

  /** Each rejection with its cause in the bytes; causes are looked at in this order. */
  lemma ParseErrorsExactly(b: Bytes, maxCtLen: U32)
    ensures
      var r := ParseFrame(b, maxCtLen);
      && (r == Malformed(TooSmall) <==> |b| < 77)
      && (|b| >= 77 ==>
            var n := b[57] as int + 0x100 * b[58] as int + 0x1_0000 * b[59] as int + 0x100_0000 * b[60] as int;
            var magic := b[0..4] == [0x41, 0x53, 0x30, 0x31];
            && (r == Malformed(BadMagic) <==> !magic)
            && (r == Malformed(BadVersion) <==> magic && b[4] != 1)
            && (r == Malformed(CtLenExceedsLimit) <==> magic && b[4] == 1 && n > maxCtLen)
            && (r == Malformed(LengthMismatch) <==> magic && b[4] == 1 && n <= maxCtLen && |b| < 77 + n)
            && (r == Malformed(TrailingBytes) <==> magic && b[4] == 1 && n <= maxCtLen && |b| > 77 + n))
  {
    hide Word32, HeaderOf;
    if |b| >= 77 {
      Word32Means(b[57..61]);
    }
  }

  /** A printed frame parses back to itself exactly when its ciphertext is within the limit. */
  lemma RoundTripExactly(f: Frame, maxCtLen: U32)
    ensures ParseFrame(FrameBytes(f), maxCtLen) == Parsed(f) <==> |f.ct| <= maxCtLen
  {
    FrameParts(f);
    HeaderOfBytes(f.header);
    Word32OfLe32(|f.ct| % TWO32);
  }

  /** Whatever parses prints back to exactly the bytes that were read. */
  lemma ParsedPrintsBack(b: Bytes, maxCtLen: U32)
    requires ParseFrame(b, maxCtLen).Parsed?
    ensures FrameBytes(ParseFrame(b, maxCtLen).frame) == b
    ensures |ParseFrame(b, maxCtLen).frame.ct| <= maxCtLen
  {
    hide Word32, Word64, Le32, HeaderOf, HeaderBytes;
    var f := ParseFrame(b, maxCtLen).frame;
    BytesOfHeader(b[5..57]);
    PartsOfFrame(b, |f.ct|);
  }

  lemma PartsOfFrame(b: Bytes, n: nat)
    requires |b| >= CT_OFFSET + n
    ensures b == b[0..4] + [b[4]] + b[5..57] + b[57..61] + b[61..61 + n] + b[61 + n..]
  {
    SplitAt(b, 61 + n, 61);
    SplitAt(b, 61, 57);
    SplitAt(b, 57, 5);
    SplitAt(b, 5, 4);
    assert b[4..5] == [b[4]];
  }

  lemma SplitAt(b: Bytes, n: nat, k: nat)
    requires k <= n <= |b|
    ensures b[0..n] == b[0..k] + b[k..n] && b == b[0..n] + b[n..]
  {
  }

  /** The parser rejects a byte string exactly when no frame within the limit prints to it. */
  lemma ParsesExactly(b: Bytes, maxCtLen: U32)
    ensures ParseFrame(b, maxCtLen).Parsed? <==> exists f: Frame :: |f.ct| <= maxCtLen && FrameBytes(f) == b
  {
    if ParseFrame(b, maxCtLen).Parsed? {
      ParsedPrintsBack(b, maxCtLen);
    }
    if f: Frame :| |f.ct| <= maxCtLen && FrameBytes(f) == b {
      RoundTripExactly(f, maxCtLen);
    }
  }

  /** The parser: a cursor moves through `bytes` while `frame` is filled in; a throw is a `Some`. */
  class FrameParser {
    const bytes: Bytes
    const maxCtLen: U32
    var ptr: nat
    var header: Header
    var ct: Bytes
    var tag: Tag

    constructor (bytes: Bytes, maxCtLen: U32)
      ensures this.bytes == bytes && this.maxCtLen == maxCtLen && ptr == 0
    {
      this.bytes, this.maxCtLen := bytes, maxCtLen;
      ptr, header, ct, tag := 0, ZERO_HEADER, [], Zeros(16);
    }

    predicate HasBytes(n: nat)
      reads this`ptr
    {
      ptr <= |bytes| && |bytes| - ptr >= n
    }

    method ReadLe32() returns (v: U32)
      requires HasBytes(4)
      modifies this`ptr
      ensures ptr == old(ptr) + 4 && v == Word32(bytes[old(ptr)..ptr])
    {
      v := GetLe32(bytes, ptr);
      ptr := ptr + 4;
    }

    method ReadLe64() returns (v: U64)
      requires HasBytes(8)
      modifies this`ptr
      ensures ptr == old(ptr) + 8 && v == Word64(bytes[old(ptr)..ptr])
    {
      v := GetLe64(bytes, ptr);
      ptr := ptr + 8;
    }

    method ValidateMagic() returns (err: Option<ParseError>)
      requires ptr == 0
      modifies this`ptr
      ensures err == if |bytes| < 4 then Some(TooSmall) else if bytes[0..4] != MAGIC then Some(BadMagic) else None
      ensures err == None ==> ptr == 4
    {
      if !HasBytes(4) {
        return Some(TooSmall);
      }
      if bytes[ptr..ptr + 4] != MAGIC {
        return Some(BadMagic);
      }
      ptr := ptr + 4;
      return None;
    }

    method ValidateVersion() returns (err: Option<ParseError>)
      requires ptr == 4
      modifies this`ptr
      ensures err == if |bytes| < 5 then Some(TooSmall) else if bytes[4] != VERSION then Some(BadVersion) else None
      ensures err == None ==> ptr == 5
    {
      if !HasBytes(1) {
        return Some(TooSmall);
      }
      var ver := bytes[ptr];
      ptr := ptr + 1;
      if ver != VERSION {
        return Some(BadVersion);
      }
      return None;
    }

    /** Checks room for the header and for the length field, which the next step reads unchecked. */
    method ParseHeader() returns (err: Option<ParseError>)
      requires ptr == 5
      modifies this`ptr, this`header
      ensures err == if |bytes| < CT_OFFSET then Some(TooSmall) else None
      ensures err == None ==> ptr == 57 && header == HeaderOf(bytes[5..57])
    {
      hide Word32, Word64;
      if !HasBytes(28 + 24 + 4) {
        return Some(TooSmall);
      }
      var readerId := ReadLe32();
      var doorId := ReadLe32();
      var ts := ReadLe64();
      var seqNo := ReadLe64();
      var keyVersion := ReadLe32();
      header := Header(readerId, doorId, ts, seqNo, keyVersion, bytes[ptr..ptr + 24]);
      ptr := ptr + 24;
      HeaderInPlace(bytes);
      return None;
    }

    /** Reads the length without a check of its own, and checks room for the tag as well. */
    method ParseCiphertext() returns (err: Option<ParseError>)
      requires ptr == 57 && HasBytes(4)
      modifies this`ptr, this`ct
      ensures
        var ctLen := Word32(bytes[57..61]);
        && err == (if ctLen > maxCtLen then Some(CtLenExceedsLimit)
                   else if |bytes| < CT_OFFSET + ctLen + TAG_SIZE then Some(LengthMismatch) else None)
        && (err == None ==> ptr == 61 + ctLen && ct == bytes[61..61 + ctLen])
    {
      var ctLen := ReadLe32();
      if ctLen > maxCtLen {
        return Some(CtLenExceedsLimit);
      }
      if !HasBytes(ctLen + TAG_SIZE) {
        return Some(LengthMismatch);
      }
      ct := bytes[ptr..ptr + ctLen];
      ptr := ptr + ctLen;
      return None;
    }

    method ParseTag()
      requires HasBytes(TAG_SIZE)
      modifies this`ptr, this`tag
      ensures ptr == old(ptr) + TAG_SIZE && tag == bytes[old(ptr)..ptr]
    {
      tag := bytes[ptr..ptr + TAG_SIZE];
      ptr := ptr + TAG_SIZE;
    }

    method Parse() returns (r: ParseResult)
      requires ptr == 0
      modifies this
      ensures r == ParseFrame(bytes, maxCtLen)
    {
      if |bytes| < MIN_FRAME_SIZE {
        return Malformed(TooSmall);
      }
      var err := ValidateMagic();
      if err.Some? { return Malformed(err.value); }
      err := ValidateVersion();
      if err.Some? { return Malformed(err.value); }
      err := ParseHeader();
      if err.Some? {
        assert false;  // the minimum size leaves room for the header
      }
      err := ParseCiphertext();
      if err.Some? { return Malformed(err.value); }
      ParseTag();
      if ptr != |bytes| {
        return Malformed(TrailingBytes);
      }
      return Parsed(Frame(header, ct, tag));
    }
  }
}
