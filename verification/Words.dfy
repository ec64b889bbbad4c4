module Options {
  datatype Option<+T> = None | Some(value: T)
}

/**
  Fixed-width unsigned words, byte strings, and the little-endian encoding that
  the wire format and the audit hash share.
 */
module Words {
  const TWO32 := 0x1_0000_0000
  const TWO64 := 0x1_0000_0000_0000_0000

  type U8 = x: int | 0 <= x < 0x100
  type U32 = x: int | 0 <= x < TWO32
  type U64 = x: int | 0 <= x < TWO64
  type Bytes = seq<U8>

  function Zeros(n: nat): (z: Bytes)
    ensures |z| == n && forall i :: 0 <= i < n ==> z[i] == 0
  {
    if n == 0 then [] else [0] + Zeros(n - 1)
  }

  function Pow256(n: nat): nat {
    if n == 0 then 1 else 0x100 * Pow256(n - 1)
  }

  lemma WordSizes()
    ensures Pow256(4) == TWO32 && Pow256(8) == TWO64
  {
    assert Pow256(2) == 0x1_0000;
    assert Pow256(4) == 0x100 * (0x100 * Pow256(2));
    assert Pow256(6) == 0x100 * (0x100 * Pow256(4));
    assert Pow256(8) == 0x100 * (0x100 * Pow256(6));
  }

  /** `v >> (8 * i)`, as `i` shifts by one byte. */
  function ShiftRight(v: nat, i: nat): nat {
    if i == 0 then v else ShiftRight(v, i - 1) / 0x100
  }

  /** `v << (8 * i)`, as `i` shifts by one byte. */
  function ShiftLeft(v: nat, i: nat): nat {
    if i == 0 then v else 0x100 * ShiftLeft(v, i - 1)
  }

  /** The `n` low bytes of `v`, least significant first. */
  function LeBytes(v: nat, n: nat): (b: Bytes)
    ensures |b| == n
  {
    if n == 0 then [] else [v % 0x100] + LeBytes(v / 0x100, n - 1)
  }

  function FromLe(b: Bytes): (v: nat)
    ensures v < Pow256(|b|)
  {
    if b == [] then 0 else b[0] as int + 0x100 * FromLe(b[1..])
  }

  /** Reading back what was written gives the word. */
  lemma {:induction false} DecodeEncode(v: nat, n: nat)
    requires v < Pow256(n)
    ensures FromLe(LeBytes(v, n)) == v
  {
    if n > 0 {
      DecodeEncode(v / 0x100, n - 1);
      assert LeBytes(v, n)[1..] == LeBytes(v / 0x100, n - 1);
    }
  }

  /** Writing back what was read gives the bytes. */
  lemma {:induction false} EncodeDecode(b: Bytes)
    ensures LeBytes(FromLe(b), |b|) == b
  {
    if b != [] {
      EncodeDecode(b[1..]);
      var v := FromLe(b);
      assert v % 0x100 == b[0] && v / 0x100 == FromLe(b[1..]);
    }
  }

  lemma {:induction false} FromLeAppend(b: Bytes, x: U8)
    ensures FromLe(b + [x]) == FromLe(b) + ShiftLeft(x, |b|)
  {
    if b == [] {
      assert b + [x] == [x];
    } else {
      FromLeAppend(b[1..], x);
      assert (b + [x])[1..] == b[1..] + [x];
    }
  }

  function Le32(v: U32): (b: Bytes)
    ensures |b| == 4
  {
    LeBytes(v, 4)
  }

  function Le64(v: U64): (b: Bytes)
    ensures |b| == 8
  {
    LeBytes(v, 8)
  }

  function Word32(b: Bytes): (v: U32)
    requires |b| == 4
    ensures Le32(v) == b
  {
    WordSizes(); EncodeDecode(b);
    FromLe(b)
  }

  function Word64(b: Bytes): (v: U64)
    requires |b| == 8
    ensures Le64(v) == b
  {
    WordSizes(); EncodeDecode(b);
    FromLe(b)
  }

  /** Least significant byte first. */
  lemma Word32Means(b: Bytes)
    requires |b| == 4
    ensures Word32(b) == b[0] as int + 0x100 * b[1] as int + 0x1_0000 * b[2] as int + 0x100_0000 * b[3] as int
  {
    var b0: int, b1: int, b2: int, b3: int := b[0], b[1], b[2], b[3];
    assert b[1..][1..][1..][1..] == [];
    assert FromLe(b[1..][1..][1..]) == b3;
    assert FromLe(b[1..][1..]) == b2 + 0x100 * b3;
    assert FromLe(b) == b0 + 0x100 * (b1 + 0x100 * FromLe(b[1..][1..]));
  }

  lemma Word32OfLe32(v: U32)
    ensures Word32(Le32(v)) == v
  {
    WordSizes();
    DecodeEncode(v, 4);
  }

  lemma Word64OfLe64(v: U64)
    ensures Word64(Le64(v)) == v
  {
    WordSizes();
    DecodeEncode(v, 8);
  }

  /** Appends the four bytes of `v`, one push per byte. */
  method PutLe32(v: U32, out: Bytes) returns (r: Bytes)
    ensures r == out + Le32(v)
  {
    r := out + [v % 0x100];
    r := r + [v / 0x100 % 0x100];
    r := r + [v / 0x1_0000 % 0x100];
    r := r + [v / 0x100_0000 % 0x100];
    assert v / 0x1_0000 == v / 0x100 / 0x100 && v / 0x100_0000 == v / 0x100 / 0x100 / 0x100;
    assert LeBytes(v / 0x1_0000, 2) == [v / 0x1_0000 % 0x100, v / 0x100_0000 % 0x100];
    assert LeBytes(v / 0x100, 3) == [v / 0x100 % 0x100] + LeBytes(v / 0x1_0000, 2);
  }

  lemma LePrefix(r: Bytes, v: nat, i: nat)
    requires i < 8
    ensures r + LeBytes(ShiftRight(v, i), 8 - i) ==
            r + [ShiftRight(v, i) % 0x100] + LeBytes(ShiftRight(v, i + 1), 7 - i)
  {
  }

  method PutLe64(v: U64, out: Bytes) returns (r: Bytes)
    ensures r == out + Le64(v)
  {
    r := out;
    for i := 0 to 8
      invariant r + LeBytes(ShiftRight(v, i), 8 - i) == out + Le64(v)
    {
      LePrefix(r, v, i);
      r := r + [ShiftRight(v, i) % 0x100];
    }
    assert r + [] == r;
  }

  /** Reads four bytes at `at`. The operands of the source's `|` have no common bit. */
  method GetLe32(b: Bytes, at: nat) returns (v: U32)
    requires at + 4 <= |b|
    ensures v == Word32(b[at..at + 4])
  {
    hide Word32;
    var b0: int, b1: int, b2: int, b3: int := b[at], b[at + 1], b[at + 2], b[at + 3];
    Word32Means(b[at..at + 4]);
    v := b0 + 0x100 * b1 + 0x1_0000 * b2 + 0x100_0000 * b3;
  }

  /** Reads eight bytes at `at`; before byte `i` is merged in, all bits from `8 * i` up are clear. */
  method GetLe64(b: Bytes, at: nat) returns (v: U64)
    requires at + 8 <= |b|
    ensures v == Word64(b[at..at + 8])
  {
    WordSizes();
    var acc: nat := 0;
    for i := 0 to 8
      invariant acc == FromLe(b[at..at + i]) < Pow256(i)
    {
      assert b[at..at + i + 1] == b[at..at + i] + [b[at + i]];
      FromLeAppend(b[at..at + i], b[at + i]);
      acc := acc + ShiftLeft(b[at + i], i);
    }
    v := acc;
  }
}
