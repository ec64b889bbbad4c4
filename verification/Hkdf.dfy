/** HKDF-SHA256 (crypto_lib/src/hkdf.cpp), sections 2.2 and 2.3 of RFC 5869. */
module HkdfSpec {
  import opened Words
  import opened Domain

  const HASH_LEN: nat := 32
  const MAX_BLOCKS: nat := 255

  /** HKDF-Extract; an absent salt is a block of zeros. */
  function Prk(hmac: Hmac, salt: Bytes, ikm: Bytes): Hash {
    hmac(if salt == [] then ZERO_HASH else salt, ikm)
  }

  /** T(i) of HKDF-Expand. */
  function T(hmac: Hmac, prk: Hash, info: Bytes, i: nat): (t: Bytes)
    requires i <= MAX_BLOCKS
    ensures |t| == if i == 0 then 0 else HASH_LEN
  {
    if i == 0 then [] else hmac(prk, T(hmac, prk, info, i - 1) + info + [i])
  }

  /** T(1) | ... | T(n). */
  function Blocks(hmac: Hmac, prk: Hash, info: Bytes, n: nat): (b: Bytes)
    requires n <= MAX_BLOCKS
    ensures |b| == HASH_LEN * n
  {
    if n == 0 then [] else Blocks(hmac, prk, info, n - 1) + T(hmac, prk, info, n)
  }

  function BlockCount(len: nat): nat {
    (len + HASH_LEN - 1) / HASH_LEN
  }

  /** The output: the first `len` bytes of T(1) | T(2) | ... */
  function Okm(hmac: Hmac, prk: Hash, info: Bytes, len: nat): (okm: Bytes)
    requires len <= MAX_BLOCKS * HASH_LEN
    ensures |okm| == len
  {
    Blocks(hmac, prk, info, BlockCount(len))[..len]
  }

  lemma {:induction false} BlocksPrefix(hmac: Hmac, prk: Hash, info: Bytes, m: nat, n: nat)
    requires m <= n <= MAX_BLOCKS
    ensures Blocks(hmac, prk, info, n)[..HASH_LEN * m] == Blocks(hmac, prk, info, m)
  {
    if m < n {
      BlocksPrefix(hmac, prk, info, m, n - 1);
      var front := Blocks(hmac, prk, info, n - 1);
      assert Blocks(hmac, prk, info, n)[..HASH_LEN * m] == front[..HASH_LEN * m];
    }
  }

  /** A shorter output is a prefix of every longer one. */
  lemma ShorterIsPrefix(hmac: Hmac, prk: Hash, info: Bytes, len: nat, longer: nat)
    requires len <= longer <= MAX_BLOCKS * HASH_LEN
    ensures Okm(hmac, prk, info, len) == Okm(hmac, prk, info, longer)[..len]
  {
    var m, n := BlockCount(len), BlockCount(longer);
    BlocksPrefix(hmac, prk, info, m, n);
    var b := Blocks(hmac, prk, info, n);
    assert b[..HASH_LEN * m][..len] == b[..len] == b[..longer][..len];
  }

  /** Byte `j` of any output sits in block `j / 32 + 1`. */
  lemma {:induction false} ByteOfBlock(hmac: Hmac, prk: Hash, info: Bytes, len: nat, j: nat)
    requires j < len <= MAX_BLOCKS * HASH_LEN
    ensures Okm(hmac, prk, info, len)[j] == T(hmac, prk, info, j / HASH_LEN + 1)[j % HASH_LEN]
  {
    var i := j / HASH_LEN + 1;
    BlocksPrefix(hmac, prk, info, i, BlockCount(len));
    var b := Blocks(hmac, prk, info, BlockCount(len));
    assert b[j] == b[..HASH_LEN * i][j];
  }

  /**
    The output spelled out over the HMAC: its blocks of 32 bytes, the last one
    cut, each the HMAC of the block before, the info and the block's number,
    under the HMAC of the input key keyed with the salt (32 zeros if empty).
   */
  ghost predicate IsHkdf(hmac: Hmac, salt: Bytes, ikm: Bytes, info: Bytes, okm: Bytes) {
    var prk := hmac(if |salt| == 0 then Zeros(32) else salt, ikm);
    forall i :: 1 <= i <= 255 && 32 * (i - 1) < |okm| ==> IsBlock(hmac, prk, info, okm, i)
  }

  predicate IsBlock(hmac: Hmac, prk: Hash, info: Bytes, okm: Bytes, i: nat)
    requires 1 <= i <= 255 && 32 * (i - 1) < |okm|
  {
    var before := if i == 1 then [] else okm[32 * (i - 2)..32 * (i - 1)];
    var end := if 32 * i <= |okm| then 32 * i else |okm|;
    okm[32 * (i - 1)..end] == hmac(prk, before + info + [i])[..end - 32 * (i - 1)]
  }

  lemma BlockInOutput(hmac: Hmac, prk: Hash, info: Bytes, len: nat, i: nat, end: nat)
    requires 1 <= i && HASH_LEN * (i - 1) <= end <= HASH_LEN * i && end <= len <= MAX_BLOCKS * HASH_LEN && i <= MAX_BLOCKS
    ensures Okm(hmac, prk, info, len)[HASH_LEN * (i - 1)..end] == T(hmac, prk, info, i)[..end - HASH_LEN * (i - 1)]
  {
    hide Okm, T;
    var okm, lo := Okm(hmac, prk, info, len), HASH_LEN * (i - 1);
    forall k | 0 <= k < end - lo
      ensures okm[lo..end][k] == T(hmac, prk, info, i)[k]
    {
      ByteOfBlock(hmac, prk, info, len, lo + k);
    }
  }

  lemma OkmIsHkdf(hmac: Hmac, salt: Bytes, ikm: Bytes, info: Bytes, len: nat)
    requires len <= MAX_BLOCKS * HASH_LEN
    ensures IsHkdf(hmac, salt, ikm, info, Okm(hmac, Prk(hmac, salt, ikm), info, len))
  {
    var prk := Prk(hmac, salt, ikm);
    var okm := Okm(hmac, prk, info, len);
    hide Okm, Prk;
    forall i | 1 <= i <= 255 && 32 * (i - 1) < |okm|
      ensures IsBlock(hmac, prk, info, okm, i)
    {
      var end := if 32 * i <= |okm| then 32 * i else |okm|;
      BlockInOutput(hmac, prk, info, len, i, end);
      if i > 1 {
        BlockInOutput(hmac, prk, info, len, i - 1, 32 * (i - 1));
        assert T(hmac, prk, info, i - 1)[..32] == T(hmac, prk, info, i - 1);
      }
    }
    PrkMeans(hmac, salt, ikm);
  }

  lemma PrkMeans(hmac: Hmac, salt: Bytes, ikm: Bytes)
    ensures Prk(hmac, salt, ikm) == hmac(if |salt| == 0 then Zeros(32) else salt, ikm)
  {
  }

  /** Nothing else of that length is the output. */
  lemma {:induction false} HkdfUnique(hmac: Hmac, salt: Bytes, ikm: Bytes, info: Bytes, x: Bytes, y: Bytes, i: nat)
    requires IsHkdf(hmac, salt, ikm, info, x) && IsHkdf(hmac, salt, ikm, info, y)
    requires |x| == |y| && i <= 255 && 32 * i <= |x| + 31
    ensures var end := if 32 * i <= |x| then 32 * i else |x|; x[..end] == y[..end]
  {
    if i > 0 {
      HkdfUnique(hmac, salt, ikm, info, x, y, i - 1);
      var prk := hmac(if |salt| == 0 then Zeros(32) else salt, ikm);
      assert IsBlock(hmac, prk, info, x, i) && IsBlock(hmac, prk, info, y, i);
      var lo, end := 32 * (i - 1), if 32 * i <= |x| then 32 * i else |x|;
      assert x[..end] == x[..lo] + x[lo..end] && y[..end] == y[..lo] + y[lo..end];
      if i > 1 {
        assert x[32 * (i - 2)..lo] == x[..lo][32 * (i - 2)..] && y[32 * (i - 2)..lo] == y[..lo][32 * (i - 2)..];
      }
    }
  }
}

module HkdfObject {
  import opened Options
  import opened Words
  import opened Domain
  import opened HkdfSpec

  class Hkdf {
    const hmac: Hmac
    const info: Bytes
    const outputLen: nat
    ghost const ikm: Bytes
    ghost const salt: Bytes
    var prk: Hash
    var okm: Bytes
    var prevBlock: Bytes

    /** Untouched, or holding the whole output. */
    ghost predicate Valid()
      reads this
    {
      && prk == Prk(hmac, salt, ikm)
      && ((okm == [] && prevBlock == [])
          || (outputLen <= MAX_BLOCKS * HASH_LEN && okm == Okm(hmac, prk, info, outputLen) && |prevBlock| == HASH_LEN))
    }

    /** Reserving the output buffer bounds its length below 2^63, so the block count cannot wrap. */
    constructor (hmac: Hmac, ikm: Bytes, salt: Bytes, info: Bytes, outputLen: nat)
      requires outputLen < 0x8000_0000_0000_0000
      ensures Valid()
      ensures this.hmac == hmac && this.ikm == ikm && this.salt == salt
      ensures this.info == info && this.outputLen == outputLen
    {
      this.hmac, this.ikm, this.salt, this.info, this.outputLen := hmac, ikm, salt, info, outputLen;
      okm, prevBlock := [], [];
      if salt == [] {
        prk := hmac(ZERO_HASH, ikm);
      } else {
        prk := hmac(salt, ikm);
      }
    }

    /** Feeds previous block, info and counter byte to the HMAC, and keeps what still fits. */
    method ExpandBlock(blockIndex: nat)
      requires 1 <= blockIndex <= MAX_BLOCKS && |okm| <= outputLen
      modifies this`okm, this`prevBlock
      ensures prevBlock == hmac(prk, old(prevBlock) + info + [blockIndex])
      ensures
        var room := outputLen - |old(okm)|;
        okm == old(okm) + prevBlock[..if HASH_LEN < room then HASH_LEN else room]
    {
      var data: Bytes := [];
      if prevBlock != [] {
        data := data + prevBlock;
      }
      if info != [] {
        data := data + info;
      }
      data := data + [blockIndex % 0x100];
      assert data == prevBlock + info + [blockIndex];
      prevBlock := hmac(prk, data);
      var toCopy := if HASH_LEN < outputLen - |okm| then HASH_LEN else outputLen - |okm|;
      okm := okm + prevBlock[..toCopy];
    }

    /** The whole output, or nothing beyond 255 blocks; deriving again returns the same bytes. */
    method Derive() returns (r: Option<Bytes>)
      requires Valid()
      modifies this`okm, this`prevBlock
      ensures Valid()
      ensures r == None <==> outputLen > 8160
      ensures r.Some? ==> |r.value| == outputLen && IsHkdf(hmac, salt, ikm, info, r.value)
      ensures r == if outputLen > MAX_BLOCKS * HASH_LEN then None
                   else Some(Okm(hmac, Prk(hmac, salt, ikm), info, outputLen))
    {
      hide IsHkdf;
      if outputLen <= MAX_BLOCKS * HASH_LEN {
        OkmIsHkdf(hmac, salt, ikm, info, outputLen);
      }
      var blockCount := BlockCount(outputLen);
      if blockCount > MAX_BLOCKS {
        return None;
      }
      ghost var first := okm == [] && prevBlock == [];
      for i := 1 to blockCount + 1
        invariant first ==> prevBlock == T(hmac, prk, info, i - 1)
        invariant first ==> okm == Filled(i - 1)
        invariant !first ==> okm == Okm(hmac, prk, info, outputLen) && |prevBlock| == HASH_LEN
      {
        ExpandBlock(i);
        if first {
          FilledStep(i);
        } else {
          assert prevBlock[..0] == [];
        }
      }
      assert first ==> okm == Okm(hmac, prk, info, outputLen);
      return Some(okm);
    }

    /** The output buffer after `n` blocks. */
    ghost function Filled(n: nat): (b: Bytes)
      requires n <= BlockCount(outputLen) <= MAX_BLOCKS
      reads this`prk
      ensures |b| <= outputLen
    {
      var b := Blocks(hmac, prk, info, n);
      if |b| <= outputLen then b else b[..outputLen]
    }

    lemma FilledStep(i: nat)
      requires 1 <= i <= BlockCount(outputLen) <= MAX_BLOCKS
      ensures
        var room := outputLen - |Filled(i - 1)|;
        Filled(i) == Filled(i - 1) + T(hmac, prk, info, i)[..if HASH_LEN < room then HASH_LEN else room]
    {
    }
  }
}
