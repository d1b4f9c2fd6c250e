/** Disk blocks: 512 bytes, read either as bytes or, in little-endian order, as 128 words of 32 bits
    (index blocks and inodes) or 64 words of 64 bits (bitmaps). */
module Blocks {
  import opened Bits

  newtype byte = x: int | 0 <= x < 256

  type Block = b: seq<byte> | |b| == 512 witness seq(512, _ => 0)

  function ZeroBlock(): (b: Block)
    ensures forall i | 0 <= i < 512 :: b[i] == 0
  {
    seq(512, _ => 0)
  }

  const WORD_LIMIT: nat := 0x1_0000_0000

  function Word(b: Block, i: nat): (w: nat)
    requires i < 128
    ensures w < WORD_LIMIT
  {
    var p := 4 * i;
    b[p] as nat + 0x100 * (b[p + 1] as nat) + 0x1_0000 * (b[p + 2] as nat) + 0x100_0000 * (b[p + 3] as nat)
  }

  /** Byte `k` of the little-endian form of `v`. */
  function WordByte(v: nat, k: nat): byte {
    if k == 0 then (v % 256) as byte
    else if k == 1 then (v / 0x100 % 256) as byte
    else if k == 2 then (v / 0x1_0000 % 256) as byte
    else (v / 0x100_0000 % 256) as byte
  }

  /** Word `i` reads back as `v`, and every other word as before. */
  function SetWord(b: Block, i: nat, v: nat): (r: Block)
    requires i < 128 && v < WORD_LIMIT
    ensures forall j: nat | j < 128 :: Word(r, j) == if j == i then v else Word(b, j)
  {
    var r := seq(512, k requires 0 <= k < 512 => if k / 4 == i then WordByte(v, k % 4) else b[k]);
    SetWordReads(b, i, v, r);
    r
  }

  lemma SetWordReads(b: Block, i: nat, v: nat, r: Block)
    requires i < 128 && v < WORD_LIMIT
    requires forall k | 0 <= k < 512 :: r[k] == if k / 4 == i then WordByte(v, k % 4) else b[k]
    ensures forall j: nat | j < 128 :: Word(r, j) == if j == i then v else Word(b, j)
  {
    forall j: nat | j < 128 ensures Word(r, j) == if j == i then v else Word(b, j) {
      forall t: nat | t < 4 ensures r[4 * j + t] == if j == i then WordByte(v, t) else b[4 * j + t] {
        assert (4 * j + t) / 4 == j && (4 * j + t) % 4 == t;
      }
      SetWordReadsOne(b, i, v, r, j);
    }
  }

  lemma SetWordReadsOne(b: Block, i: nat, v: nat, r: Block, j: nat)
    requires i < 128 && v < WORD_LIMIT && j < 128
    requires forall t: nat | t < 4 :: r[4 * j + t] == if j == i then WordByte(v, t) else b[4 * j + t]
    ensures Word(r, j) == if j == i then v else Word(b, j)
  {
    WordOfBytes(v);
    assert r[4 * j + 0] == r[4 * j];
  }

  lemma WordOfBytes(v: nat)
    requires v < WORD_LIMIT
    ensures v == WordByte(v, 0) as nat + 0x100 * (WordByte(v, 1) as nat) + 0x1_0000 * (WordByte(v, 2) as nat)
                 + 0x100_0000 * (WordByte(v, 3) as nat)
  {
    assert v / 0x1_0000 == v / 0x100 / 0x100 && v / 0x100_0000 == v / 0x1_0000 / 0x100;
  }

  lemma ZeroBlockWords(i: nat)
    requires i < 128
    ensures Word(ZeroBlock(), i) == 0
  {
  }

  /** `b` with `s` copied over it from byte `off`. */
  function SetBytes(b: Block, off: nat, s: seq<byte>): (r: Block)
    requires off + |s| <= 512
    ensures forall k | 0 <= k < 512 :: r[k] == if off <= k < off + |s| then s[k - off] else b[k]
  {
    b[..off] + s + b[off + |s|..]
  }

  /** Word `i` of a block read as 64 words of 64 bits. */
  function Word64(b: Block, i: nat): (w: nat)
    requires i < 64
    ensures w < Pow2(64)
  {
    Pow2Of64();
    Word(b, 2 * i) + WORD_LIMIT * Word(b, 2 * i + 1)
  }

  lemma Pow2Of64()
    ensures Pow2(64) == WORD_LIMIT * WORD_LIMIT
  {
    assert Pow2(16) == 0x1_0000 by { assert Pow2(8) == 0x100; Pow2Add(8, 8); }
    Pow2Add(16, 16);
    Pow2Add(32, 32);
  }

  function SetWord64(b: Block, i: nat, v: nat): (r: Block)
    requires i < 64 && v < Pow2(64)
    ensures forall j: nat | j < 64 :: Word64(r, j) == if j == i then v else Word64(b, j)
  {
    Pow2Of64();
    SetWord(SetWord(b, 2 * i, v % WORD_LIMIT), 2 * i + 1, v / WORD_LIMIT)
  }

  lemma ZeroBlockWords64(i: nat)
    requires i < 64
    ensures Word64(ZeroBlock(), i) == 0
  {
    ZeroBlockWords(2 * i);
    ZeroBlockWords(2 * i + 1);
  }
}
