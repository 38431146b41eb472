/**
 The layout of a sealed object: thirteen bytes of header, then blocks of one size, the last one short. Lengths
 and offsets follow from the plaintext's length and the block size alone.
 */
module Frame {
  import opened Aead
  import opened Arithmetic
  import opened Bytes
  import opened Wrappers

  /** "EULE". */
  const MAGIC: Bytes := [0x45, 0x55, 0x4C, 0x45]
  const VERSION: byte := 2
  const HEADER_LEN: nat := 13
  const BLOCK_OVERHEAD: nat := 28

  const MIN_BLOCK: nat := 64
  const MAX_BLOCK: nat := 0x10_0000

  type KeyId = n: nat | n < 0x1_0000_0000

  /** The first draw of a random source, the second, and so on: the i-th block takes the i-th. */
  type Draws = nat -> Nonce

  datatype FrameError =
    | Authentication(block: nat)
    | Truncated
    | NotFramed
    | UnsupportedVersion(found: byte)
    | BlockSizeMismatch(declared: nat, configured: nat)
    | UnknownKey(key: KeyId)
    | UnsupportedBlockSize(given: nat)
    | RangeOutsideObject

  predicate IsPowerOfTwo(n: nat) {
    n == 1 || (n > 0 && n % 2 == 0 && IsPowerOfTwo(n / 2))
  }

  type BlockSize = n: nat | MIN_BLOCK <= n <= MAX_BLOCK && IsPowerOfTwo(n) witness 64

  function NewBlockSize(bytes: nat): (r: Result<BlockSize, FrameError>) {
    if MIN_BLOCK <= bytes <= MAX_BLOCK && IsPowerOfTwo(bytes) then Success(bytes)
    else Failure(UnsupportedBlockSize(bytes))
  }

  function Pow2(e: nat): (p: nat)
    ensures p > 0
  {
    if e == 0 then 1 else 2 * Pow2(e - 1)
  }

  lemma {:induction false} Pow2Monotone(d: nat, e: nat)
    requires d <= e
    ensures Pow2(d) <= Pow2(e)
  {
    if d < e {
      Pow2Monotone(d, e - 1);
    }
  }

  lemma {:induction false} PowerOfTwoIsPow2(n: nat) returns (e: nat)
    requires IsPowerOfTwo(n)
    ensures n == Pow2(e)
  {
    if n == 1 {
      e := 0;
    } else {
      var d := PowerOfTwoIsPow2(n / 2);
      e := d + 1;
    }
  }

  lemma {:induction false} Pow2IsPowerOfTwo(e: nat)
    ensures IsPowerOfTwo(Pow2(e))
  {
    if e > 0 {
      Pow2IsPowerOfTwo(e - 1);
      assert Pow2(e) / 2 == Pow2(e - 1);
    }
  }

  /** Exactly the fifteen powers of two from 2^6 to 2^20 are block sizes. */
  lemma {:induction false} BlockSizesAccepted(bytes: nat)
    ensures NewBlockSize(bytes).Success? <==> exists e :: 6 <= e <= 20 && bytes == Pow2(e)
  {
    assert Pow2(6) == 64 by {
      assert Pow2(3) == 8;
      assert Pow2(5) == 32;
    }
    assert Pow2(20) == 0x10_0000 by {
      assert Pow2(8) == 256;
      assert Pow2(10) == 1024;
      assert Pow2(12) == 4096;
      assert Pow2(14) == 4 * Pow2(12);
      assert Pow2(16) == 4 * Pow2(14);
      assert Pow2(18) == 4 * Pow2(16);
    }
    if NewBlockSize(bytes).Success? {
      var e := PowerOfTwoIsPow2(bytes);
      if e < 6 {
        Pow2Monotone(e, 5);
      } else if e > 20 {
        Pow2Monotone(21, e);
      }
      assert 6 <= e <= 20 && bytes == Pow2(e);
    }
    if e :| 6 <= e <= 20 && bytes == Pow2(e) {
      Pow2IsPowerOfTwo(e);
      Pow2Monotone(6, e);
      Pow2Monotone(e, 20);
    }
  }

  /** The version, the key, the block's index and whether it is the last: what a block's tag covers. */
  function AssociatedData(key: KeyId, index: nat, final: bool): (ad: Bytes)
    ensures |ad| == AD_LEN
  {
    [VERSION] + LittleEndian(key, 4) + LittleEndian(index, 8) + [if final then 1 else 0]
  }

  /** No two blocks share their associated data, as long as indices fit in eight bytes. */
  lemma {:induction false} AssociatedDataInjective(k: KeyId, i: nat, f: bool, l: KeyId, j: nat, g: bool)
    requires i < Pow256(8) && j < Pow256(8)
    requires AssociatedData(k, i, f) == AssociatedData(l, j, g)
    ensures k == l && i == j && f == g
  {
    var a, b := AssociatedData(k, i, f), AssociatedData(l, j, g);
    assert a[1..5] == LittleEndian(k, 4) && b[1..5] == LittleEndian(l, 4);
    assert a[5..13] == LittleEndian(i, 8) && b[5..13] == LittleEndian(j, 8);
    assert a[13] == (if f then 1 else 0) && b[13] == (if g then 1 else 0);
    Pow256Values();
    LittleEndianReads(k, 4);
    LittleEndianReads(l, 4);
    LittleEndianReads(i, 8);
    LittleEndianReads(j, 8);
  }

  /** A half-open range of positions. */
  datatype Range = Range(start: nat, end: nat)

  /** Any positive number of plaintext bytes per block: what the length arithmetic needs. */
  type BlockLen = n: nat | n > 0 witness 1

  // ---------------------------------------------------------------- lengths and offsets

  function Stride(block: BlockLen): BlockLen {
    block + BLOCK_OVERHEAD
  }

  /** How many blocks an object holds: the full ones and the short one that ends it. */
  function BlockCount(block: BlockLen, plaintextLen: nat): nat {
    plaintextLen / block + 1
  }

  function CiphertextLen(block: BlockLen, plaintextLen: nat): nat {
    HEADER_LEN + (plaintextLen / block) * Stride(block) + (plaintextLen % block + BLOCK_OVERHEAD)
  }

  function PlaintextLen(block: BlockLen, ciphertextLen: nat): (r: Result<nat, FrameError>) {
    if ciphertextLen < HEADER_LEN then Failure(Truncated)
    else
      var body := ciphertextLen - HEADER_LEN;
      var full := body / Stride(block);
      var remainder := body % Stride(block);
      if remainder < BLOCK_OVERHEAD then Failure(Truncated)
      else Success(full * block + (remainder - BLOCK_OVERHEAD))
  }

  function BlockStart(block: BlockLen, i: nat): nat {
    HEADER_LEN + i * Stride(block)
  }

  function CiphertextSpan(block: BlockLen, plaintext: Range, plaintextTotal: nat): (r: Range)
    ensures r.start <= r.end
  {
    var first := plaintext.start / block;
    var last := Max(DivCeil(plaintext.end, block), first + 1);
    var start := BlockStart(block, first);
    var end := Min(BlockStart(block, last), CiphertextLen(block, plaintextTotal));
    Range(start, Max(end, start))
  }

  lemma {:induction false} PlaintextLenOfCiphertextLen(block: BlockLen, n: nat)
    ensures PlaintextLen(block, CiphertextLen(block, n)) == Success(n)
  {
    var q, r := n / block, n % block;
    MulMonotone(0, q, Stride(block));
    assert CiphertextLen(block, n) - HEADER_LEN == q * Stride(block) + (r + BLOCK_OVERHEAD);
    DivModUnique(q * Stride(block) + (r + BLOCK_OVERHEAD), q, r + BLOCK_OVERHEAD, Stride(block));
    hide CiphertextLen;
    assert q * block + r == n;
  }

  lemma {:induction false} CiphertextLenOfPlaintextLen(block: BlockLen, c: nat)
    requires PlaintextLen(block, c).Success?
    ensures CiphertextLen(block, PlaintextLen(block, c).value) == c
  {
    var full, remainder := (c - HEADER_LEN) / Stride(block), (c - HEADER_LEN) % Stride(block);
    DivModUnique(full * block + (remainder - BLOCK_OVERHEAD), full, remainder - BLOCK_OVERHEAD, block);
  }

  /** The two length functions are inverse to each other, on all sizes and on no others. */
  lemma {:induction false} LengthsInverse(block: BlockLen, c: nat, n: nat)
    ensures PlaintextLen(block, c) == Success(n) <==> c == CiphertextLen(block, n)
  {
    hide CiphertextLen, PlaintextLen;
    PlaintextLenOfCiphertextLen(block, n);
    if PlaintextLen(block, c).Success? {
      CiphertextLenOfPlaintextLen(block, c);
    }
  }

  /** A size is refused exactly when no object has it, and then as truncated. */
  lemma {:induction false} LengthsRefused(block: BlockLen, c: nat)
    ensures PlaintextLen(block, c).Failure? ==> PlaintextLen(block, c).error == Truncated
    ensures PlaintextLen(block, c).Failure? <==> forall n: nat :: c != CiphertextLen(block, n)
  {
    forall n: nat
      ensures PlaintextLen(block, c) == Success(n) <==> c == CiphertextLen(block, n)
    {
      LengthsInverse(block, c, n);
    }
  }

  /** An accepted size leaves room for the short block that ends every object. */
  lemma LengthAccepted(block: BlockLen, c: nat)
    requires PlaintextLen(block, c).Success?
    ensures c >= HEADER_LEN && (c - HEADER_LEN) % Stride(block) >= BLOCK_OVERHEAD
  {}

  /** The overhead of a size, without its remainder. */
  lemma {:induction false} CiphertextLenSum(block: BlockLen, n: nat)
    ensures CiphertextLen(block, n) == HEADER_LEN + n + BlockCount(block, n) * BLOCK_OVERHEAD
  {
    var q := n / block;
    assert q * Stride(block) == q * block + q * BLOCK_OVERHEAD;
  }

  lemma {:induction false} CiphertextLenIncreasing(block: BlockLen, m: nat, n: nat)
    requires m < n
    ensures CiphertextLen(block, m) < CiphertextLen(block, n)
  {
    CiphertextLenSum(block, m);
    CiphertextLenSum(block, n);
    DivMonotone(m, n, block);
  }

  /** Below 2^63 nothing the length arithmetic computes leaves 64 bits. */
  lemma {:induction false} CiphertextLenFits(block: BlockLen, n: nat)
    requires block >= MIN_BLOCK && n < 0x8000_0000_0000_0000
    ensures CiphertextLen(block, n) < 0x1_0000_0000_0000_0000
  {
    CiphertextLenSum(block, n);
    hide CiphertextLen, Stride;
    var q := n / block;
    MulMonotone(MIN_BLOCK, block, q);
    assert MIN_BLOCK * q <= n by {
      assert n == q * block + n % block;
    }
    assert BlockCount(block, n) == q + 1;
  }

  function BlockEnd(block: BlockLen, total: nat, i: nat): int {
    Min(BlockStart(block, i + 1), CiphertextLen(block, total))
  }

  /** Whether a plaintext range meets a block. */
  predicate BlockMeets(block: BlockLen, wanted: Range, i: nat) {
    i * block < wanted.end && wanted.start < (i + 1) * block
  }

  /** A range meets the blocks from its first byte's to its last byte's. */
  lemma {:induction false} MeetsExactly(block: BlockLen, wanted: Range, i: nat)
    requires wanted.start < wanted.end
    ensures BlockMeets(block, wanted, i)
       <==> wanted.start / block <= i < DivCeil(wanted.end, block)
  {
    DivCeilPrevious(wanted.end, block);
    DivBelow(wanted.start, block, i + 1);
    DivBelow(wanted.end - 1, block, i);
  }

  lemma {:induction false} BlockStartNext(block: BlockLen, i: nat)
    ensures BlockStart(block, i + 1) == BlockStart(block, i) + Stride(block)
  {
    assert (i + 1) * Stride(block) == i * Stride(block) + Stride(block);
  }

  lemma {:induction false} BlockStartMonotone(block: BlockLen, i: nat, j: nat)
    requires i <= j
    ensures BlockStart(block, i) <= BlockStart(block, j)
  {
    MulMonotone(i, j, Stride(block));
  }

  /** Only the last block of an object ends before its full length. */
  lemma {:induction false} BlockEnds(block: BlockLen, total: nat, i: nat)
    requires i < BlockCount(block, total)
    ensures BlockStart(block, i) + BLOCK_OVERHEAD <= BlockEnd(block, total, i)
    ensures i < total / block ==> BlockEnd(block, total, i) == BlockStart(block, i + 1)
    ensures i == total / block ==> BlockEnd(block, total, i) == CiphertextLen(block, total)
  {
    BlockStartNext(block, i);
    var n := total / block;
    assert CiphertextLen(block, total) == BlockStart(block, n) + total % block + BLOCK_OVERHEAD;
    BlockStartMonotone(block, i, n);
    if i < n {
      BlockStartMonotone(block, i + 1, n);
    }
  }

  /** Block starts and block ends both grow with the index. */
  lemma {:induction false} BlocksOrdered(block: BlockLen, total: nat, i: nat, j: nat)
    requires i < j < BlockCount(block, total)
    ensures BlockStart(block, i) < BlockStart(block, j)
    ensures BlockEnd(block, total, i) < BlockEnd(block, total, j)
  {
    BlockEnds(block, total, i);
    BlockEnds(block, total, j);
    BlockStartNext(block, i);
    BlockStartMonotone(block, i + 1, j);
  }

  /** The span of a range that starts inside the object lies inside what is stored. */
  lemma {:induction false} SpanInside(block: BlockLen, wanted: Range, total: nat)
    requires wanted.start <= wanted.end && wanted.start <= total
    ensures var first := wanted.start / block;
            var last := Max(DivCeil(wanted.end, block), first + 1);
            CiphertextSpan(block, wanted, total)
              == Range(BlockStart(block, first), Min(BlockStart(block, last), CiphertextLen(block, total)))
    ensures (CiphertextSpan(block, wanted, total).start - HEADER_LEN) / Stride(block) == wanted.start / block
    ensures (CiphertextSpan(block, wanted, total).start - HEADER_LEN) % Stride(block) == 0
  {
    var first := wanted.start / block;
    DivMonotone(wanted.start, total, block);
    BlockEnds(block, total, first);
    BlockStartMonotone(block, first, Max(DivCeil(wanted.end, block), first + 1));
    DivModUnique(first * Stride(block), first, 0, Stride(block));
  }

  lemma {:induction false} RangeInBlocks(block: BlockLen, wanted: Range, total: nat)
    requires wanted.start < wanted.end <= total
    ensures 0 <= wanted.start / block <= DivCeil(wanted.end, block) - 1 < BlockCount(block, total)
  {
    DivCeilPrevious(wanted.end, block);
    DivMonotone(0, wanted.start, block);
    DivMonotone(wanted.start, wanted.end - 1, block);
    DivMonotone(wanted.end - 1, total, block);
  }

  /** A non-empty range inside the object is fetched from its first block to its last. */
  lemma {:induction false} SpanBlocks(block: BlockLen, wanted: Range, total: nat)
    requires wanted.start < wanted.end <= total
    ensures var first, last := wanted.start / block, DivCeil(wanted.end, block) - 1;
            && 0 <= first <= last < BlockCount(block, total)
            && CiphertextSpan(block, wanted, total)
               == Range(BlockStart(block, first), BlockEnd(block, total, last))
  {
    var first, last := wanted.start / block, DivCeil(wanted.end, block) - 1;
    RangeInBlocks(block, wanted, total);
    hide DivCeil, CiphertextLen, BlockStart, BlockCount;
    BlockEnds(block, total, last);
    BlockStartMonotone(block, first, last);
  }

  /**
   For a non-empty range inside the object the span is the smallest one possible: it holds whole
   exactly the blocks that meet the range, and it starts and ends at one of them.
   */
  lemma {:induction false} SpanIsMinimal(block: BlockLen, wanted: Range, total: nat)
    requires wanted.start < wanted.end <= total
    ensures var span := CiphertextSpan(block, wanted, total);
            && span.end <= CiphertextLen(block, total)
            && (forall i: nat :: i < BlockCount(block, total) ==>
                  (BlockMeets(block, wanted, i)
                   <==> span.start <= BlockStart(block, i) && BlockEnd(block, total, i) <= span.end))
            && (exists i: nat :: BlockMeets(block, wanted, i) && span.start == BlockStart(block, i))
            && (exists i: nat :: BlockMeets(block, wanted, i) && span.end == BlockEnd(block, total, i))
  {
    SpanBlocks(block, wanted, total);
    var span := CiphertextSpan(block, wanted, total);
    var first, last := wanted.start / block, DivCeil(wanted.end, block) - 1;
    forall i: nat | i < BlockCount(block, total)
      ensures BlockMeets(block, wanted, i)
         <==> span.start <= BlockStart(block, i) && BlockEnd(block, total, i) <= span.end
    {
      MeetsExactly(block, wanted, i);
      if i < first {
        BlocksOrdered(block, total, i, first);
      } else {
        BlockStartMonotone(block, first, i);
      }
      if last < i {
        BlocksOrdered(block, total, last, i);
      } else if i < last {
        BlocksOrdered(block, total, i, last);
      }
    }
    MeetsExactly(block, wanted, first);
    MeetsExactly(block, wanted, last);
    assert BlockMeets(block, wanted, first) && span.start == BlockStart(block, first);
    assert BlockMeets(block, wanted, last) && span.end == BlockEnd(block, total, last);
  }

  /** A range read fetches at most one block more than its length needs. */
  lemma {:induction false} SpanBlockBound(block: BlockLen, wanted: Range, total: nat)
    requires wanted.start < wanted.end <= total
    ensures CiphertextSpan(block, wanted, total).end - CiphertextSpan(block, wanted, total).start
         <= (DivCeil(wanted.end - wanted.start, block) + 1) * Stride(block)
  {
    SpanBlocks(block, wanted, total);
    PiecesCovering(wanted.start, wanted.end, block);
    var first, count := wanted.start / block, DivCeil(wanted.end, block) - wanted.start / block;
    assert (first + count) * Stride(block) == first * Stride(block) + count * Stride(block);
    MulMonotone(count, DivCeil(wanted.end - wanted.start, block) + 1, Stride(block));
  }
}
