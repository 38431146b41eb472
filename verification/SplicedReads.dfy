/**
 Blocks of two objects in one: nothing stored says which object a block is from, so what is put together from
 two objects of one key, each block in its own position, reads as a mixture of the two.
 */
module SplicedReads {
  import opened Arithmetic
  import opened Bytes
  import opened Frame
  import opened BlockFrame
  import opened FrameLoops
  import opened ObjectStore
  import opened Reading
  import opened Tampering
  import opened DamagedReads
  import opened Wrappers

  /** The first of what is stored of one object, and the rest of what is stored of another. */
  function Splice(a: Sealing, b: Sealing, n: nat): Bytes
    requires n <= |a.Stored()| && n <= |b.Stored()|
  {
    a.Stored()[..n] + b.Stored()[n..]
  }

  lemma {:induction false} BodyFits(f: BlockFrame, o: Sealing, q: nat)
    requires f.cipher.Lawful() && SealedUnder(f, [o]) && Times(q, f.blockSize) <= |o.plaintext|
    ensures HEADER_LEN + Times(q, Stride(f.blockSize)) <= |o.Stored()|
    ensures q < |o.Parts()|
  {
    StoredShape(f, o);
    hide IsPowerOfTwo, PlaintextLen, Sealing.Stored, Sealing.Parts, StoredBlocks, HasHeader;
    TimesIsProduct(q, f.blockSize);
    TimesIsProduct(q, Stride(f.blockSize));
    CutShape(f, o, q);
  }

  /** A splice has the blocks of the first object before the place it is cut at, and those of the second behind it. */
  lemma {:induction false} SpliceShape(f: BlockFrame, a: Sealing, b: Sealing, q: nat, n: nat)
    requires f.cipher.Lawful() && SealedUnder(f, [a]) && SealedUnder(f, [b]) && a.sealer == b.sealer
    requires q < |a.Parts()| && q < |b.Parts()| && n == HEADER_LEN + Times(q, Stride(f.blockSize))
    requires n <= |a.Stored()| && n <= |b.Stored()|
    ensures HasHeader(f, Splice(a, b, n), a.sealer.key)
    ensures PlaintextLen(f.blockSize, |Splice(a, b, n)|) == Success(|b.plaintext|)
    ensures StoredBlocks(f, Splice(a, b, n)) == a.Parts()[..q] + b.Parts()[q..]
  {
    StoredShape(f, a);
    StoredShape(f, b);
    hide IsPowerOfTwo, PlaintextLen, Sealing.Stored, Sealing.Parts, Sealer.Header;
    var c, x, y := Splice(a, b, n), a.Stored(), b.Stored();
    var size := Stride(f.blockSize);
    assert c[..HEADER_LEN] == x[..HEADER_LEN] && |c| == |y|;
    assert c[HEADER_LEN..][..n - HEADER_LEN] == x[HEADER_LEN..][..n - HEADER_LEN];
    assert c[HEADER_LEN..][n - HEADER_LEN..] == y[HEADER_LEN..][n - HEADER_LEN..];
    SplicePieces(x[HEADER_LEN..], y[HEADER_LEN..], c[HEADER_LEN..], size, q);
  }

  lemma {:induction false} SplicePieces(x: Bytes, y: Bytes, c: Bytes, size: BlockLen, q: nat)
    requires q <= |Pieces(x, size)| && Times(q, size) <= |x| && Times(q, size) <= |y| && Times(q, size) <= |c|
    requires c[..Times(q, size)] == x[..Times(q, size)] && c[Times(q, size)..] == y[Times(q, size)..]
    ensures q <= |Pieces(y, size)|
    ensures Pieces(c, size) == Pieces(x, size)[..q] + Pieces(y, size)[q..]
  {
    PiecesTake(x, size, q);
    PiecesTake(c, size, q);
    PiecesDrop(y, size, q);
    PiecesDrop(c, size, q);
    hide Pieces, Times;
    assert Pieces(c, size) == Pieces(c, size)[..q] + Pieces(c, size)[q..];
  }

  /** A run of blocks that belong to one object holds a slice of its plaintext. */
  lemma {:induction false} RunOfOne(f: BlockFrame, o: Sealing, c: Bytes, length: nat, first: nat, last: nat)
    requires f.cipher.Lawful() && SealedUnder(f, [o])
    requires PlaintextLen(f.blockSize, |c|) == Success(length)
    requires first < last && RunBelongs([o], o.sealer, StoredBlocks(f, c), first, last)
    requires Times(first, f.blockSize) < Min(Times(last, f.blockSize), length)
    ensures RunAuthentic(o.sealer, StoredBlocks(f, c), first, last)
    ensures var from, to := Times(first, f.blockSize), Min(Times(last, f.blockSize), length);
            to <= |o.plaintext| && RunHolds(o.sealer, StoredBlocks(f, c), first, last) == o.plaintext[from..to]
  {
    assert o in [o];
    LengthAccepted(f.blockSize, |c|);
    hide IsPowerOfTwo, PlaintextLen, StoredBlocks, RunBelongs, RunAuthentic, RunHolds, AllBytesFrom, Times;
    RunBytes(f, [o], o.sealer.key, c, first, last);
    RunLength(f, o.sealer.key, c, length, first, last);
    var from, to := Times(first, f.blockSize), Min(Times(last, f.blockSize), length);
    BytesOfOne(o, o.sealer, Range(from, to), RunHolds(o.sealer, StoredBlocks(f, c), first, last));
  }

  lemma {:induction false} PartsBelong(o: Sealing, stored: seq<Bytes>, first: nat, last: nat)
    requires first <= last <= |stored| && last <= |o.Parts()| && stored[first..last] == o.Parts()[first..last]
    ensures RunBelongs([o], o.sealer, stored, first, last)
  {
    hide Sealing.Parts;
    forall i | first <= i < last
      ensures Belongs([o], o.sealer, stored[i], i)
    {
      assert stored[i] == stored[first..last][i - first] == o.Parts()[i];
      assert o in [o];
    }
  }

  /** The run of blocks that a get of the whole opens holds the beginning of one object and the end of the other. */
  lemma {:induction false} SpliceHolds(
    f: BlockFrame, a: Sealing, b: Sealing, c: Bytes, q: nat, last: nat)
    requires f.cipher.Lawful() && SealedUnder(f, [a]) && SealedUnder(f, [b]) && a.sealer == b.sealer
    requires PlaintextLen(f.blockSize, |c|) == Success(|b.plaintext|) && |c| >= HEADER_LEN
    requires 0 < q <= last && Times(q, f.blockSize) > 0
    requires Times(q, f.blockSize) <= |a.plaintext| && Times(q, f.blockSize) <= |b.plaintext|
    requires |b.plaintext| <= Times(last, f.blockSize)
    requires q < last ==> Times(q, f.blockSize) < |b.plaintext|
    requires RunBelongs([a], a.sealer, StoredBlocks(f, c), 0, q)
    requires RunBelongs([b], a.sealer, StoredBlocks(f, c), q, last)
    ensures RunAuthentic(a.sealer, StoredBlocks(f, c), 0, last)
    ensures RunHolds(a.sealer, StoredBlocks(f, c), 0, last)
         == a.plaintext[..Times(q, f.blockSize)] + b.plaintext[Times(q, f.blockSize)..]
  {
    var stored, n := StoredBlocks(f, c), Times(q, f.blockSize);
    assert Times(0, f.blockSize) == 0 && last <= |stored| && Min(n, |b.plaintext|) == n;
    hide *;
    RunOfOne(f, a, c, |b.plaintext|, 0, q);
    assert a.plaintext[0..n] == a.plaintext[..n];
    RestHolds(f, b, c, q, last);
    RunsJoin(a.sealer, stored, 0, q, last);
    RunHoldsSplits(a.sealer, stored, 0, q, last);
  }

  lemma EndHolds(reader: Sealer, stored: seq<Bytes>, q: nat, data: Bytes, n: nat)
    requires q <= |stored| && n == |data|
    ensures RunHolds(reader, stored, q, q) == data[n..]
  {
    NothingHeld(reader, stored, q);
    hide *;
  }

  /** What is left of the run, if anything is, holds the end of the second object. */
  lemma {:induction false} RestHolds(f: BlockFrame, b: Sealing, c: Bytes, q: nat, last: nat)
    requires f.cipher.Lawful() && SealedUnder(f, [b])
    requires PlaintextLen(f.blockSize, |c|) == Success(|b.plaintext|)
    requires q <= last <= |StoredBlocks(f, c)| && Times(q, f.blockSize) <= |b.plaintext| <= Times(last, f.blockSize)
    requires q < last ==> Times(q, f.blockSize) < |b.plaintext|
    requires RunBelongs([b], b.sealer, StoredBlocks(f, c), q, last)
    ensures q < last ==> RunAuthentic(b.sealer, StoredBlocks(f, c), q, last)
    ensures RunHolds(b.sealer, StoredBlocks(f, c), q, last) == b.plaintext[Times(q, f.blockSize)..]
  {
    var n := Times(q, f.blockSize);
    assert Min(Times(last, f.blockSize), |b.plaintext|) == |b.plaintext|;
    hide *;
    if q < last {
      RunOfOne(f, b, c, |b.plaintext|, q, last);
      assert b.plaintext[n..|b.plaintext|] == b.plaintext[n..];
    } else {
      EndHolds(b.sealer, StoredBlocks(f, c), q, b.plaintext, n);
    }
  }

  lemma RunsJoin(reader: Sealer, stored: seq<Bytes>, first: nat, q: nat, last: nat)
    requires RunAuthentic(reader, stored, first, q) && q <= last <= |stored|
    requires q < last ==> RunAuthentic(reader, stored, q, last)
    ensures RunAuthentic(reader, stored, first, last)
  {
    hide Authentic;
  }

  /** A get of the whole of a splice opens blocks that all belong to one of the two objects. */
  lemma {:induction false} SpliceBelongs(
    f: BlockFrame, a: Sealing, b: Sealing, n: nat, q: nat, last: nat)
    requires f.cipher.Lawful() && SealedUnder(f, [a]) && SealedUnder(f, [b]) && a.sealer == b.sealer
    requires q < |a.Parts()| && q < |b.Parts()| && n == HEADER_LEN + Times(q, Stride(f.blockSize))
    requires n <= |a.Stored()| && n <= |b.Stored()|
    requires q <= last <= |b.Parts()|
    ensures |StoredBlocks(f, Splice(a, b, n))| == |b.Parts()|
    ensures RunBelongs([a], a.sealer, StoredBlocks(f, Splice(a, b, n)), 0, q)
    ensures RunBelongs([b], a.sealer, StoredBlocks(f, Splice(a, b, n)), q, last)
  {
    SpliceShape(f, a, b, q, n);
    hide *;
    var stored := StoredBlocks(f, Splice(a, b, n));
    assert stored[0..q] == a.Parts()[0..q];
    assert stored[q..last] == b.Parts()[q..last];
    PartsBelong(a, stored, 0, q);
    PartsBelong(b, stored, q, last);
  }

  /** The blocks that a length meets reach to its end, and past any place before it. */
  lemma {:induction false} LastMet(block: BlockLen, length: nat, q: nat)
    requires q * block <= length
    ensures var last := EndMet(block, Range(0, length));
            && q <= last <= length / block + 1 && length <= last * block
            && (q < last ==> q * block < length)
  {
    WholeMeets(block, length);
    var d, r, last := length / block, length % block, EndMet(block, Range(0, length));
    assert length == d * block + r;
    DivBelow(length, block, q);
    hide EndMet;
    MulMonotone(q, d, block);
    if r > 0 {
      assert last == d + 1 && last * block == d * block + block;
    } else if q < d {
      MulMonotone(q + 1, d, block);
      assert (q + 1) * block == q * block + block;
    }
  }

  lemma {:induction false} SpliceGets(f: BlockFrame, a: Sealing, b: Sealing, c: Bytes, q: nat, last: nat)
    requires f.cipher.Lawful() && SealedUnder(f, [a]) && SealedUnder(f, [b]) && a.sealer == b.sealer
    requires HasHeader(f, c, a.sealer.key)
    requires PlaintextLen(f.blockSize, |c|) == Success(|b.plaintext|)
    requires last == EndMet(f.blockSize, Range(0, |b.plaintext|)) && last <= |StoredBlocks(f, c)|
    requires 0 < q <= last && 0 < Times(q, f.blockSize)
    requires Times(q, f.blockSize) <= |a.plaintext| && Times(q, f.blockSize) <= |b.plaintext|
    requires |b.plaintext| <= Times(last, f.blockSize)
    requires q < last ==> Times(q, f.blockSize) < |b.plaintext|
    requires RunBelongs([a], a.sealer, StoredBlocks(f, c), 0, q)
    requires RunBelongs([b], a.sealer, StoredBlocks(f, c), q, last)
    ensures SealedRead(f, c, None, false)
         == Success(Got(a.plaintext[..Times(q, f.blockSize)] + b.plaintext[Times(q, f.blockSize)..],
                        Range(0, |b.plaintext|), |b.plaintext|))
  {
    var length, wanted := |b.plaintext|, Range(0, |b.plaintext|);
    assert a in [a];
    HeaderIsHeld(f, c, a.sealer.key);
    SpliceHolds(f, a, b, c, q, last);
    WholeWanted(f.blockSize, length);
    WholeMeets(f.blockSize, length);
    assert Times(0, f.blockSize) == 0;
    hide Times, StoredBlocks, RunBelongs, PlaintextLen, IsPowerOfTwo, RunAuthentic, RunHolds, WantedRange, SealedRead;
    hide FirstMet, EndMet, HasHeader;
    GetOpensRun(f, c, None, length, a.sealer.key, 0, last);
    var holds := RunHolds(a.sealer, StoredBlocks(f, c), 0, last);
    assert holds[0..length] == holds;
  }

  lemma {:induction false} SpliceReads(f: BlockFrame, a: Sealing, b: Sealing, q: nat, n: nat, m: nat)
    requires f.cipher.Lawful() && SealedUnder(f, [a]) && SealedUnder(f, [b]) && a.sealer == b.sealer
    requires n == HEADER_LEN + Times(q, Stride(f.blockSize)) && m == Times(q, f.blockSize)
    requires q >= 1 && 0 < m <= |a.plaintext| && m <= |b.plaintext|
    ensures n <= |a.Stored()| && n <= |b.Stored()|
    ensures SealedRead(f, Splice(a, b, n), None, false)
         == Success(Got(a.plaintext[..m] + b.plaintext[m..], Range(0, |b.plaintext|), |b.plaintext|))
  {
    BodyFits(f, a, q);
    BodyFits(f, b, q);
    var last := EndMet(f.blockSize, Range(0, |b.plaintext|));
    TimesIsProduct(q, f.blockSize);
    LastMet(f.blockSize, |b.plaintext|, q);
    TimesIsProduct(last, f.blockSize);
    StoredShape(f, b);
    hide *;
    SpliceShape(f, a, b, q, n);
    SpliceBelongs(f, a, b, n, q, last);
    SpliceGets(f, a, b, Splice(a, b, n), q, last);
  }

  /**
   The first `q` blocks of one object in front of the later blocks of another that the same key sealed read as
   the first `q` blocks' worth of the one plaintext and the rest of the other.
   */
  lemma {:induction false} SpliceIsRead(f: BlockFrame, a: Sealing, b: Sealing, q: nat)
    requires f.cipher.Lawful() && SealedUnder(f, [a]) && SealedUnder(f, [b]) && a.sealer == b.sealer
    requires q >= 1 && q * f.blockSize <= |a.plaintext| && q * f.blockSize <= |b.plaintext|
    ensures HEADER_LEN + q * Stride(f.blockSize) <= |a.Stored()|
    ensures HEADER_LEN + q * Stride(f.blockSize) <= |b.Stored()|
    ensures SealedRead(f, Splice(a, b, HEADER_LEN + q * Stride(f.blockSize)), None, false)
         == Success(Got(a.plaintext[..q * f.blockSize] + b.plaintext[q * f.blockSize..],
                        Range(0, |b.plaintext|), |b.plaintext|))
  {
    TimesIsProduct(q, Stride(f.blockSize));
    TimesIsProduct(q, f.blockSize);
    MulMonotone(1, q, f.blockSize);
    hide *;
    SpliceReads(f, a, b, q, HEADER_LEN + q * Stride(f.blockSize), q * f.blockSize);
  }
}
