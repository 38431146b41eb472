/**
 What an object opens as when no block in it is forged: at every position the block of that position from
 some object that its key sealed, and not of one object throughout.
 */
module Tampering {
  import opened Aead
  import opened Arithmetic
  import opened Bytes
  import opened Frame
  import opened BlockFrame
  import opened FrameLoops
  import opened Reading
  import opened Wrappers

  /** The stored blocks of an object, one by one. */
  function Blocks(s: Sealer, plaintext: Bytes, index: nat, draws: Draws): (blocks: seq<Bytes>)
    ensures blocks != []
    decreases |plaintext|
  {
    if |plaintext| < s.block then [s.Block(index, true, plaintext, draws(index))]
    else
      [s.Block(index, false, plaintext[..s.block], draws(index))]
      + Blocks(s, plaintext[s.block..], index + 1, draws)
  }

  /** An object that was sealed: by what, from what, and with which nonces. */
  datatype Sealing = Sealing(sealer: Sealer, plaintext: Bytes, draws: Draws) {
    function Parts(): (parts: seq<Bytes>)
      ensures parts != []
    {
      Blocks(sealer, plaintext, 0, draws)
    }

    function Stored(): Bytes {
      sealer.Object(plaintext, draws)
    }
  }

  /** Objects that were sealed under keys a frame holds, at its block size. */
  ghost predicate SealedUnder(f: BlockFrame, objects: seq<Sealing>) {
    forall o :: o in objects ==>
      |o.plaintext| < Pow256(8) && o.sealer.key in f.keys && o.sealer == Reader(f, o.sealer.key)
  }

  /** A piece is some block, of whatever index, of one of the objects sealed with a secret. */
  ghost predicate SealedBefore(objects: seq<Sealing>, secret: Key, piece: Bytes) {
    exists o :: o in objects && o.sealer.secret == secret && piece in o.Parts()
  }

  /**
   Nothing stored is forged: every piece that any held key accepts where it lies was sealed with that key
   before, as a block of one of `objects`, at that place or at another.
   */
  ghost predicate Unforged(f: BlockFrame, objects: seq<Sealing>, ciphertext: Bytes) {
    forall id, i ::
      id in f.keys && 0 <= i < |StoredBlocks(f, ciphertext)|
      && Authentic(Reader(f, id), StoredBlocks(f, ciphertext)[i], i)
      ==> SealedBefore(objects, f.keys[id], StoredBlocks(f, ciphertext)[i])
  }

  /** A piece is the block of that very position of one of the objects a reader's key sealed. */
  ghost predicate Belongs(objects: seq<Sealing>, reader: Sealer, piece: Bytes, i: nat) {
    exists o :: o in objects && o.sealer == reader && i < |o.Parts()| && o.Parts()[i] == piece
  }

  /** Each block of an object carries its own index, and only the last one says it is final. */
  lemma {:induction false} BlockAt(s: Sealer, plaintext: Bytes, index: nat, draws: Draws, j: nat)
    returns (chunk: Bytes, final: bool)
    requires j < |Blocks(s, plaintext, index, draws)|
    ensures Blocks(s, plaintext, index, draws)[j] == s.Block(index + j, final, chunk, draws(index + j))
    ensures j <= |plaintext|
    decreases j
  {
    hide Sealer.Block;
    if |plaintext| < s.block {
      chunk, final := plaintext, true;
    } else if j == 0 {
      chunk, final := plaintext[..s.block], false;
    } else {
      chunk, final := BlockAt(s, plaintext[s.block..], index + 1, draws, j - 1);
    }
  }

  /** The first block of what is left of an object. */
  function FirstBlock(s: Sealer, plaintext: Bytes, index: nat, draws: Draws): Bytes {
    if |plaintext| < s.block then s.Block(index, true, plaintext, draws(index))
    else s.Block(index, false, plaintext[..s.block], draws(index))
  }

  /** The block at a position is the first block of the plaintext that is left there. */
  lemma {:induction false} BlockOfRest(s: Sealer, plaintext: Bytes, draws: Draws, index: nat)
    requires index < |Blocks(s, plaintext, 0, draws)|
    ensures Times(index, s.block) <= |plaintext|
    ensures Blocks(s, plaintext, 0, draws)[index]
         == FirstBlock(s, plaintext[Times(index, s.block)..], index, draws)
  {
    BlockOfRestFrom(s, plaintext, 0, draws, index);
  }

  lemma {:induction false} BlockOfRestFrom(s: Sealer, plaintext: Bytes, from: nat, draws: Draws, j: nat)
    requires j < |Blocks(s, plaintext, from, draws)|
    ensures Times(j, s.block) <= |plaintext|
    ensures Blocks(s, plaintext, from, draws)[j]
         == FirstBlock(s, plaintext[Times(j, s.block)..], from + j, draws)
    decreases j
  {
    hide Sealer.Block;
    if j == 0 {
      assert plaintext[0..] == plaintext;
    } else {
      var rest := plaintext[s.block..];
      BlockOfRestFrom(s, rest, from + 1, draws, j - 1);
      assert rest[Times(j - 1, s.block)..] == plaintext[Times(j, s.block)..];
    }
  }

  /** A piece that is accepted where it lies can only be the block that belongs there. */
  lemma {:induction false} AcceptedInPlace(
    s: Sealer, plaintext: Bytes, draws: Draws, reader: Sealer, piece: Bytes, index: nat)
    requires s.cipher.Lawful() && reader.cipher == s.cipher
    requires |plaintext| < Pow256(8) && index < Pow256(8)
    requires Authentic(reader, piece, index)
    requires reader.secret == s.secret && piece in Blocks(s, plaintext, 0, draws)
    ensures reader.key == s.key && index < |Blocks(s, plaintext, 0, draws)|
    ensures piece == Blocks(s, plaintext, 0, draws)[index]
  {
    hide Blocks, AssociatedData, LittleEndian, Pow256, Stride;
    var j :| 0 <= j < |Blocks(s, plaintext, 0, draws)| && Blocks(s, plaintext, 0, draws)[j] == piece;
    var chunk, final := BlockAt(s, plaintext, 0, draws, j);
    s.BlockOpens(j, final, chunk, draws(j));
    var sealedAs := AssociatedData(s.key, j, final);
    var openedAs := AssociatedData(reader.key, index, |piece| < Stride(reader.block));
    assert piece[NONCE_LEN..] == s.cipher.encrypt(s.secret, draws(j), sealedAs, chunk);
    assert sealedAs == openedAs;
    AssociatedDataInjective(s.key, j, final, reader.key, index, |piece| < Stride(reader.block));
  }

  /** A block of an object is short exactly when it is its last. */
  lemma {:induction false} BlockLengths(s: Sealer, plaintext: Bytes, index: nat, draws: Draws, j: nat)
    requires s.cipher.Lawful() && j < |Blocks(s, plaintext, index, draws)|
    ensures BLOCK_OVERHEAD <= |Blocks(s, plaintext, index, draws)[j]| <= Stride(s.block)
    ensures |Blocks(s, plaintext, index, draws)[j]| < Stride(s.block) <==> j == |Blocks(s, plaintext, index, draws)| - 1
    decreases j
  {
    if |plaintext| < s.block {
      s.BlockOpens(index, true, plaintext, draws(index));
    } else if j == 0 {
      s.BlockOpens(index, false, plaintext[..s.block], draws(index));
    } else {
      BlockLengths(s, plaintext[s.block..], index + 1, draws, j - 1);
    }
  }

  /** A block opens, at its own position and with its own key, to the plaintext that lies there. */
  lemma {:induction false} PartOpens(o: Sealing, i: nat)
    requires o.sealer.cipher.Lawful() && i < |o.Parts()|
    ensures Times(i, o.sealer.block) <= |o.plaintext|
    ensures var rest := o.plaintext[Times(i, o.sealer.block)..];
            o.sealer.OpenBlock(o.Parts()[i], i) == Success(rest[..Min(o.sealer.block, |rest|)])
  {
    hide Blocks, Sealer.OpenBlock, Sealer.Block;
    BlockOfRest(o.sealer, o.plaintext, o.draws, i);
    var rest := o.plaintext[Times(i, o.sealer.block)..];
    if |rest| < o.sealer.block {
      o.sealer.BlockOpens(i, true, rest, o.draws(i));
      assert rest[..|rest|] == rest;
    } else {
      o.sealer.BlockOpens(i, false, rest[..o.sealer.block], o.draws(i));
    }
  }

  /** What is not forged is accepted at a position exactly when it belongs there. */
  lemma {:induction false} AcceptedBelongs(f: BlockFrame, objects: seq<Sealing>, id: KeyId, piece: Bytes, i: nat)
    requires f.cipher.Lawful() && SealedUnder(f, objects) && id in f.keys && i < Pow256(8)
    requires Authentic(Reader(f, id), piece, i) ==> SealedBefore(objects, f.keys[id], piece)
    ensures Authentic(Reader(f, id), piece, i) <==> Belongs(objects, Reader(f, id), piece, i)
  {
    hide Blocks, Pow256, Sealer.OpenBlock;
    if Authentic(Reader(f, id), piece, i) {
      var o :| o in objects && o.sealer.secret == f.keys[id] && piece in o.Parts();
      AcceptedInPlace(o.sealer, o.plaintext, o.draws, Reader(f, id), piece, i);
    } else if Belongs(objects, Reader(f, id), piece, i) {
      var o :| o in objects && o.sealer == Reader(f, id) && i < |o.Parts()| && o.Parts()[i] == piece;
      PartOpens(o, i);
    }
  }

  /** The stored blocks from one position up to another belong where they lie. */
  ghost predicate RunBelongs(
    objects: seq<Sealing>, reader: Sealer, stored: seq<Bytes>, first: nat, last: nat)
  {
    last <= |stored| && forall i :: first <= i < last ==> Belongs(objects, reader, stored[i], i)
  }

  lemma {:induction false} RunAcceptedBelongs(
    f: BlockFrame, objects: seq<Sealing>, id: KeyId, ciphertext: Bytes, first: nat, last: nat)
    requires f.cipher.Lawful() && SealedUnder(f, objects) && id in f.keys && |ciphertext| < Pow256(8)
    requires Unforged(f, objects, ciphertext)
    ensures RunAuthentic(Reader(f, id), StoredBlocks(f, ciphertext), first, last)
       <==> RunBelongs(objects, Reader(f, id), StoredBlocks(f, ciphertext), first, last)
  {
    var stored := StoredBlocks(f, ciphertext);
    FewPieces(f, ciphertext);
    hide Pow256, Belongs, Authentic, SealedBefore, StoredBlocks, SealedUnder;
    forall i | 0 <= i < |stored|
      ensures Authentic(Reader(f, id), stored[i], i) <==> Belongs(objects, Reader(f, id), stored[i], i)
    {
      AcceptedBelongs(f, objects, id, stored[i], i);
    }
  }

  lemma {:induction false} FewPieces(f: BlockFrame, ciphertext: Bytes)
    ensures |StoredBlocks(f, ciphertext)| <= |ciphertext|
  {
    if |ciphertext| >= HEADER_LEN {
      PiecesFew(ciphertext[HEADER_LEN..], Stride(f.blockSize));
    }
  }

  lemma {:induction false} PiecesFew(data: Bytes, size: BlockLen)
    ensures |Pieces(data, size)| <= |data|
    decreases |data|
  {
    if |data| > size {
      PiecesFew(data[size..], size);
    }
  }

  /** A header is read exactly when it is one the frame writes, and then as that key's. */
  lemma {:induction false} HeaderHeld(f: BlockFrame, ciphertext: Bytes)
    ensures f.ReadHeader(ciphertext).Success? <==> exists id :: HasHeader(f, ciphertext, id)
    ensures forall id :: HasHeader(f, ciphertext, id) ==>
      f.ReadHeader(ciphertext) == Success(Framing(f.blockSize, id))
  {
    forall id | HasHeader(f, ciphertext, id)
      ensures f.ReadHeader(ciphertext) == Success(Framing(f.blockSize, id))
    {
      f.HeaderReads(id, ciphertext[HEADER_LEN..]);
      assert ciphertext == ciphertext[..HEADER_LEN] + ciphertext[HEADER_LEN..];
    }
    if f.ReadHeader(ciphertext).Success? {
      f.HeaderUnique(ciphertext);
      assert HasHeader(f, ciphertext, HeaderKey(ciphertext));
    }
  }

  // ---------------------------------------------------------------- opening a whole object

  /** A whole object opens exactly when its size is one, its header is held and each of its blocks is accepted. */
  lemma {:induction false} OpensWhenBlocksDo(f: BlockFrame, ciphertext: Bytes)
    requires f.cipher.Lawful()
    ensures f.Open(ciphertext).Success?
       <==> && PlaintextLen(f.blockSize, |ciphertext|).Success?
            && exists id :: HasHeader(f, ciphertext, id)
                 && RunAuthentic(Reader(f, id), StoredBlocks(f, ciphertext), 0, |StoredBlocks(f, ciphertext)|)
  {
    HeaderHeld(f, ciphertext);
    hide BlockFrame.ReadHeader, Sealer.Header, StoredBlocks, RunAuthentic, IsPowerOfTwo, PlaintextLen, Sealer.OpenSpan;
    if PlaintextLen(f.blockSize, |ciphertext|).Success? {
      var length := PlaintextLen(f.blockSize, |ciphertext|).value;
      forall id | HasHeader(f, ciphertext, id)
        ensures f.Open(ciphertext).Success?
           <==> RunAuthentic(Reader(f, id), StoredBlocks(f, ciphertext), 0, |StoredBlocks(f, ciphertext)|)
      {
        OpensWithKey(f, id, ciphertext, length);
      }
    }
  }

  lemma {:induction false} OpensWithKey(f: BlockFrame, id: KeyId, ciphertext: Bytes, length: nat)
    requires f.cipher.Lawful() && HasHeader(f, ciphertext, id)
    requires f.ReadHeader(ciphertext) == Success(Framing(f.blockSize, id))
    requires PlaintextLen(f.blockSize, |ciphertext|) == Success(length)
    ensures f.Open(ciphertext).Success?
       <==> RunAuthentic(Reader(f, id), StoredBlocks(f, ciphertext), 0, |StoredBlocks(f, ciphertext)|)
  {
    BodyShape(f, ciphertext, length);
    hide BlockFrame.ReadHeader, StoredBlocks, RunAuthentic, IsPowerOfTwo, PlaintextLen, Sealer.OpenSpan;
    var last := |StoredBlocks(f, ciphertext)|;
    RunOpens(f, id, ciphertext, length, 0, last, Range(HEADER_LEN, |ciphertext|), Range(0, length));
    assert ciphertext[HEADER_LEN..|ciphertext|] == ciphertext[HEADER_LEN..];
  }

  /** Every stored block belongs where it lies, and the last one is the last of the object it is from. */
  ghost predicate Spliced(objects: seq<Sealing>, reader: Sealer, stored: seq<Bytes>) {
    && stored != []
    && RunBelongs(objects, reader, stored, 0, |stored|)
    && exists o :: EndsAs(objects, reader, stored, o)
  }

  /** One of the objects a reader's key sealed has as many blocks as are stored, and the same last one. */
  ghost predicate EndsAs(objects: seq<Sealing>, reader: Sealer, stored: seq<Bytes>, o: Sealing) {
    && o in objects && o.sealer == reader
    && |o.Parts()| == |stored| && o.Parts()[|stored| - 1] == stored[|stored| - 1]
  }

  /**
   When nothing is forged, an object opens if and only if its header is one the frame writes and every position
   holds the block of that position from some object sealed under the header's key, the last a final one.
   */
  lemma {:induction false} OpensOnlySplices(f: BlockFrame, objects: seq<Sealing>, ciphertext: Bytes)
    requires f.cipher.Lawful() && SealedUnder(f, objects) && |ciphertext| < Pow256(8)
    requires Unforged(f, objects, ciphertext)
    ensures f.Open(ciphertext).Success?
       <==> exists id :: HasHeader(f, ciphertext, id)
              && Spliced(objects, Reader(f, id), StoredBlocks(f, ciphertext))
  {
    OpensWhenBlocksDo(f, ciphertext);
    hide HasHeader, Unforged, SealedUnder, StoredBlocks, RunAuthentic, IsPowerOfTwo, PlaintextLen, Spliced, RunBelongs;
    hide BlockFrame.Open;
    var stored := StoredBlocks(f, ciphertext);
    forall id | HasHeader(f, ciphertext, id)
      ensures PlaintextLen(f.blockSize, |ciphertext|).Success?
              && RunAuthentic(Reader(f, id), stored, 0, |stored|)
         <==> Spliced(objects, Reader(f, id), stored)
    {
      HeaderIsHeld(f, ciphertext, id);
      RunAcceptedBelongs(f, objects, id, ciphertext, 0, |stored|);
      SizeShowsEnd(f, objects, id, ciphertext);
    }
  }

  lemma HeaderIsHeld(f: BlockFrame, ciphertext: Bytes, id: KeyId)
    requires HasHeader(f, ciphertext, id)
    ensures id in f.keys && |ciphertext| >= HEADER_LEN
  {}

  /** Among blocks that belong where they lie, the size is an object's exactly when the last one is final. */
  lemma {:induction false} SizeShowsEnd(f: BlockFrame, objects: seq<Sealing>, id: KeyId, ciphertext: Bytes)
    requires f.cipher.Lawful() && id in f.keys && |ciphertext| >= HEADER_LEN
    ensures PlaintextLen(f.blockSize, |ciphertext|).Success?
            && RunBelongs(objects, Reader(f, id), StoredBlocks(f, ciphertext), 0, |StoredBlocks(f, ciphertext)|)
       <==> Spliced(objects, Reader(f, id), StoredBlocks(f, ciphertext))
  {
    var reader, stored := Reader(f, id), StoredBlocks(f, ciphertext);
    hide IsPowerOfTwo, Blocks;
    if stored != [] && RunBelongs(objects, reader, stored, 0, |stored|) {
      var last := |stored| - 1;
      LastPiece(f, ciphertext);
      assert Belongs(objects, reader, stored[last], last);
      hide PlaintextLen;
      var o :| o in objects && o.sealer == reader && last < |o.Parts()| && o.Parts()[last] == stored[last];
      BlockLengths(o.sealer, o.plaintext, 0, o.draws, last);
      assert |stored[last]| < Stride(f.blockSize) ==> EndsAs(objects, reader, stored, o);
      forall other | EndsAs(objects, reader, stored, other)
        ensures |stored[last]| < Stride(f.blockSize)
      {
        BlockLengths(other.sealer, other.plaintext, 0, other.draws, last);
      }
    } else if stored == [] && PlaintextLen(f.blockSize, |ciphertext|).Success? {
      BodyShape(f, ciphertext, PlaintextLen(f.blockSize, |ciphertext|).value);
      assert false;
    }
  }

  /** The size is an object's exactly when the last piece is a short one that has room for the overhead. */
  lemma {:induction false} LastPiece(f: BlockFrame, ciphertext: Bytes)
    requires |ciphertext| >= HEADER_LEN && StoredBlocks(f, ciphertext) != []
    ensures var stored := StoredBlocks(f, ciphertext);
            var last := |stored[|stored| - 1]|;
            && last <= Stride(f.blockSize)
            && (PlaintextLen(f.blockSize, |ciphertext|).Success?
                <==> BLOCK_OVERHEAD <= last < Stride(f.blockSize))
  {
    hide IsPowerOfTwo;
    var body, stride := ciphertext[HEADER_LEN..], Stride(f.blockSize);
    var i := |Pieces(body, stride)| - 1;
    PieceAt(body, stride, i);
    PiecesReach(body, stride, i + 1);
    SizeAccepted(f.blockSize, |ciphertext|);
    TimesIsProduct(i, stride);
    hide Pieces, Times, PlaintextLen;
    LastOf(|body|, i, stride, |body| - Times(i, stride));
  }

  lemma {:induction false} SizeAccepted(block: BlockLen, c: nat)
    ensures PlaintextLen(block, c).Success? <==> c >= HEADER_LEN && (c - HEADER_LEN) % Stride(block) >= BLOCK_OVERHEAD
  {}

  /** What is left behind whole units, if it is no more than one, is the remainder or nothing. */
  lemma {:induction false} LastOf(n: nat, i: nat, unit: nat, last: nat)
    requires n == i * unit + last && 0 < last <= unit
    ensures n % unit == if last < unit then last else 0
  {
    if last < unit {
      DivModUnique(n, i, last, unit);
    } else {
      assert (i + 1) * unit == i * unit + unit;
      DivModUnique(n, i + 1, 0, unit);
    }
  }

  // ---------------------------------------------------------------- the one object

  /** The stored blocks of a sealed object are its parts, and they say what it is. */
  lemma {:induction false} StoredParts(s: Sealer, plaintext: Bytes, index: nat, draws: Draws)
    requires s.cipher.Lawful()
    ensures Pieces(s.Body(plaintext, index, draws), Stride(s.block)) == Blocks(s, plaintext, index, draws)
    decreases |plaintext|
  {
    hide Sealer.Block;
    if |plaintext| < s.block {
      s.BlockOpens(index, true, plaintext, draws(index));
    } else {
      s.BodySplits(plaintext, index, draws);
      StoredParts(s, plaintext[s.block..], index + 1, draws);
      var first, rest := s.Block(index, false, plaintext[..s.block], draws(index)),
                         s.Body(plaintext[s.block..], index + 1, draws);
      BodyNotEmpty(s, plaintext[s.block..], index + 1, draws);
      assert (first + rest)[..Stride(s.block)] == first && (first + rest)[Stride(s.block)..] == rest;
    }
  }

  lemma {:induction false} BodyNotEmpty(s: Sealer, plaintext: Bytes, index: nat, draws: Draws)
    requires s.cipher.Lawful()
    ensures s.Body(plaintext, index, draws) != []
  {
    s.BodyLength(plaintext, index, draws);
  }

  lemma {:induction false} PiecesDecide(a: Bytes, b: Bytes, size: BlockLen)
    requires Pieces(a, size) == Pieces(b, size)
    ensures a == b
    decreases |a|
  {
    if a == [] || b == [] {
    } else {
      PiecesFirst(a, size);
      PiecesFirst(b, size);
      var m, n := Min(size, |a|), Min(size, |b|);
      assert a[..m] == Pieces(a, size)[0] == Pieces(b, size)[0] == b[..n];
      assert Pieces(a[m..], size) == Pieces(a, size)[1..] == Pieces(b, size)[1..] == Pieces(b[n..], size);
      PiecesDecide(a[m..], b[n..], size);
      assert a == a[..m] + a[m..] && b == b[..n] + b[n..];
    }
  }

  /** Of one object, what is spliced from it is it. */
  lemma {:induction false} OneSplice(f: BlockFrame, o: Sealing, id: KeyId, ciphertext: Bytes)
    requires f.cipher.Lawful() && HasHeader(f, ciphertext, id)
    requires Spliced([o], Reader(f, id), StoredBlocks(f, ciphertext))
    ensures ciphertext == o.Stored()
  {
    hide IsPowerOfTwo, Blocks, Pieces;
    var stored := StoredBlocks(f, ciphertext);
    forall i | 0 <= i < |stored|
      ensures i < |o.Parts()| && stored[i] == o.Parts()[i]
    {
      assert Belongs([o], Reader(f, id), stored[i], i);
    }
    assert stored == o.Parts();
    StoredParts(o.sealer, o.plaintext, 0, o.draws);
    PiecesDecide(ciphertext[HEADER_LEN..], o.sealer.Body(o.plaintext, 0, o.draws), Stride(f.blockSize));
    assert ciphertext == ciphertext[..HEADER_LEN] + ciphertext[HEADER_LEN..];
  }

  /**
   When every block that could be accepted is from one object, what opens is that object alone: every cut,
   loss, repetition or exchange of its blocks and every change of the header is refused.
   */
  lemma {:induction false} OpensOnlyAsSealed(f: BlockFrame, o: Sealing, ciphertext: Bytes)
    requires f.cipher.Lawful() && SealedUnder(f, [o]) && |ciphertext| < Pow256(8)
    requires Unforged(f, [o], ciphertext)
    ensures f.Open(ciphertext).Success? <==> ciphertext == o.Stored()
  {
    assert o in [o];
    OpensOnlySplices(f, [o], ciphertext);
    f.OpenSealed(o.sealer.key, o.plaintext, o.draws);
    hide Spliced, Unforged, HasHeader, StoredBlocks, Sealer.Object, BlockFrame.Open, IsPowerOfTwo;
    if f.Open(ciphertext).Success? {
      var id :| HasHeader(f, ciphertext, id) && Spliced([o], Reader(f, id), StoredBlocks(f, ciphertext));
      OneSplice(f, o, id, ciphertext);
    }
  }
}
