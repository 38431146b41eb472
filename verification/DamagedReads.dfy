/**
 What a get answers of an object that is not as it was sealed. A get authenticates the blocks that its span
 fetches and no others, and takes the object's length from its stored size.
 */
module DamagedReads {
  import opened Aead
  import opened Arithmetic
  import opened Bytes
  import opened Frame
  import opened BlockFrame
  import opened FrameLoops
  import opened ObjectStore
  import opened Reading
  import opened Tampering
  import opened Wrappers

  /** A position of one of the objects that a reader's key sealed holds a byte. */
  ghost predicate ByteFrom(objects: seq<Sealing>, reader: Sealer, position: nat, b: byte) {
    exists o :: o in objects && o.sealer == reader && position < |o.plaintext| && o.plaintext[position] == b
  }

  ghost predicate AllBytesFrom(objects: seq<Sealing>, reader: Sealer, position: nat, bytes: Bytes) {
    forall k :: 0 <= k < |bytes| ==> ByteFrom(objects, reader, position + k, bytes[k])
  }

  // ---------------------------------------------------------------- what belonging blocks hold

  lemma {:induction false} BelongingAccepted(objects: seq<Sealing>, reader: Sealer, piece: Bytes, i: nat)
    requires reader.cipher.Lawful() && Belongs(objects, reader, piece, i)
    ensures Authentic(reader, piece, i)
    ensures |piece| == |reader.OpenBlock(piece, i).value| + BLOCK_OVERHEAD
    ensures AllBytesFrom(objects, reader, Times(i, reader.block), reader.OpenBlock(piece, i).value)
  {
    var o :| o in objects && o.sealer == reader && i < |o.Parts()| && o.Parts()[i] == piece;
    PartOpens(o, i);
    hide Sealer.OpenBlock, Sealing.Parts, Times, ByteFrom, AllBytesFrom;
    AcceptedLength(reader, piece, i);
    BytesOfObject(objects, o, Times(i, reader.block), reader.OpenBlock(piece, i).value);
  }

  /** A prefix of what is left of an object at a position is made of its bytes from there on. */
  lemma {:induction false} BytesOfObject(objects: seq<Sealing>, o: Sealing, position: nat, bytes: Bytes)
    requires o in objects && position <= |o.plaintext| && bytes <= o.plaintext[position..]
    ensures AllBytesFrom(objects, o.sealer, position, bytes)
  {
    forall k | 0 <= k < |bytes|
      ensures ByteFrom(objects, o.sealer, position + k, bytes[k])
    {
      assert bytes[k] == o.plaintext[position..][k] == o.plaintext[position + k];
    }
  }

  lemma {:induction false} BytesJoin(
    objects: seq<Sealing>, reader: Sealer, position: nat, a: Bytes, b: Bytes)
    requires AllBytesFrom(objects, reader, position, a) && AllBytesFrom(objects, reader, position + |a|, b)
    ensures AllBytesFrom(objects, reader, position, a + b)
  {
    hide ByteFrom;
    forall k | 0 <= k < |a + b|
      ensures ByteFrom(objects, reader, position + k, (a + b)[k])
    {
      if k >= |a| {
        assert (a + b)[k] == b[k - |a|] && position + |a| + (k - |a|) == position + k;
      }
    }
  }

  /** Every stored block but the last has the full stride. */
  predicate FullButLast(stored: seq<Bytes>, block: BlockLen) {
    forall i :: 0 <= i < |stored| - 1 ==> |stored[i]| == Stride(block)
  }

  lemma {:induction false} StoredFull(f: BlockFrame, ciphertext: Bytes)
    requires |ciphertext| >= HEADER_LEN
    ensures FullButLast(StoredBlocks(f, ciphertext), f.blockSize)
  {
    hide StoredBlocks, IsPowerOfTwo, Stride;
    forall i | 0 <= i < |StoredBlocks(f, ciphertext)| - 1
      ensures |StoredBlocks(f, ciphertext)[i]| == Stride(f.blockSize)
    {
      FullPiece(f, ciphertext, i);
    }
  }

  /** Every byte that a run of belonging blocks holds is the byte of its position in an object that was sealed. */
  lemma {:induction false} RunBytes(
    f: BlockFrame, objects: seq<Sealing>, id: KeyId, ciphertext: Bytes, first: nat, last: nat)
    requires f.cipher.Lawful() && id in f.keys && |ciphertext| >= HEADER_LEN
    requires first <= last && RunBelongs(objects, Reader(f, id), StoredBlocks(f, ciphertext), first, last)
    ensures RunAuthentic(Reader(f, id), StoredBlocks(f, ciphertext), first, last)
    ensures AllBytesFrom(objects, Reader(f, id), Times(first, f.blockSize),
                         RunHolds(Reader(f, id), StoredBlocks(f, ciphertext), first, last))
  {
    StoredFull(f, ciphertext);
    hide Times, StoredBlocks, RunBelongs, RunAuthentic, RunHolds, AllBytesFrom, FullButLast, IsPowerOfTwo;
    BytesOfRun(objects, Reader(f, id), StoredBlocks(f, ciphertext), first, last);
  }

  lemma {:induction false} BytesOfRun(
    objects: seq<Sealing>, reader: Sealer, stored: seq<Bytes>, first: nat, last: nat)
    requires reader.cipher.Lawful() && FullButLast(stored, reader.block)
    requires first <= last && RunBelongs(objects, reader, stored, first, last)
    ensures RunAuthentic(reader, stored, first, last)
    ensures AllBytesFrom(objects, reader, Times(first, reader.block), RunHolds(reader, stored, first, last))
    decreases last - first
  {
    if first == last {
      NothingHeld(reader, stored, first);
    } else {
      FirstBelongs(objects, reader, stored, first, last);
      assert first + 1 < last ==> |stored[first]| == Stride(reader.block);
      hide *;
      BelongingAccepted(objects, reader, stored[first], first);
      BytesOfRun(objects, reader, stored, first + 1, last);
      FirstBytes(objects, reader, stored, first, last);
    }
  }

  lemma {:induction false} FirstBelongs(
    objects: seq<Sealing>, reader: Sealer, stored: seq<Bytes>, first: nat, last: nat)
    requires first < last && RunBelongs(objects, reader, stored, first, last)
    ensures last <= |stored| && Belongs(objects, reader, stored[first], first)
    ensures RunBelongs(objects, reader, stored, first + 1, last)
  {
    hide Belongs;
  }

  lemma {:induction false} FirstOfRun(reader: Sealer, stored: seq<Bytes>, first: nat, last: nat)
    requires first < last <= |stored| && Authentic(reader, stored[first], first)
    requires RunAuthentic(reader, stored, first + 1, last)
    ensures RunAuthentic(reader, stored, first, last)
  {
    hide Authentic;
  }

  lemma {:induction false} FirstBytes(
    objects: seq<Sealing>, reader: Sealer, stored: seq<Bytes>, first: nat, last: nat)
    requires first < last <= |stored| && Authentic(reader, stored[first], first)
    requires |stored[first]| == |reader.OpenBlock(stored[first], first).value| + BLOCK_OVERHEAD
    requires first + 1 < last ==> |stored[first]| == Stride(reader.block)
    requires AllBytesFrom(objects, reader, Times(first, reader.block), reader.OpenBlock(stored[first], first).value)
    requires AllBytesFrom(objects, reader, Times(first + 1, reader.block), RunHolds(reader, stored, first + 1, last))
    requires RunAuthentic(reader, stored, first + 1, last)
    ensures RunAuthentic(reader, stored, first, last)
    ensures AllBytesFrom(objects, reader, Times(first, reader.block), RunHolds(reader, stored, first, last))
  {
    var chunk := reader.OpenBlock(stored[first], first).value;
    var rest := RunHolds(reader, stored, first + 1, last);
    assert Times(first + 1, reader.block) == Times(first, reader.block) + reader.block;
    assert Stride(reader.block) == reader.block + BLOCK_OVERHEAD;
    hide *;
    FirstOfRun(reader, stored, first, last);
    RunHoldsFirst(reader, stored, first, last);
    if first + 1 < last {
      BytesJoin(objects, reader, Times(first, reader.block), chunk, rest);
    } else {
      NothingHeld(reader, stored, last);
      assert chunk + rest == chunk;
    }
  }

  /** A stored block with another behind it has the full stride. */
  lemma {:induction false} FullPiece(f: BlockFrame, ciphertext: Bytes, i: nat)
    requires |ciphertext| >= HEADER_LEN && i + 1 < |StoredBlocks(f, ciphertext)|
    ensures |StoredBlocks(f, ciphertext)[i]| == Stride(f.blockSize)
  {
    hide IsPowerOfTwo;
    PieceAt(ciphertext[HEADER_LEN..], Stride(f.blockSize), i);
    PieceAt(ciphertext[HEADER_LEN..], Stride(f.blockSize), i + 1);
  }

  // ---------------------------------------------------------------- a get

  /** What a get answers of what the run of blocks it opened holds. */
  ghost predicate Answers(got: Got, holds: Bytes, position: nat, wanted: Range, length: nat) {
    && got.range == wanted && got.size == length && |got.payload| == wanted.end - wanted.start
    && wanted.end <= position + |holds| && got.payload == Window(holds, position, wanted)
  }

  /** The blocks from `first` up to `last` are those that meet a range. */
  predicate Meets(f: BlockFrame, stored: seq<Bytes>, wanted: Range, first: nat, last: nat) {
    first == FirstMet(f.blockSize, wanted) && last == EndMet(f.blockSize, wanted) && first < last <= |stored|
  }

  function FirstMet(block: BlockLen, wanted: Range): nat {
    wanted.start / block
  }

  function EndMet(block: BlockLen, wanted: Range): nat {
    DivCeil(wanted.end, block)
  }

  /** A get of a range that is not empty reads the header, and then opens the run of blocks that meet the range. */
  lemma {:induction false} GetOpensRun(
    f: BlockFrame, ciphertext: Bytes, requested: Option<GetRange>, length: nat, id: KeyId, first: nat, last: nat)
    requires f.cipher.Lawful() && PlaintextLen(f.blockSize, |ciphertext|) == Success(length)
    requires WantedRange(requested, length).start < WantedRange(requested, length).end
    requires Meets(f, StoredBlocks(f, ciphertext), WantedRange(requested, length), first, last)
    requires HasHeader(f, ciphertext, id)
    ensures SealedRead(f, ciphertext, requested, false).Success?
       <==> RunAuthentic(Reader(f, id), StoredBlocks(f, ciphertext), first, last)
    ensures SealedRead(f, ciphertext, requested, false).Success? ==>
      Answers(SealedRead(f, ciphertext, requested, false).value,
              RunHolds(Reader(f, id), StoredBlocks(f, ciphertext), first, last),
              Times(first, f.blockSize), WantedRange(requested, length), length)
  {
    var wanted := WantedRange(requested, length);
    var span := CiphertextSpan(f.blockSize, wanted, length);
    WantedInside(requested, length);
    hide WantedRange, CiphertextSpan, PlaintextLen, IsPowerOfTwo, StoredBlocks, RunAuthentic, Window, FirstMet, EndMet;
    hide Sealer.OpenSpan, Sealer.Header, Recovered, Times, SealedRead;
    SpanOfRun(f, ciphertext, length, wanted);
    RunOpens(f, id, ciphertext, length, first, last, span, wanted);
    GetOpensSpan(f, ciphertext, requested, length, id, span);
  }

  lemma {:induction false} GetOpensSpan(
    f: BlockFrame, ciphertext: Bytes, requested: Option<GetRange>, length: nat, id: KeyId, span: Range)
    requires PlaintextLen(f.blockSize, |ciphertext|) == Success(length) && HasHeader(f, ciphertext, id)
    requires WantedRange(requested, length).start < WantedRange(requested, length).end
    requires span == CiphertextSpan(f.blockSize, WantedRange(requested, length), length)
    requires span.end <= |ciphertext|
    ensures SealedRead(f, ciphertext, requested, false)
         == match Reader(f, id).OpenSpan(ciphertext[span.start..span.end], span, WantedRange(requested, length))
            case Failure(error) => Failure(error)
            case Success(payload) => Success(Got(payload, WantedRange(requested, length), length))
  {
    hide WantedRange, CiphertextSpan, PlaintextLen, IsPowerOfTwo, BlockFrame.ReadHeader, Sealer.OpenSpan, Sealer.Header;
    HeaderFetched(f, ciphertext, id);
  }

  lemma {:induction false} HeaderFetched(f: BlockFrame, ciphertext: Bytes, id: KeyId)
    requires HasHeader(f, ciphertext, id)
    ensures f.ReadHeader(Fetch(ciphertext, Range(0, HEADER_LEN))) == Success(Framing(f.blockSize, id))
  {
    var header := ciphertext[0..HEADER_LEN];
    assert header[..HEADER_LEN] == ciphertext[..HEADER_LEN];
    HeaderHeld(f, header);
    assert HasHeader(f, header, id);
  }

  lemma {:induction false} HeaderRefused(f: BlockFrame, ciphertext: Bytes)
    requires |ciphertext| >= HEADER_LEN && f.ReadHeader(Fetch(ciphertext, Range(0, HEADER_LEN))).Success?
    ensures exists id :: HasHeader(f, ciphertext, id)
  {
    var header := ciphertext[0..HEADER_LEN];
    assert header[..HEADER_LEN] == ciphertext[..HEADER_LEN];
    HeaderHeld(f, header);
    hide BlockFrame.ReadHeader;
    var id :| HasHeader(f, header, id);
    assert HasHeader(f, ciphertext, id);
  }

  /** The span of a range inside an object whose size is accepted is the run of blocks that meet the range. */
  lemma {:induction false} SpanOfRun(f: BlockFrame, ciphertext: Bytes, length: nat, wanted: Range)
    requires PlaintextLen(f.blockSize, |ciphertext|) == Success(length)
    requires wanted.start < wanted.end <= length
    ensures var first, last := wanted.start / f.blockSize, DivCeil(wanted.end, f.blockSize);
            var span := CiphertextSpan(f.blockSize, wanted, length);
            && Meets(f, StoredBlocks(f, ciphertext), wanted, first, last)
            && Times(first, f.blockSize) <= wanted.start && wanted.end <= Times(last, f.blockSize)
            && span.start == HEADER_LEN + Times(first, Stride(f.blockSize))
            && span.end == Min(HEADER_LEN + Times(last, Stride(f.blockSize)), |ciphertext|)
  {
    hide IsPowerOfTwo, StoredBlocks, PlaintextLen;
    var first, last := wanted.start / f.blockSize, DivCeil(wanted.end, f.blockSize);
    SpanInside(f.blockSize, wanted, length);
    SpanBlocks(f.blockSize, wanted, length);
    CiphertextLenOfPlaintextLen(f.blockSize, |ciphertext|);
    BodyShape(f, ciphertext, length);
    BlocksCover(f.blockSize, wanted, first, last);
    TimesIsProduct(first, Stride(f.blockSize));
    TimesIsProduct(last, Stride(f.blockSize));
  }

  /** Without a header that the frame writes, a get of a range that is not empty is refused. */
  lemma {:induction false} GetNeedsHeader(
    f: BlockFrame, ciphertext: Bytes, requested: Option<GetRange>, length: nat)
    requires PlaintextLen(f.blockSize, |ciphertext|) == Success(length)
    requires WantedRange(requested, length).start < WantedRange(requested, length).end
    requires SealedRead(f, ciphertext, requested, false).Success?
    ensures exists id :: HasHeader(f, ciphertext, id)
  {
    LengthAccepted(f.blockSize, |ciphertext|);
    hide WantedRange, CiphertextSpan, PlaintextLen, IsPowerOfTwo, BlockFrame.OpenSpan, BlockFrame.ReadHeader, HasHeader;
    HeaderRefused(f, ciphertext);
  }

  /** What a run holds, from `position` on, hands its bytes to the payload cut out of it. */
  lemma {:induction false} PayloadBytes(
    objects: seq<Sealing>, reader: Sealer, holds: Bytes, position: nat, wanted: Range, got: Got, length: nat)
    requires AllBytesFrom(objects, reader, position, holds) && position <= wanted.start <= wanted.end
    requires Answers(got, holds, position, wanted, length)
    ensures AllBytesFrom(objects, reader, wanted.start, got.payload)
  {
    hide ByteFrom;
    forall k | 0 <= k < |got.payload|
      ensures ByteFrom(objects, reader, wanted.start + k, got.payload[k])
    {
      var at := wanted.start - position + k;
      assert got.payload[k] == holds[at];
      assert ByteFrom(objects, reader, position + at, holds[at]);
    }
  }

  /** An object has the header of a key, and each block that meets a range is one of that key's, in its position. */
  ghost predicate RunHeld(f: BlockFrame, objects: seq<Sealing>, ciphertext: Bytes, wanted: Range, id: KeyId) {
    && HasHeader(f, ciphertext, id)
    && RunBelongs(objects, Reader(f, id), StoredBlocks(f, ciphertext),
                  FirstMet(f.blockSize, wanted), EndMet(f.blockSize, wanted))
  }

  /** A get answers a range with bytes that a key sealed at those positions. */
  ghost predicate AnswersSealed(got: Got, f: BlockFrame, objects: seq<Sealing>, wanted: Range, id: KeyId) {
    && id in f.keys && got.range == wanted && |got.payload| == wanted.end - wanted.start
    && AllBytesFrom(objects, Reader(f, id), wanted.start, got.payload)
  }

  /** Blocks that belong are answered, byte for byte, whatever else is stored. */
  lemma {:induction false} BelongingReads(
    f: BlockFrame, objects: seq<Sealing>, ciphertext: Bytes, requested: Option<GetRange>, length: nat, id: KeyId)
    requires f.cipher.Lawful() && PlaintextLen(f.blockSize, |ciphertext|) == Success(length)
    requires WantedRange(requested, length).start < WantedRange(requested, length).end
    requires RunHeld(f, objects, ciphertext, WantedRange(requested, length), id)
    ensures SealedRead(f, ciphertext, requested, false).Success?
    ensures AnswersSealed(SealedRead(f, ciphertext, requested, false).value,
                          f, objects, WantedRange(requested, length), id)
  {
    var wanted := WantedRange(requested, length);
    var first, last := wanted.start / f.blockSize, DivCeil(wanted.end, f.blockSize);
    var stored := StoredBlocks(f, ciphertext);
    WantedInside(requested, length);
    SpanOfRun(f, ciphertext, length, wanted);
    GetOpensRun(f, ciphertext, requested, length, id, first, last);
    RunBytes(f, objects, id, ciphertext, first, last);
    hide WantedRange, DivCeil, Times, StoredBlocks, RunHolds, SealedRead, RunBelongs, RunAuthentic, AllBytesFrom;
    hide Window, PlaintextLen, IsPowerOfTwo;
    PayloadBytes(objects, Reader(f, id), RunHolds(Reader(f, id), stored, first, last),
                 Times(first, f.blockSize), wanted, SealedRead(f, ciphertext, requested, false).value, length);
  }

  // ---------------------------------------------------------------- what a get can answer

  lemma {:induction false} RunDecides(
    f: BlockFrame, objects: seq<Sealing>, ciphertext: Bytes, requested: Option<GetRange>, length: nat)
    requires f.cipher.Lawful() && SealedUnder(f, objects) && |ciphertext| < Pow256(8)
    requires Unforged(f, objects, ciphertext)
    requires PlaintextLen(f.blockSize, |ciphertext|) == Success(length)
    requires WantedRange(requested, length).start < WantedRange(requested, length).end
    ensures SealedRead(f, ciphertext, requested, false).Success?
       <==> exists id :: RunHeld(f, objects, ciphertext, WantedRange(requested, length), id)
  {
    var wanted := WantedRange(requested, length);
    var first, last := wanted.start / f.blockSize, DivCeil(wanted.end, f.blockSize);
    WantedInside(requested, length);
    SpanOfRun(f, ciphertext, length, wanted);
    forall id | HasHeader(f, ciphertext, id)
      ensures SealedRead(f, ciphertext, requested, false).Success?
         <==> RunHeld(f, objects, ciphertext, wanted, id)
    {
      hide WantedRange, DivCeil, StoredBlocks, SealedRead, RunBelongs, RunAuthentic, Unforged, SealedUnder;
      hide PlaintextLen, IsPowerOfTwo;
      GetOpensRun(f, ciphertext, requested, length, id, first, last);
      RunAcceptedBelongs(f, objects, id, ciphertext, first, last);
    }
    if SealedRead(f, ciphertext, requested, false).Success? {
      GetNeedsHeader(f, ciphertext, requested, length);
    }
  }

  /**
   When nothing is forged, a get of a range that is not empty succeeds if and only if the header is one the frame
   writes and each block that meets the range is the block of its position from some object sealed under the
   header's key. No other stored block matters, and neither does whether a final one is there.
   */
  lemma {:induction false} ReadsWhenRunBelongs(
    f: BlockFrame, objects: seq<Sealing>, ciphertext: Bytes, requested: Option<GetRange>)
    requires f.cipher.Lawful() && SealedUnder(f, objects) && |ciphertext| < Pow256(8)
    requires Unforged(f, objects, ciphertext)
    ensures match PlaintextLen(f.blockSize, |ciphertext|)
            case Failure(error) => SealedRead(f, ciphertext, requested, false) == Failure(error)
            case Success(length) =>
              NotEmpty(WantedRange(requested, length)) ==>
                (SealedRead(f, ciphertext, requested, false).Success?
                 <==> exists id :: RunHeld(f, objects, ciphertext, WantedRange(requested, length), id))
  {
    hide WantedRange, PlaintextLen, IsPowerOfTwo, Unforged, SealedUnder, RunHeld, CiphertextSpan;
    hide BlockFrame.OpenSpan, BlockFrame.ReadHeader;
    var length := PlaintextLen(f.blockSize, |ciphertext|);
    if length.Success? && NotEmpty(WantedRange(requested, length.value)) {
      hide SealedRead;
      RunDecides(f, objects, ciphertext, requested, length.value);
    }
  }

  predicate NotEmpty(range: Range) {
    range.start < range.end
  }

  /** A get that succeeds hands out sealed bytes only, each at the position it was sealed at. */
  lemma {:induction false} ReadsOnlySealedBytes(
    f: BlockFrame, objects: seq<Sealing>, ciphertext: Bytes, requested: Option<GetRange>)
    requires f.cipher.Lawful() && SealedUnder(f, objects) && |ciphertext| < Pow256(8)
    requires Unforged(f, objects, ciphertext)
    ensures match SealedRead(f, ciphertext, requested, false)
            case Failure(_) => true
            case Success(got) =>
              NotEmpty(got.range) ==>
                exists id :: HasHeader(f, ciphertext, id) && AnswersSealed(got, f, objects, got.range, id)
  {
    hide SealedRead, RunBelongs, StoredBlocks, AllBytesFrom, DivCeil, WantedRange, PlaintextLen, IsPowerOfTwo;
    hide Unforged, SealedUnder, Sealer.Header, FirstMet, EndMet;
    var read := SealedRead(f, ciphertext, requested, false);
    if read.Success? && NotEmpty(read.value.range) {
      RangeAnswered(f, ciphertext, requested);
      RunDecides(f, objects, ciphertext, requested, read.value.size);
      var id :| RunHeld(f, objects, ciphertext, read.value.range, id);
      BelongingReads(f, objects, ciphertext, requested, read.value.size, id);
    }
  }

  /** The range and the size that a get answers are those of the length its stored size says. */
  lemma {:induction false} RangeAnswered(f: BlockFrame, ciphertext: Bytes, requested: Option<GetRange>)
    requires SealedRead(f, ciphertext, requested, false).Success?
    ensures var got := SealedRead(f, ciphertext, requested, false).value;
            && PlaintextLen(f.blockSize, |ciphertext|) == Success(got.size)
            && got.range == WantedRange(requested, got.size)
  {
    hide WantedRange, CiphertextSpan, PlaintextLen, IsPowerOfTwo, BlockFrame.OpenSpan, BlockFrame.ReadHeader;
  }

  /**
   When every block that could be accepted is from one object, a get that succeeds answers a slice of that
   object's plaintext, at the positions it names.
   */
  lemma {:induction false} ReadsOnlyItsBytes(
    f: BlockFrame, o: Sealing, ciphertext: Bytes, requested: Option<GetRange>)
    requires f.cipher.Lawful() && SealedUnder(f, [o]) && |ciphertext| < Pow256(8)
    requires Unforged(f, [o], ciphertext)
    ensures match SealedRead(f, ciphertext, requested, false)
            case Failure(_) => true
            case Success(got) =>
              NotEmpty(got.range) ==>
                got.range.end <= |o.plaintext| && got.payload == o.plaintext[got.range.start..got.range.end]
  {
    ReadsOnlySealedBytes(f, [o], ciphertext, requested);
    hide SealedRead, HasHeader, PlaintextLen, WantedRange, IsPowerOfTwo, Unforged, SealedUnder;
    var read := SealedRead(f, ciphertext, requested, false);
    if read.Success? && NotEmpty(read.value.range) {
      var got := read.value;
      var id :| HasHeader(f, ciphertext, id) && AnswersSealed(got, f, [o], got.range, id);
      BytesOfOne(o, Reader(f, id), got.range, got.payload);
    }
  }

  lemma {:induction false} BytesOfOne(o: Sealing, reader: Sealer, range: Range, payload: Bytes)
    requires range.start < range.end && |payload| == range.end - range.start
    requires AllBytesFrom([o], reader, range.start, payload)
    ensures range.end <= |o.plaintext| && payload == o.plaintext[range.start..range.end]
  {
    forall k | 0 <= k < |payload|
      ensures range.start + k < |o.plaintext| && payload[k] == o.plaintext[range.start + k]
    {
      assert ByteFrom([o], reader, range.start + k, payload[k]);
    }
    var last := |payload| - 1;
    assert range.start + last < |o.plaintext| && payload[last] == o.plaintext[range.start + last];
  }

  // ---------------------------------------------------------------- a get of the whole

  /** Two byte strings agree on their first bytes. */
  predicate AgreeUpTo(a: Bytes, b: Bytes, n: nat) {
    n <= |a| && n <= |b| && a[..n] == b[..n]
  }

  /** What is stored of a sealed object: its header, and behind it as many blocks as its plaintext needs. */
  lemma {:induction false} StoredShape(f: BlockFrame, o: Sealing)
    requires f.cipher.Lawful() && SealedUnder(f, [o])
    ensures HasHeader(f, o.Stored(), o.sealer.key)
    ensures StoredBlocks(f, o.Stored()) == o.Parts()
    ensures PlaintextLen(f.blockSize, |o.Stored()|) == Success(|o.plaintext|)
    ensures |o.Parts()| == |o.plaintext| / f.blockSize + 1
  {
    assert o in [o];
    var body := o.sealer.Body(o.plaintext, 0, o.draws);
    hide IsPowerOfTwo, Sealer.Body, Blocks, Pieces, PlaintextLen, Sealer.Header;
    o.sealer.ObjectLength(o.plaintext, o.draws);
    StoredParts(o.sealer, o.plaintext, 0, o.draws);
    assert o.Stored()[..HEADER_LEN] == o.sealer.Header() && o.Stored()[HEADER_LEN..] == body;
    BodyShape(f, o.Stored(), |o.plaintext|);
  }

  /** The first stored blocks of an object belong to another exactly when the two begin alike. */
  lemma {:induction false} PrefixBelongs(f: BlockFrame, o: Sealing, ciphertext: Bytes, q: nat)
    requires f.cipher.Lawful() && SealedUnder(f, [o]) && 0 < q < |StoredBlocks(f, ciphertext)|
    ensures (exists id :: HasHeader(f, ciphertext, id)
               && RunBelongs([o], Reader(f, id), StoredBlocks(f, ciphertext), 0, q))
       <==> q < |o.Parts()| && AgreeUpTo(ciphertext, o.Stored(), HEADER_LEN + Times(q, Stride(f.blockSize)))
  {
    var stored, parts, n := StoredBlocks(f, ciphertext), o.Parts(), HEADER_LEN + Times(q, Stride(f.blockSize));
    assert o in [o];
    StoredShape(f, o);
    hide IsPowerOfTwo, PlaintextLen, Blocks, Sealing.Stored;
    if id :| HasHeader(f, ciphertext, id) && RunBelongs([o], Reader(f, id), stored, 0, q) {
      RunIsPrefix(f, o, id, ciphertext, q);
      BlocksAlike(f, ciphertext, o.Stored(), q);
    }
    if q < |parts| && AgreeUpTo(ciphertext, o.Stored(), n) {
      SameHeader(f, o, ciphertext, n);
      AlikeBlocks(f, ciphertext, o.Stored(), q);
      assert stored[..q] == parts[..q];
      forall i | 0 <= i < q
        ensures Belongs([o], o.sealer, stored[i], i)
      {
        assert stored[i] == stored[..q][i] == parts[..q][i] == parts[i];
      }
    }
  }

  lemma SameHeader(f: BlockFrame, o: Sealing, ciphertext: Bytes, n: nat)
    requires o.sealer.key in f.keys && HasHeader(f, o.Stored(), o.sealer.key)
    requires AgreeUpTo(ciphertext, o.Stored(), n) && n >= HEADER_LEN
    ensures HasHeader(f, ciphertext, o.sealer.key)
  {
    hide Sealing.Stored, Sealer.Header;
    assert ciphertext[..HEADER_LEN] == ciphertext[..n][..HEADER_LEN] == o.Stored()[..HEADER_LEN];
  }

  lemma {:induction false} RunIsPrefix(f: BlockFrame, o: Sealing, id: KeyId, ciphertext: Bytes, q: nat)
    requires f.cipher.Lawful() && 0 < q < |StoredBlocks(f, ciphertext)|
    requires HasHeader(f, ciphertext, id)
    requires RunBelongs([o], Reader(f, id), StoredBlocks(f, ciphertext), 0, q)
    ensures o.sealer == Reader(f, id) && q < |o.Parts()|
    ensures StoredBlocks(f, ciphertext)[..q] == o.Parts()[..q]
  {
    hide IsPowerOfTwo, Blocks, Sealer.Header;
    var stored := StoredBlocks(f, ciphertext);
    forall i | 0 <= i < q
      ensures o.sealer == Reader(f, id) && i < |o.Parts()| && stored[i] == o.Parts()[i]
    {
      assert Belongs([o], Reader(f, id), stored[i], i);
    }
    assert q - 1 < |o.Parts()| by {
      assert Belongs([o], Reader(f, id), stored[q - 1], q - 1);
    }
    assert stored[q - 1] == o.Parts()[q - 1];
    FullPiece(f, ciphertext, q - 1);
    BlockLengths(o.sealer, o.plaintext, 0, o.draws, q - 1);
  }

  /** The first stored blocks of an object are the pieces of its first bytes behind the header. */
  lemma {:induction false} PiecesOfPrefix(f: BlockFrame, a: Bytes, q: nat)
    requires q < |StoredBlocks(f, a)| && |a| >= HEADER_LEN
    ensures HEADER_LEN + Times(q, Stride(f.blockSize)) <= |a|
    ensures Pieces(a[HEADER_LEN..HEADER_LEN + Times(q, Stride(f.blockSize))], Stride(f.blockSize))
         == StoredBlocks(f, a)[..q]
  {
    hide IsPowerOfTwo;
    var body, size := a[HEADER_LEN..], Stride(f.blockSize);
    PiecesReach(body, size, q);
    PiecesTake(body, size, q);
    hide Pieces, Times;
    SliceOfRest(a, HEADER_LEN, 0, Times(q, size));
    assert body[..Times(q, size)] == body[0..Times(q, size)];
  }

  /** Objects that begin alike up to a block have one header and the same blocks before it. */
  lemma {:induction false} AlikeBlocks(f: BlockFrame, a: Bytes, b: Bytes, q: nat)
    requires q < |StoredBlocks(f, a)| && q < |StoredBlocks(f, b)| && |a| >= HEADER_LEN && |b| >= HEADER_LEN
    requires AgreeUpTo(a, b, HEADER_LEN + Times(q, Stride(f.blockSize)))
    ensures a[..HEADER_LEN] == b[..HEADER_LEN] && StoredBlocks(f, a)[..q] == StoredBlocks(f, b)[..q]
  {
    PiecesOfPrefix(f, a, q);
    PiecesOfPrefix(f, b, q);
    hide StoredBlocks, Pieces, Times, Stride, IsPowerOfTwo;
    var n := HEADER_LEN + Times(q, Stride(f.blockSize));
    assert a[..HEADER_LEN] == a[..n][..HEADER_LEN] == b[..n][..HEADER_LEN] == b[..HEADER_LEN];
    assert a[HEADER_LEN..n] == a[..n][HEADER_LEN..] == b[..n][HEADER_LEN..] == b[HEADER_LEN..n];
  }

  /** Objects with one header and the same blocks before some block begin alike up to it. */
  lemma {:induction false} BlocksAlike(f: BlockFrame, a: Bytes, b: Bytes, q: nat)
    requires q < |StoredBlocks(f, a)| && q < |StoredBlocks(f, b)| && |a| >= HEADER_LEN && |b| >= HEADER_LEN
    requires a[..HEADER_LEN] == b[..HEADER_LEN] && StoredBlocks(f, a)[..q] == StoredBlocks(f, b)[..q]
    ensures AgreeUpTo(a, b, HEADER_LEN + Times(q, Stride(f.blockSize)))
  {
    PiecesOfPrefix(f, a, q);
    PiecesOfPrefix(f, b, q);
    hide StoredBlocks, Pieces, Times, Stride, IsPowerOfTwo;
    var n := HEADER_LEN + Times(q, Stride(f.blockSize));
    PiecesDecide(a[HEADER_LEN..n], b[HEADER_LEN..n], Stride(f.blockSize));
    assert a[..n] == a[..HEADER_LEN] + a[HEADER_LEN..n] && b[..n] == b[..HEADER_LEN] + b[HEADER_LEN..n];
  }

  /** The whole meets the blocks from the first to the one it ends in, or to the one before if it ends between two. */
  lemma {:induction false} WholeMeets(block: BlockLen, length: nat)
    ensures FirstMet(block, Range(0, length)) == 0
    ensures EndMet(block, Range(0, length)) == length / block + if length % block == 0 then 0 else 1
  {
    DivModUnique(0, 0, 0, block);
  }

  /** A get of the whole that ends inside a block fetches all there is, and so answers only for the object itself. */
  lemma {:induction false} WholeInsideBlock(f: BlockFrame, o: Sealing, ciphertext: Bytes, length: nat)
    requires f.cipher.Lawful() && SealedUnder(f, [o]) && |ciphertext| < Pow256(8)
    requires Unforged(f, [o], ciphertext)
    requires PlaintextLen(f.blockSize, |ciphertext|) == Success(length) && length % f.blockSize != 0
    ensures SealedRead(f, ciphertext, None, false).Success? <==> ciphertext == o.Stored()
  {
    var wanted := Range(0, length);
    hide *;
    WholeWanted(f.blockSize, length);
    RunDecides(f, [o], ciphertext, None, length);
    ReadsItself(f, o);
    if SealedRead(f, ciphertext, None, false).Success? {
      var id :| RunHeld(f, [o], ciphertext, wanted, id);
      WholeIsSplice(f, o, ciphertext, length, id);
    }
  }

  lemma WholeWanted(block: BlockLen, length: nat)
    ensures WantedRange(None, length) == Range(0, length)
    ensures length % block != 0 ==> length > 0
  {}

  lemma {:induction false} ReadsItself(f: BlockFrame, o: Sealing)
    requires f.cipher.Lawful() && SealedUnder(f, [o])
    ensures SealedRead(f, o.Stored(), None, false).Success?
  {
    assert o in [o];
    hide SealedRead, Sealer.Object, IsPowerOfTwo;
    ReadAgrees(f, o.sealer.key, o.plaintext, o.draws, None, false);
  }

  lemma {:induction false} WholeIsSplice(f: BlockFrame, o: Sealing, ciphertext: Bytes, length: nat, id: KeyId)
    requires f.cipher.Lawful()
    requires PlaintextLen(f.blockSize, |ciphertext|) == Success(length) && length % f.blockSize != 0
    requires RunHeld(f, [o], ciphertext, Range(0, length), id)
    ensures ciphertext == o.Stored()
  {
    BodyShape(f, ciphertext, length);
    WholeMeets(f.blockSize, length);
    hide FirstMet, EndMet, StoredBlocks, IsPowerOfTwo, RunBelongs, Spliced, PlaintextLen, Sealing.Stored, Sealer.Header;
    SizeShowsEnd(f, [o], id, ciphertext);
    OneSplice(f, o, id, ciphertext);
  }

  /** A get of the whole that ends between blocks leaves the last stored block unread. */
  lemma {:induction false} WholeBetweenBlocks(f: BlockFrame, o: Sealing, ciphertext: Bytes, length: nat, q: nat)
    requires f.cipher.Lawful() && SealedUnder(f, [o]) && |ciphertext| < Pow256(8)
    requires Unforged(f, [o], ciphertext)
    requires PlaintextLen(f.blockSize, |ciphertext|) == Success(length)
    requires length % f.blockSize == 0 && q == length / f.blockSize && length > 0
    ensures SealedRead(f, ciphertext, None, false).Success?
       <==> length <= |o.plaintext| && AgreeUpTo(ciphertext, o.Stored(), HEADER_LEN + Times(q, Stride(f.blockSize)))
  {
    var wanted := WantedRange(None, length);
    RunDecides(f, [o], ciphertext, None, length);
    BodyShape(f, ciphertext, length);
    WholeMeets(f.blockSize, length);
    StoredShape(f, o);
    DivBelow(|o.plaintext|, f.blockSize, q);
    TimesIsProduct(q, f.blockSize);
    assert q > 0;
    hide SealedRead, FirstMet, EndMet, StoredBlocks, IsPowerOfTwo, Unforged, RunBelongs, PlaintextLen;
    hide Sealing.Stored, Sealing.Parts, HasHeader, AgreeUpTo, SealedUnder;
    PrefixBelongs(f, o, ciphertext, q);
    WholeRun(f, o, ciphertext, wanted, q);
  }

  lemma {:induction false} WholeRun(f: BlockFrame, o: Sealing, ciphertext: Bytes, wanted: Range, q: nat)
    requires FirstMet(f.blockSize, wanted) == 0 && EndMet(f.blockSize, wanted) == q
    ensures (exists id :: RunHeld(f, [o], ciphertext, wanted, id))
       <==> (exists id :: HasHeader(f, ciphertext, id)
               && RunBelongs([o], Reader(f, id), StoredBlocks(f, ciphertext), 0, q))
  {
    hide FirstMet, EndMet, StoredBlocks, RunBelongs, Sealer.Header;
    forall id | HasHeader(f, ciphertext, id)
      ensures RunHeld(f, [o], ciphertext, wanted, id)
         <==> RunBelongs([o], Reader(f, id), StoredBlocks(f, ciphertext), 0, q)
    {
    }
  }

  /**
   When every block that could be accepted is from one object, a get of the whole succeeds exactly for that
   object, if the length its stored size says ends inside a block. If it ends between two blocks, the get
   succeeds exactly when the object is that long and begins as it was sealed up to there, whatever follows;
   and if it is nothing at all, it always succeeds.
   */
  lemma {:induction false} WholeRead(f: BlockFrame, o: Sealing, ciphertext: Bytes)
    requires f.cipher.Lawful() && SealedUnder(f, [o]) && |ciphertext| < Pow256(8)
    requires Unforged(f, [o], ciphertext)
    ensures match PlaintextLen(f.blockSize, |ciphertext|)
            case Failure(error) => SealedRead(f, ciphertext, None, false) == Failure(error)
            case Success(length) =>
              if length == 0 then SealedRead(f, ciphertext, None, false) == Success(Got([], Range(0, 0), 0))
              else if length % f.blockSize != 0 then
                SealedRead(f, ciphertext, None, false).Success? <==> ciphertext == o.Stored()
              else
                SealedRead(f, ciphertext, None, false).Success?
                <==> && length <= |o.plaintext|
                     && AgreeUpTo(ciphertext, o.Stored(), BlockStart(f.blockSize, length / f.blockSize))
  {
    hide IsPowerOfTwo, PlaintextLen, Unforged, SealedUnder, Sealing.Stored, CiphertextSpan, AgreeUpTo;
    var size := PlaintextLen(f.blockSize, |ciphertext|);
    if size.Success? && size.value > 0 {
      hide SealedRead;
      if size.value % f.blockSize != 0 {
        WholeInsideBlock(f, o, ciphertext, size.value);
      } else {
        var q: nat := size.value / f.blockSize;
        WholeBetweenBlocks(f, o, ciphertext, size.value, q);
        TimesIsProduct(q, Stride(f.blockSize));
      }
    }
  }

  /** Metadata and empty ranges are answered from the stored size alone: nothing is authenticated. */
  lemma {:induction false} SizeIsUnread(f: BlockFrame, ciphertext: Bytes, requested: Option<GetRange>, head: bool)
    requires PlaintextLen(f.blockSize, |ciphertext|).Success?
    requires var length := PlaintextLen(f.blockSize, |ciphertext|).value;
             head || WantedRange(requested, length).start >= WantedRange(requested, length).end
    ensures var length := PlaintextLen(f.blockSize, |ciphertext|).value;
            SealedRead(f, ciphertext, requested, head)
              == Success(Got([], if head then Range(0, 0) else WantedRange(requested, length), length))
  {}

  /**
   A cut that is not refused: an object kept up to the end of any full block, with any 28 bytes behind it, reads
   as the whole of its first blocks.
   */
  lemma {:induction false} CutIsRead(f: BlockFrame, o: Sealing, first: nat, junk: Bytes)
    requires f.cipher.Lawful() && SealedUnder(f, [o])
    requires first >= 1 && first * f.blockSize <= |o.plaintext| && |junk| == BLOCK_OVERHEAD
    ensures HEADER_LEN + first * Stride(f.blockSize) <= |o.Stored()|
    ensures SealedRead(f, o.Stored()[..HEADER_LEN + first * Stride(f.blockSize)] + junk, None, false)
         == Success(Got(o.plaintext[..first * f.blockSize], Range(0, first * f.blockSize), first * f.blockSize))
  {
    var kept, length := HEADER_LEN + first * Stride(f.blockSize), first * f.blockSize;
    StoredShape(f, o);
    CutShape(f, o, first);
    var ciphertext := o.Stored()[..kept] + junk;
    CutLength(f, ciphertext, first);
    BodyShape(f, ciphertext, length);
    hide IsPowerOfTwo, PlaintextLen, StoredBlocks, Sealing.Stored, Sealing.Parts, HasHeader, SealedRead;
    assert ciphertext[..kept] == o.Stored()[..kept];
    TimesIsProduct(first, Stride(f.blockSize));
    PrefixBelongs(f, o, ciphertext, first);
    var wanted := WantedRange(None, length);
    assert wanted == Range(0, length);
    WholeMeets(f.blockSize, length);
    MulMonotone(1, first, f.blockSize);
    WholeRun(f, o, ciphertext, wanted, first);
    var id :| RunHeld(f, [o], ciphertext, wanted, id);
    BelongingReads(f, [o], ciphertext, None, length, id);
    var got := SealedRead(f, ciphertext, None, false).value;
    BytesOfOne(o, Reader(f, id), wanted, got.payload);
    RangeAnswered(f, ciphertext, None);
    assert got.payload == o.plaintext[0..length] == o.plaintext[..length];
  }

  lemma {:induction false} CutShape(f: BlockFrame, o: Sealing, first: nat)
    requires PlaintextLen(f.blockSize, |o.Stored()|) == Success(|o.plaintext|)
    requires |o.Parts()| == |o.plaintext| / f.blockSize + 1 && first * f.blockSize <= |o.plaintext|
    ensures HEADER_LEN + first * Stride(f.blockSize) <= |o.Stored()|
    ensures first < |o.Parts()|
  {
    hide IsPowerOfTwo, Sealing.Stored, Sealing.Parts;
    CiphertextLenOfPlaintextLen(f.blockSize, |o.Stored()|);
    DivBelow(|o.plaintext|, f.blockSize, first);
    MulMonotone(first, |o.plaintext| / f.blockSize, Stride(f.blockSize));
  }

  lemma {:induction false} CutLength(f: BlockFrame, ciphertext: Bytes, first: nat)
    requires |ciphertext| == HEADER_LEN + first * Stride(f.blockSize) + BLOCK_OVERHEAD
    ensures PlaintextLen(f.blockSize, |ciphertext|) == Success(first * f.blockSize)
    ensures first * f.blockSize / f.blockSize == first && first * f.blockSize % f.blockSize == 0
  {
    hide IsPowerOfTwo, PlaintextLen;
    DivModUnique(first * f.blockSize, first, 0, f.blockSize);
    PlaintextLenOfCiphertextLen(f.blockSize, first * f.blockSize);
  }
}
