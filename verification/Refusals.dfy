/** What is refused, and as what: every error a header, a stored block or a keyfile is answered with. */
module Refusals {
  import opened Aead
  import opened Arithmetic
  import opened Bytes
  import opened Frame
  import opened BlockFrame
  import opened FrameLoops
  import opened DamagedReads
  import opened Layouts
  import opened ObjectStore
  import opened Reading
  import opened Wrappers
  import K = Keyring

  // ---------------------------------------------------------------- headers

  /** What is wrong first with a header, in the order the code looks. */
  lemma {:induction false} HeaderAnswers(f: BlockFrame, c: Bytes)
    ensures f.ReadHeader(c)
         == if |c| < 13 then Failure(Truncated)
            else if c[..4] != [0x45, 0x55, 0x4C, 0x45] then Failure(NotFramed)
            else if c[4] != 2 then Failure(UnsupportedVersion(c[4]))
            else if Little4(c, 5) != f.blockSize then Failure(BlockSizeMismatch(Little4(c, 5), f.blockSize))
            else if Little4(c, 9) !in f.keys then Failure(UnknownKey(Little4(c, 9)))
            else Success(Framing(f.blockSize, Little4(c, 9)))
  {
    if |c| >= 13 {
      Pow256Values();
      FourAt(c, 5);
      FourAt(c, 9);
    }
    hide Little4, FromLittleEndian;
  }

  lemma {:induction false} FourAt(c: Bytes, at: nat)
    requires at + 4 <= |c|
    ensures FromLittleEndian(c[at..at + 4]) == Little4(c, at)
  {
    var s := c[at..at + 4];
    FourBytes(s);
    LittleMoves(c, at, s);
    assert s[4..] == [];
    assert FromLittleEndian([]) == 0;
  }

  lemma {:induction false} TwoAt(c: Bytes, at: nat)
    requires at + 2 <= |c|
    ensures FromLittleEndian(c[at..at + 2]) == Little2(c, at)
  {
    var s := c[at..at + 2];
    TwoBytes(s);
    LittleMoves(c, at, s);
    assert s[2..] == [];
    assert FromLittleEndian([]) == 0;
  }

  lemma SizeRefused(bytes: nat)
    ensures NewBlockSize(bytes).Failure? ==> NewBlockSize(bytes).error == UnsupportedBlockSize(bytes)
    ensures NewBlockSize(bytes).Success? ==> NewBlockSize(bytes).value == bytes
  {
    hide IsPowerOfTwo;
  }

  // ---------------------------------------------------------------- stored blocks

  /** A stored block authenticates at a position: as a last block exactly when it is short of a full one. */
  predicate Decrypts(reader: Sealer, stored: Bytes, index: nat) {
    && |stored| >= 28
    && var ad := AssociatedData(reader.key, index, |stored| < reader.block + 28);
       reader.cipher.decrypt(reader.secret, stored[..12], ad, stored[12..]).Some?
  }

  /** The first of a run of stored blocks that is refused, and the error it is refused with. */
  predicate RefusedAt(reader: Sealer, run: seq<Bytes>, index: nat, i: nat, error: FrameError) {
    && i < |run| && !Decrypts(reader, run[i], index + i)
    && (forall j :: 0 <= j < i ==> Decrypts(reader, run[j], index + j))
    && error == if |run[i]| < 28 then Truncated else Authentication(index + i)
  }

  lemma {:induction false} BlockAnswers(reader: Sealer, stored: Bytes, index: nat)
    ensures reader.OpenBlock(stored, index).Success? <==> Decrypts(reader, stored, index)
    ensures reader.OpenBlock(stored, index).Failure? ==>
              reader.OpenBlock(stored, index).error == if |stored| < 28 then Truncated else Authentication(index)
  {
    hide AssociatedData;
  }

  /** All of a run authenticates where it lies and is answered, or its first block that does not is named. */
  predicate Answered(reader: Sealer, run: seq<Bytes>, index: nat, i: nat, answer: Result<Bytes, FrameError>) {
    match answer
    case Failure(error) => RefusedAt(reader, run, index, i, error)
    case Success(_) => forall j :: 0 <= j < |run| ==> Decrypts(reader, run[j], index + j)
  }

  /**
   Opening stored blocks fails exactly when one of them does not authenticate where it lies, and as the first
   that does not: by its position in the object, or as too short to be a block at all.
   */
  lemma {:induction false} BlocksRefused(reader: Sealer, body: Bytes, index: nat, offset: nat, wanted: Range)
    returns (i: nat)
    ensures Answered(
      reader, Pieces(body, Stride(reader.block)), index, i, reader.OpenBlocks(body, index, offset, wanted))
  {
    OpensInTurn(reader, body, index, offset, wanted);
    hide Sealer.OpenBlocks, Sealer.OpenBlock, Pieces, Decrypts;
    var answer, run := reader.OpenBlocks(body, index, offset, wanted), Pieces(body, Stride(reader.block));
    i :| InTurn(reader, run, index, i, answer);
    forall j | 0 <= j < |run|
      ensures Authentic(reader, run[j], index + j) <==> Decrypts(reader, run[j], index + j)
    {
      BlockAnswers(reader, run[j], index + j);
    }
    if answer.Failure? {
      BlockAnswers(reader, run[i], index + i);
    }
  }

  // ---------------------------------------------------------------- gets

  lemma {:induction false} RunDecrypts(reader: Sealer, stored: seq<Bytes>, first: nat, last: nat)
    requires first <= last <= |stored|
    requires forall j :: 0 <= j < |stored[first..last]| ==> Decrypts(reader, stored[first..last][j], first + j)
    ensures RunAuthentic(reader, stored, first, last)
  {
    hide Decrypts, Sealer.OpenBlock;
    forall i | first <= i < last
      ensures Authentic(reader, stored[i], i)
    {
      assert stored[first..last][i - first] == stored[i];
      assert Decrypts(reader, stored[first..last][i - first], first + (i - first));
      BlockAnswers(reader, stored[i], i);
    }
  }

  /** Opening a span fails as opening its blocks does, unless what they hold is not all of the range. */
  lemma {:induction false} SpanFails(reader: Sealer, fetched: Bytes, first: nat, span: Range, wanted: Range)
    requires wanted.start <= wanted.end && span.start == HEADER_LEN + Times(first, Stride(reader.block))
    ensures reader.OpenBlocks(fetched, first, Times(first, reader.block), wanted).Failure? ==>
              reader.OpenSpan(fetched, span, wanted)
                == reader.OpenBlocks(fetched, first, Times(first, reader.block), wanted)
  {
    SpanStartsAt(first, reader.block, Stride(reader.block));
    hide Sealer.OpenBlocks, Times;
  }

  lemma {:induction false} FetchedRun(f: BlockFrame, ciphertext: Bytes, length: nat, first: nat, last: nat, span: Range)
    requires PlaintextLen(f.blockSize, |ciphertext|) == Success(length)
    requires first < last <= |StoredBlocks(f, ciphertext)|
    requires span.start == HEADER_LEN + Times(first, Stride(f.blockSize))
    requires span.end == Min(HEADER_LEN + Times(last, Stride(f.blockSize)), |ciphertext|)
    ensures span.start <= span.end <= |ciphertext|
    ensures Pieces(ciphertext[span.start..span.end], Stride(f.blockSize)) == StoredBlocks(f, ciphertext)[first..last]
  {
    hide PlaintextLen, Pieces, IsPowerOfTwo, Times;
    LengthAccepted(f.blockSize, |ciphertext|);
    var stride, body := Stride(f.blockSize), ciphertext[HEADER_LEN..];
    RunPieces(body, stride, first, last);
    SliceOfRest(ciphertext, HEADER_LEN, Times(first, stride), Min(Times(last, stride), |body|));
  }

  /**
   What a get of a range that is not empty is refused with: what is wrong with the header, or else the first of
   the blocks that meet the range that does not authenticate where it lies.
   */
  lemma {:induction false} GetRefused(f: BlockFrame, ciphertext: Bytes, requested: Option<GetRange>, length: nat)
    returns (i: nat)
    requires f.cipher.Lawful() && PlaintextLen(f.blockSize, |ciphertext|) == Success(length)
    requires WantedRange(requested, length).start < WantedRange(requested, length).end
    requires SealedRead(f, ciphertext, requested, false).Failure?
    ensures |ciphertext| >= 13
    ensures var error, wanted := SealedRead(f, ciphertext, requested, false).error, WantedRange(requested, length);
            var first, last := FirstMet(f.blockSize, wanted), EndMet(f.blockSize, wanted);
            match f.ReadHeader(ciphertext[..13])
            case Failure(e) => error == e
            case Success(framing) =>
              && framing.key in f.keys && first < last <= |StoredBlocks(f, ciphertext)|
              && RefusedAt(Reader(f, framing.key), StoredBlocks(f, ciphertext)[first..last], first, i, error)
  {
    i := 0;
    LengthAccepted(f.blockSize, |ciphertext|);
    if f.ReadHeader(ciphertext[..13]).Failure? {
      HeaderFails(f, ciphertext, requested, length);
    } else {
      HeaderUniqueKey(f, ciphertext);
      i := RunRefused(f, ciphertext, requested, length, f.ReadHeader(ciphertext[..13]).value.key);
    }
  }

  lemma {:induction false} HeaderFails(f: BlockFrame, ciphertext: Bytes, requested: Option<GetRange>, length: nat)
    requires |ciphertext| >= 13 && f.ReadHeader(ciphertext[..13]).Failure?
    requires PlaintextLen(f.blockSize, |ciphertext|) == Success(length)
    requires WantedRange(requested, length).start < WantedRange(requested, length).end
    ensures SealedRead(f, ciphertext, requested, false) == Failure(f.ReadHeader(ciphertext[..13]).error)
  {
    hide WantedRange, CiphertextSpan, PlaintextLen, IsPowerOfTwo, BlockFrame.OpenSpan, BlockFrame.ReadHeader;
    assert Fetch(ciphertext, Range(0, HEADER_LEN)) == ciphertext[..13];
  }

  lemma {:induction false} HeaderUniqueKey(f: BlockFrame, ciphertext: Bytes)
    requires |ciphertext| >= 13 && f.ReadHeader(ciphertext[..13]).Success?
    ensures HasHeader(f, ciphertext, f.ReadHeader(ciphertext[..13]).value.key)
  {
    var header := ciphertext[..13];
    f.HeaderUnique(header);
    hide BlockFrame.ReadHeader, Sealer.Header, HeaderKey, IsPowerOfTwo;
    assert header[..HEADER_LEN] == ciphertext[..HEADER_LEN];
  }

  lemma {:induction false} RunRefused(
    f: BlockFrame, ciphertext: Bytes, requested: Option<GetRange>, length: nat, id: KeyId) returns (i: nat)
    requires f.cipher.Lawful() && PlaintextLen(f.blockSize, |ciphertext|) == Success(length)
    requires WantedRange(requested, length).start < WantedRange(requested, length).end
    requires SealedRead(f, ciphertext, requested, false).Failure? && HasHeader(f, ciphertext, id)
    ensures var error, wanted := SealedRead(f, ciphertext, requested, false).error, WantedRange(requested, length);
            var first, last := FirstMet(f.blockSize, wanted), EndMet(f.blockSize, wanted);
            && first < last <= |StoredBlocks(f, ciphertext)|
            && RefusedAt(Reader(f, id), StoredBlocks(f, ciphertext)[first..last], first, i, error)
  {
    hide WantedRange, CiphertextSpan, PlaintextLen, IsPowerOfTwo, StoredBlocks, RunAuthentic, RefusedAt;
    hide Sealer.OpenSpan, Sealer.Header, Times, SealedRead;
    var wanted := WantedRange(requested, length);
    var first, last := FirstMet(f.blockSize, wanted), EndMet(f.blockSize, wanted);
    var span := CiphertextSpan(f.blockSize, wanted, length);
    WantedInside(requested, length);
    SpanOfRun(f, ciphertext, length, wanted);
    GetOpensRun(f, ciphertext, requested, length, id, first, last);
    GetOpensSpan(f, ciphertext, requested, length, id, span);
    i := SpanRefused(f, ciphertext, length, id, first, last, span, wanted);
  }

  lemma {:induction false} SpanRefused(
    f: BlockFrame, ciphertext: Bytes, length: nat, id: KeyId, first: nat, last: nat, span: Range, wanted: Range)
    returns (i: nat)
    requires PlaintextLen(f.blockSize, |ciphertext|) == Success(length) && id in f.keys
    requires first < last <= |StoredBlocks(f, ciphertext)| && wanted.start <= wanted.end
    requires span.start == HEADER_LEN + Times(first, Stride(f.blockSize))
    requires span.end == Min(HEADER_LEN + Times(last, Stride(f.blockSize)), |ciphertext|)
    requires !RunAuthentic(Reader(f, id), StoredBlocks(f, ciphertext), first, last)
    ensures span.start <= span.end <= |ciphertext|
    ensures var opening := Reader(f, id).OpenSpan(ciphertext[span.start..span.end], span, wanted);
            && opening.Failure?
            && RefusedAt(Reader(f, id), StoredBlocks(f, ciphertext)[first..last], first, i, opening.error)
  {
    hide IsPowerOfTwo, PlaintextLen, StoredBlocks, RunAuthentic, RefusedAt, Answered, Decrypts, Pieces, Times;
    hide Sealer.OpenSpan, Sealer.OpenBlocks;
    FetchedRun(f, ciphertext, length, first, last, span);
    var reader := Reader(f, id);
    var fetched := ciphertext[span.start..span.end];
    var opening := reader.OpenBlocks(fetched, first, Times(first, reader.block), wanted);
    i := BlocksRefused(reader, fetched, first, Times(first, reader.block), wanted);
    RunAnswered(reader, StoredBlocks(f, ciphertext), first, last, i, opening);
    SpanFails(reader, fetched, first, span, wanted);
  }

  lemma {:induction false} RunAnswered(
    reader: Sealer, stored: seq<Bytes>, first: nat, last: nat, i: nat, answer: Result<Bytes, FrameError>)
    requires first <= last <= |stored| && !RunAuthentic(reader, stored, first, last)
    requires Answered(reader, stored[first..last], first, i, answer)
    ensures answer.Failure? && RefusedAt(reader, stored[first..last], first, i, answer.error)
  {
    hide Decrypts, RefusedAt, RunAuthentic;
    if answer.Success? {
      RunDecrypts(reader, stored, first, last);
    }
  }

  // ---------------------------------------------------------------- keyfiles

  /** What is wrong first with a keyfile, up to what its key set says once it is unwrapped. */
  lemma {:induction false} KeyfileRefused(p: K.Primitives, k: Bytes, passphrase: string)
    ensures |k| < 29 ==> K.Open(p, k, passphrase) == Failure(K.MalformedKeyfile("shorter than a keyfile header"))
    ensures |k| >= 29 && k[0] != 2 ==> K.Open(p, k, passphrase) == Failure(K.KeyringError.UnsupportedVersion(k[0]))
    ensures |k| >= 29 && k[0] == 2 && |k| < 87 ==>
              K.Open(p, k, passphrase) == Failure(K.MalformedKeyfile("too short to hold even one key"))
    ensures |k| >= 87 && k[0] == 2 && (|k| - 51) % 36 != 0 ==>
              K.Open(p, k, passphrase) == Failure(K.MalformedKeyfile("length is not a whole number of keys"))
    ensures |k| >= 87 && k[0] == 2 && (|k| - 51) % 36 == 0
            && p.cipher.decrypt(p.derive(passphrase, k[1..17]), k[17..29], K.CONTEXT, k[29..]).None? ==>
              K.Open(p, k, passphrase) == Failure(K.WrongPassphrase)
  {
    hide K.DecodeKeySet;
  }

  /** What is wrong first with a key set, and otherwise that it holds the key it calls current. */
  lemma {:induction false} KeySetRefused(b: Bytes)
    ensures |b| < 6 ==>
              K.DecodeKeySet(b) == Failure(K.MalformedKeyfile("key set is shorter than its own header"))
    ensures |b| >= 6 && |b| != 6 + 36 * Little2(b, 4) ==>
              K.DecodeKeySet(b) == Failure(K.MalformedKeyfile("key set does not hold the number of keys it declares"))
    ensures K.DecodeKeySet(b).Success? ==>
              && |b| == 6 + 36 * Little2(b, 4)
              && K.DecodeKeySet(b).value.0 == Little4(b, 0)
              && Little4(b, 0) in K.DecodeKeySet(b).value.1
  {
    hide Little2, Little4, FromLittleEndian, K.DecodeEntries;
    if |b| >= 6 {
      Pow256Values();
      FourAt(b, 0);
      TwoAt(b, 4);
    }
  }
}
