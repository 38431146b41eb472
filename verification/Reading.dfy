/** What it takes to open stored bytes, whatever they are and wherever they come from. */
module Reading {
  import opened Arithmetic
  import opened Bytes
  import opened Frame
  import opened BlockFrame
  import opened FrameLoops
  import opened Wrappers

  /** Whether a reader accepts a stored piece at a position. */
  predicate Authentic(reader: Sealer, piece: Bytes, index: nat) {
    reader.OpenBlock(piece, index).Success?
  }

  /** What the accepted pieces hold, one behind another. */
  function Recovered(reader: Sealer, pieces: seq<Bytes>, index: nat): Bytes
    decreases |pieces|
  {
    if pieces == [] then []
    else
      match reader.OpenBlock(pieces[0], index)
      case Failure(_) => []
      case Success(chunk) => chunk + Recovered(reader, pieces[1..], index + 1)
  }

  ghost predicate AllAuthentic(reader: Sealer, pieces: seq<Bytes>, index: nat) {
    forall i :: 0 <= i < |pieces| ==> Authentic(reader, pieces[i], index + i)
  }

  // ---------------------------------------------------------------- pieces

  lemma {:induction false} PiecesFirst(data: Bytes, size: BlockLen)
    requires data != []
    ensures Pieces(data, size) == [data[..Min(size, |data|)]] + Pieces(data[Min(size, |data|)..], size)
  {
    if |data| <= size {
      assert data[..|data|] == data && data[|data|..] == [];
    }
  }

  /** Piece `i` lies between the `i`th and the next multiple of the size, or the end. */
  lemma {:induction false} PieceAt(data: Bytes, size: BlockLen, i: nat)
    requires i < |Pieces(data, size)|
    ensures Times(i, size) < |data| && Times(i + 1, size) == Times(i, size) + size
    ensures Pieces(data, size)[i] == data[Times(i, size)..Min(Times(i + 1, size), |data|)]
    decreases i
  {
    PiecesFirst(data, size);
    if i > 0 {
      var rest := data[Min(size, |data|)..];
      PieceAt(rest, size, i - 1);
      SliceOfRest(data, size, Times(i - 1, size), Min(Times(i, size), |rest|));
    }
  }

  lemma {:induction false} SliceOfRest(data: Bytes, n: nat, from: nat, to: nat)
    requires n <= |data| && from <= to <= |data| - n
    ensures data[n..][from..to] == data[n + from..n + to]
  {}

  /** Dropping whole pieces' worth of data drops the pieces. */
  lemma {:induction false} PiecesDrop(data: Bytes, size: BlockLen, count: nat)
    requires Times(count, size) <= |data|
    ensures count <= |Pieces(data, size)|
    ensures Pieces(data[Times(count, size)..], size) == Pieces(data, size)[count..]
    decreases count
  {
    if count == 0 {
      assert data[0..] == data;
    } else {
      PiecesFirst(data, size);
      PiecesDrop(data[size..], size, count - 1);
      assert data[size..][Times(count - 1, size)..] == data[Times(count, size)..];
    }
  }

  /** Taking whole pieces' worth of data, as far as there is any, takes the pieces. */
  lemma {:induction false} PiecesTake(data: Bytes, size: BlockLen, count: nat)
    ensures Pieces(data[..Min(Times(count, size), |data|)], size)
         == Pieces(data, size)[..Min(count, |Pieces(data, size)|)]
    decreases count
  {
    if count > 0 && data != [] {
      var n, t := Min(size, |data|), Min(Times(count, size), |data|);
      assert 0 < n <= t && n == Min(size, t) && t - n == Min(Times(count - 1, size), |data| - n);
      hide Times, Pieces;
      PiecesFirst(data, size);
      PiecesFirst(data[..t], size);
      TakeParts(data, n, t);
      PiecesTake(data[n..], size, count - 1);
      TakeOfPieces(data[..n], Pieces(data[n..], size), count);
    } else {
      assert data[..0] == [];
    }
  }

  lemma {:induction false} TakeParts(data: Bytes, n: nat, t: nat)
    requires n <= t <= |data|
    ensures data[..t][..n] == data[..n] && data[..t][n..] == data[n..][..t - n]
  {}

  lemma {:induction false} TakeOfPieces(first: Bytes, rest: seq<Bytes>, count: nat)
    requires count > 0
    ensures ([first] + rest)[..Min(count, 1 + |rest|)] == [first] + rest[..Min(count - 1, |rest|)]
  {}

  /** How many pieces there are, by how the length divides. */
  lemma {:induction false} PiecesCount(data: Bytes, size: BlockLen, q: nat, r: nat)
    requires r < size && |data| == Times(q, size) + r
    ensures |Pieces(data, size)| == if r == 0 then q else q + 1
    decreases q
  {
    if q > 0 {
      PiecesFirst(data, size);
      PiecesCount(data[size..], size, q - 1, r);
    }
  }

  // ---------------------------------------------------------------- opening

  /** Opening stored bytes is opening their first piece and then the rest. */
  lemma {:induction false} OpensPieceByPiece(reader: Sealer, body: Bytes, index: nat, offset: nat, wanted: Range)
    requires body != []
    ensures var n := Min(Stride(reader.block), |body|);
            reader.OpenBlocks(body, index, offset, wanted)
              == match reader.OpenBlock(body[..n], index)
                 case Failure(e) => Failure(e)
                 case Success(chunk) =>
                   match reader.OpenBlocks(body[n..], index + 1, offset + |chunk|, wanted)
                   case Failure(e) => Failure(e)
                   case Success(rest) => Success(Window(chunk, offset, wanted) + rest)
  {
    hide Sealer.OpenBlock, Window;
  }

  /** The first piece of stored bytes, and what follows it. */
  function Head(body: Bytes, size: BlockLen): Bytes {
    body[..Min(size, |body|)]
  }

  function Tail(body: Bytes, size: BlockLen): Bytes {
    body[Min(size, |body|)..]
  }

  lemma TailShorter(body: Bytes, size: BlockLen)
    requires body != []
    ensures |Tail(body, size)| < |body|
  {}

  /** Opening stored bytes fails as opening their first piece does, or else as opening the rest. */
  lemma {:induction false} OpensWhenRestOpens(reader: Sealer, body: Bytes, index: nat, offset: nat, wanted: Range)
    requires body != []
    ensures var answer := reader.OpenBlocks(body, index, offset, wanted);
            match reader.OpenBlock(Head(body, Stride(reader.block)), index)
            case Failure(e) => answer == Failure(e)
            case Success(chunk) =>
              var later := reader.OpenBlocks(Tail(body, Stride(reader.block)), index + 1, offset + |chunk|, wanted);
              && (answer.Failure? <==> later.Failure?)
              && (answer.Failure? ==> answer.error == later.error)
  {
    OpensPieceByPiece(reader, body, index, offset, wanted);
    hide Sealer.OpenBlocks, Sealer.OpenBlock, Window;
  }

  /** All pieces are accepted and something is answered, or the first that is not is answered with its own error. */
  ghost predicate InTurn(reader: Sealer, pieces: seq<Bytes>, index: nat, i: nat, answer: Result<Bytes, FrameError>) {
    match answer
    case Success(_) => AllAuthentic(reader, pieces, index)
    case Failure(error) =>
      && i < |pieces| && reader.OpenBlock(pieces[i], index + i) == Failure(error)
      && forall j :: 0 <= j < i ==> Authentic(reader, pieces[j], index + j)
  }

  lemma {:induction false} LaterInTurn(
    reader: Sealer, first: Bytes, rest: seq<Bytes>, index: nat, i: nat,
    later: Result<Bytes, FrameError>, answer: Result<Bytes, FrameError>)
    requires reader.OpenBlock(first, index).Success? && InTurn(reader, rest, index + 1, i, later)
    requires (answer.Failure? <==> later.Failure?) && (answer.Failure? ==> answer.error == later.error)
    ensures InTurn(reader, [first] + rest, index, i + 1, answer)
  {
    FirstAuthentic(reader, first, rest, index);
    hide Sealer.OpenBlock, AllAuthentic;
    var all := [first] + rest;
    if answer.Failure? {
      assert all[i + 1] == rest[i] && index + (i + 1) == index + 1 + i;
      forall j | 0 <= j < i + 1
        ensures Authentic(reader, all[j], index + j)
      {
        assert j > 0 ==> all[j] == rest[j - 1] && Authentic(reader, rest[j - 1], index + 1 + (j - 1));
      }
    }
  }

  /** Some position is where opening the pieces of stored bytes stops, if it does. */
  ghost predicate StopsInTurn(reader: Sealer, body: Bytes, index: nat, answer: Result<Bytes, FrameError>) {
    exists i: nat :: InTurn(reader, Pieces(body, Stride(reader.block)), index, i, answer)
  }

  lemma {:induction false} StepInTurn(
    reader: Sealer, body: Bytes, index: nat, later: Result<Bytes, FrameError>, answer: Result<Bytes, FrameError>)
    requires body != []
    requires match reader.OpenBlock(Head(body, Stride(reader.block)), index)
             case Failure(error) => answer == Failure(error)
             case Success(_) =>
               && StopsInTurn(reader, Tail(body, Stride(reader.block)), index + 1, later)
               && (answer.Failure? <==> later.Failure?) && (answer.Failure? ==> answer.error == later.error)
    ensures StopsInTurn(reader, body, index, answer)
  {
    var first, rest := Head(body, Stride(reader.block)), Pieces(Tail(body, Stride(reader.block)), Stride(reader.block));
    PiecesFirst(body, Stride(reader.block));
    assert Pieces(body, Stride(reader.block)) == [first] + rest;
    hide Sealer.OpenBlock, Pieces, Head, Tail, InTurn;
    if reader.OpenBlock(first, index).Success? {
      var i: nat :| InTurn(reader, rest, index + 1, i, later);
      LaterInTurn(reader, first, rest, index, i, later, answer);
    } else {
      FirstInTurn(reader, first, rest, index, answer);
    }
  }

  lemma FirstInTurn(reader: Sealer, first: Bytes, rest: seq<Bytes>, index: nat, answer: Result<Bytes, FrameError>)
    requires answer.Failure? && reader.OpenBlock(first, index) == answer
    ensures InTurn(reader, [first] + rest, index, 0, answer)
  {
    hide Sealer.OpenBlock;
  }

  lemma NothingInTurn(reader: Sealer, index: nat, offset: nat, wanted: Range)
    ensures StopsInTurn(reader, [], index, reader.OpenBlocks([], index, offset, wanted))
  {
    assert InTurn(reader, Pieces([], Stride(reader.block)), index, 0, reader.OpenBlocks([], index, offset, wanted));
  }

  /** Stored bytes open piece by piece, up to the first that is not accepted at its place. */
  lemma {:induction false} OpensInTurn(reader: Sealer, body: Bytes, index: nat, offset: nat, wanted: Range)
    ensures StopsInTurn(reader, body, index, reader.OpenBlocks(body, index, offset, wanted))
    decreases |body|
  {
    hide *;
    if body == [] {
      NothingInTurn(reader, index, offset, wanted);
    } else {
      var tail := Tail(body, Stride(reader.block));
      TailShorter(body, Stride(reader.block));
      OpensWhenRestOpens(reader, body, index, offset, wanted);
      var answer := reader.OpenBlocks(body, index, offset, wanted);
      var opening := reader.OpenBlock(Head(body, Stride(reader.block)), index);
      var later := answer;
      if opening.Success? {
        OpensInTurn(reader, tail, index + 1, offset + |opening.value|, wanted);
        later := reader.OpenBlocks(tail, index + 1, offset + |opening.value|, wanted);
      }
      StepInTurn(reader, body, index, later, answer);
    }
  }

  /** Opening stored bytes succeeds exactly when each piece is accepted at its place. */
  lemma {:induction false} OpensWhenAuthentic(reader: Sealer, body: Bytes, index: nat, offset: nat, wanted: Range)
    ensures reader.OpenBlocks(body, index, offset, wanted).Success?
       <==> AllAuthentic(reader, Pieces(body, Stride(reader.block)), index)
  {
    OpensInTurn(reader, body, index, offset, wanted);
    hide Sealer.OpenBlocks, Sealer.OpenBlock, Pieces;
    var answer, pieces := reader.OpenBlocks(body, index, offset, wanted), Pieces(body, Stride(reader.block));
    var i: nat :| InTurn(reader, pieces, index, i, answer);
    if answer.Failure? {
      assert !Authentic(reader, pieces[i], index + i);
    }
  }

  lemma PiecesEmpty(size: BlockLen)
    ensures Pieces([], size) == []
  {}

  lemma {:induction false} FirstAuthentic(reader: Sealer, first: Bytes, rest: seq<Bytes>, index: nat)
    ensures AllAuthentic(reader, [first] + rest, index)
       <==> reader.OpenBlock(first, index).Success? && AllAuthentic(reader, rest, index + 1)
  {
    var all := [first] + rest;
    assert forall i :: 0 <= i < |rest| ==> all[i + 1] == rest[i];
    if AllAuthentic(reader, all, index) {
      forall i | 0 <= i < |rest|
        ensures Authentic(reader, rest[i], index + 1 + i)
      {
        assert Authentic(reader, all[i + 1], index + (i + 1));
      }
      assert Authentic(reader, all[0], index + 0);
    } else if Authentic(reader, first, index) && AllAuthentic(reader, rest, index + 1) {
      forall i | 0 <= i < |all|
        ensures Authentic(reader, all[i], index + i)
      {
        assert i > 0 ==> Authentic(reader, rest[i - 1], index + 1 + (i - 1));
      }
    }
  }

  /** What opening answers is what `wanted` selects from what the pieces hold. */
  lemma {:induction false} OpensToRecovered(reader: Sealer, body: Bytes, index: nat, offset: nat, wanted: Range)
    requires reader.OpenBlocks(body, index, offset, wanted).Success?
    ensures reader.OpenBlocks(body, index, offset, wanted).value
         == Window(Recovered(reader, Pieces(body, Stride(reader.block)), index), offset, wanted)
    decreases |body|
  {
    hide Sealer.OpenBlocks, Sealer.OpenBlock, Pieces, Window;
    if body == [] {
      PiecesEmpty(Stride(reader.block));
      reader.NothingOpens(index, offset, wanted);
    } else {
      var n := Min(Stride(reader.block), |body|);
      OpensPieceByPiece(reader, body, index, offset, wanted);
      PiecesFirst(body, Stride(reader.block));
      var chunk := reader.OpenBlock(body[..n], index).value;
      OpensToRecovered(reader, body[n..], index + 1, offset + |chunk|, wanted);
      var rest := Pieces(body[n..], Stride(reader.block));
      assert ([body[..n]] + rest)[1..] == rest;
      WindowConcat(chunk, Recovered(reader, rest, index + 1), offset, wanted);
    }
  }

  /** Each accepted piece holds its length without the overhead, so full ones hold a block each. */
  lemma {:induction false} RecoveredLength(reader: Sealer, body: Bytes, index: nat, q: nat, short: bool, r: nat)
    requires reader.cipher.Lawful() && r < reader.block
    requires |body| == Times(q, Stride(reader.block)) + if short then r + BLOCK_OVERHEAD else 0
    requires AllAuthentic(reader, Pieces(body, Stride(reader.block)), index)
    ensures |Recovered(reader, Pieces(body, Stride(reader.block)), index)|
         == Times(q, reader.block) + if short then r else 0
    decreases q
  {
    hide Pieces;
    if body == [] {
      PiecesEmpty(Stride(reader.block));
      assert q > 0 ==> Times(q, Stride(reader.block)) >= Stride(reader.block);
    } else {
      var n := Min(Stride(reader.block), |body|);
      PiecesFirst(body, Stride(reader.block));
      var rest := Pieces(body[n..], Stride(reader.block));
      FirstAuthentic(reader, body[..n], rest, index);
      AcceptedLength(reader, body[..n], index);
      assert ([body[..n]] + rest)[1..] == rest;
      hide Sealer.OpenBlock;
      if q > 0 {
        RecoveredLength(reader, body[n..], index + 1, q - 1, short, r);
      } else {
        assert body[n..] == [];
        PiecesEmpty(Stride(reader.block));
      }
    }
  }

  lemma {:induction false} AcceptedLength(reader: Sealer, piece: Bytes, index: nat)
    requires reader.cipher.Lawful() && Authentic(reader, piece, index)
    ensures |piece| == |reader.OpenBlock(piece, index).value| + BLOCK_OVERHEAD
  {}

  // ---------------------------------------------------------------- whole requests

  /** Whether an object begins with the header that a key of the frame is written with. */
  predicate HasHeader(f: BlockFrame, ciphertext: Bytes, id: KeyId) {
    && |ciphertext| >= HEADER_LEN && id in f.keys
    && ciphertext[..HEADER_LEN] == Reader(f, id).Header()
  }

  function Reader(f: BlockFrame, id: KeyId): Sealer
    requires id in f.keys
  {
    Sealer(f.cipher, f.keys[id], id, f.blockSize)
  }

  /** What follows the header, a full stored block at a time. */
  function StoredBlocks(f: BlockFrame, ciphertext: Bytes): seq<Bytes> {
    if |ciphertext| < HEADER_LEN then [] else Pieces(ciphertext[HEADER_LEN..], Stride(f.blockSize))
  }

  /** What the pieces of a run of stored blocks are. */
  lemma {:induction false} RunPieces(body: Bytes, size: BlockLen, first: nat, last: nat)
    requires first < last <= |Pieces(body, size)|
    ensures Times(first, size) <= Min(Times(last, size), |body|)
    ensures Pieces(body[Times(first, size)..Min(Times(last, size), |body|)], size) == Pieces(body, size)[first..last]
  {
    PiecesReach(body, size, first);
    PiecesDrop(body, size, first);
    PiecesTake(body[Times(first, size)..], size, last - first);
    TimesAdds(first, last - first, size);
    var from, to := Times(first, size), Min(Times(last, size), |body|);
    assert to - from == Min(Times(last - first, size), |body| - from) && to <= |body|;
    hide *;
    TakeOfDrop(body, from, to);
    TakeOfDrop(Pieces(body, size), first, last);
  }

  lemma {:induction false} PiecesReach(data: Bytes, size: BlockLen, count: nat)
    requires count <= |Pieces(data, size)|
    ensures count < |Pieces(data, size)| ==> Times(count, size) <= |data|
    ensures count == |Pieces(data, size)| ==> |data| <= Times(count, size)
    decreases count
  {
    if count > 0 {
      PiecesFirst(data, size);
      PiecesReach(data[Min(size, |data|)..], size, count - 1);
    }
  }

  /** The body of an object whose size is accepted, in blocks. */
  lemma {:induction false} BodyShape(f: BlockFrame, ciphertext: Bytes, length: nat)
    requires PlaintextLen(f.blockSize, |ciphertext|) == Success(length)
    ensures var q, r := length / f.blockSize, length % f.blockSize;
            && |ciphertext| == HEADER_LEN + Times(q, Stride(f.blockSize)) + (r + BLOCK_OVERHEAD)
            && length == Times(q, f.blockSize) + r
            && |StoredBlocks(f, ciphertext)| == q + 1
  {
    hide IsPowerOfTwo;
    var q, r := length / f.blockSize, length % f.blockSize;
    CiphertextLenOfPlaintextLen(f.blockSize, |ciphertext|);
    TimesIsProduct(q, Stride(f.blockSize));
    TimesIsProduct(q, f.blockSize);
    PiecesCount(ciphertext[HEADER_LEN..], Stride(f.blockSize), q, r + BLOCK_OVERHEAD);
  }

  /** Whether the stored blocks of a run are accepted where they lie. */
  ghost predicate RunAuthentic(reader: Sealer, stored: seq<Bytes>, first: nat, last: nat) {
    last <= |stored| && forall i :: first <= i < last ==> Authentic(reader, stored[i], i)
  }

  /** What the stored blocks of a run hold. */
  function RunHolds(reader: Sealer, stored: seq<Bytes>, first: nat, last: nat): Bytes
    requires first <= last <= |stored|
  {
    Recovered(reader, stored[first..last], first)
  }

  lemma {:induction false} RunIsAll(reader: Sealer, stored: seq<Bytes>, first: nat, last: nat)
    requires first <= last <= |stored|
    ensures AllAuthentic(reader, stored[first..last], first) <==> RunAuthentic(reader, stored, first, last)
  {
    var run := stored[first..last];
    if AllAuthentic(reader, run, first) {
      forall i | first <= i < last
        ensures Authentic(reader, stored[i], i)
      {
        assert Authentic(reader, run[i - first], first + (i - first));
      }
    }
  }

  lemma {:induction false} RunHoldsFirst(reader: Sealer, stored: seq<Bytes>, first: nat, last: nat)
    requires first < last <= |stored| && Authentic(reader, stored[first], first)
    ensures RunHolds(reader, stored, first, last)
         == reader.OpenBlock(stored[first], first).value + RunHolds(reader, stored, first + 1, last)
  {
    hide Sealer.OpenBlock;
    assert stored[first..last][1..] == stored[first + 1..last];
  }

  lemma NothingHeld(reader: Sealer, stored: seq<Bytes>, q: nat)
    requires q <= |stored|
    ensures RunHolds(reader, stored, q, q) == []
  {
    assert stored[q..q] == [];
  }

  /** What a run holds is what its beginning holds and then what its rest holds. */
  lemma {:induction false} RunHoldsSplits(reader: Sealer, stored: seq<Bytes>, first: nat, q: nat, last: nat)
    requires first <= q <= last <= |stored| && RunAuthentic(reader, stored, first, last)
    ensures RunHolds(reader, stored, first, last)
         == RunHolds(reader, stored, first, q) + RunHolds(reader, stored, q, last)
    decreases q - first
  {
    if first == q {
      NothingHeld(reader, stored, q);
      hide *;
    } else {
      assert Authentic(reader, stored[first], first) && RunAuthentic(reader, stored, first + 1, last);
      hide *;
      RunHoldsSplits(reader, stored, first + 1, q, last);
      RunHoldsFirst(reader, stored, first, last);
      RunHoldsFirst(reader, stored, first, q);
      Associates(reader.OpenBlock(stored[first], first).value, RunHolds(reader, stored, first + 1, q),
                 RunHolds(reader, stored, q, last));
    }
  }

  lemma Associates(a: Bytes, b: Bytes, c: Bytes)
    ensures (a + b) + c == a + (b + c)
  {}

  /**
   Opening a run of stored blocks that reaches from the first byte of a range to its last succeeds exactly when
   each of them is accepted where it lies, and answers the range of what they hold.
   */
  lemma {:induction false} RunOpens(
    f: BlockFrame, id: KeyId, ciphertext: Bytes, length: nat, first: nat, last: nat, span: Range, wanted: Range)
    requires f.cipher.Lawful() && id in f.keys
    requires PlaintextLen(f.blockSize, |ciphertext|) == Success(length)
    requires first < last <= |StoredBlocks(f, ciphertext)|
    requires Times(first, f.blockSize) <= wanted.start <= wanted.end <= Min(Times(last, f.blockSize), length)
    requires span.start == HEADER_LEN + Times(first, Stride(f.blockSize))
    requires span.end == Min(HEADER_LEN + Times(last, Stride(f.blockSize)), |ciphertext|)
    ensures span.start <= span.end
    ensures var opening := Reader(f, id).OpenSpan(ciphertext[span.start..span.end], span, wanted);
            var stored := StoredBlocks(f, ciphertext);
            && (opening.Success? <==> RunAuthentic(Reader(f, id), stored, first, last))
            && (opening.Success? ==>
                  && |opening.value| == wanted.end - wanted.start
                  && wanted.end <= Times(first, f.blockSize) + |RunHolds(Reader(f, id), stored, first, last)|
                  && opening.value
                     == Window(RunHolds(Reader(f, id), stored, first, last), Times(first, f.blockSize), wanted))
  {
    hide IsPowerOfTwo, PlaintextLen, Pieces, Sealer.OpenBlocks, Authentic;
    var reader, stride, body := Reader(f, id), Stride(f.blockSize), ciphertext[HEADER_LEN..];
    var stored := StoredBlocks(f, ciphertext);
    RunPieces(body, stride, first, last);
    var fetched := ciphertext[span.start..span.end];
    SliceOfRest(ciphertext, HEADER_LEN, Times(first, stride), Min(Times(last, stride), |body|));
    RunIsAll(reader, stored, first, last);
    OpensWhenAuthentic(reader, fetched, first, Times(first, f.blockSize), wanted);
    SpanStartsAt(first, f.blockSize, stride);
    if RunAuthentic(reader, stored, first, last) {
      OpensToRecovered(reader, fetched, first, Times(first, f.blockSize), wanted);
      RunLength(f, id, ciphertext, length, first, last);
    }
  }

  lemma {:induction false} SpanStartsAt(first: nat, block: BlockLen, stride: BlockLen)
    ensures Times(first, stride) % stride == 0 && Times(first, stride) / stride == first
    ensures Times(first, block) == first * block
  {
    TimesIsProduct(first, stride);
    TimesIsProduct(first, block);
    DivModUnique(Times(first, stride), first, 0, stride);
  }

  /** An accepted run holds whole blocks, as far as the object's length goes. */
  lemma {:induction false} RunLength(
    f: BlockFrame, id: KeyId, ciphertext: Bytes, length: nat, first: nat, last: nat)
    requires f.cipher.Lawful() && id in f.keys
    requires PlaintextLen(f.blockSize, |ciphertext|) == Success(length)
    requires first < last <= |StoredBlocks(f, ciphertext)|
    requires RunAuthentic(Reader(f, id), StoredBlocks(f, ciphertext), first, last)
    ensures Times(first, f.blockSize) + |RunHolds(Reader(f, id), StoredBlocks(f, ciphertext), first, last)|
         == Min(Times(last, f.blockSize), length)
  {
    hide IsPowerOfTwo, PlaintextLen, Pieces, Authentic, Recovered;
    var reader, stride, body := Reader(f, id), Stride(f.blockSize), ciphertext[HEADER_LEN..];
    var q, r := length / f.blockSize, length % f.blockSize;
    BodyShape(f, ciphertext, length);
    RunPieces(body, stride, first, last);
    RunIsAll(reader, StoredBlocks(f, ciphertext), first, last);
    RunSize(q, r + BLOCK_OVERHEAD, first, last, stride);
    RunSize(q, r, first, last, f.blockSize);
    var run := body[Times(first, stride)..Min(Times(last, stride), |body|)];
    assert |run| == Min(Times(last, stride), |body|) - Times(first, stride);
    assert StoredBlocks(f, ciphertext) == Pieces(body, stride);
    hide *;
    assert RunHolds(reader, StoredBlocks(f, ciphertext), first, last) == Recovered(reader, Pieces(run, stride), first);
    if last <= q {
      RecoveredLength(reader, run, first, last - first, false, 0);
    } else {
      RecoveredLength(reader, run, first, q - first, true, r);
    }
  }

  /** What lies between two multiples of a unit, of `q` full units and a part of one. */
  lemma {:induction false} RunSize(q: nat, part: nat, first: nat, last: nat, unit: nat)
    requires first < last <= q + 1 && part <= unit
    ensures Min(Times(last, unit), Times(q, unit) + part)
         == Times(first, unit) + if last <= q then Times(last - first, unit) else Times(q - first, unit) + part
  {
    if last <= q {
      TimesAdds(last, q - last, unit);
      TimesAdds(first, last - first, unit);
    } else {
      TimesAdds(first, q - first, unit);
    }
  }
}
