/** The loops that seal a whole object and that open a span of one. */
module FrameLoops {
  import opened Aead
  import opened Arithmetic
  import opened Bytes
  import opened Frame
  import opened BlockFrame
  import opened Wrappers

  /** `slice::chunks`: full pieces, and a shorter one if anything is left. */
  function Pieces(data: Bytes, size: BlockLen): seq<Bytes>
    decreases |data|
  {
    if data == [] then []
    else if |data| <= size then [data]
    else [data[..size]] + Pieces(data[size..], size)
  }

  /** The chunks an object is sealed in: full ones, then exactly one that is short. */
  function Chunks(data: Bytes, size: BlockLen): (chunks: seq<Bytes>)
    ensures |chunks| > 0
    ensures |chunks| == 1 <==> |data| < size
    decreases |data|
  {
    if |data| < size then [data] else [data[..size]] + Chunks(data[size..], size)
  }

  /** Adding an empty chunk to an exact multiple is what makes every object end short. */
  lemma {:induction false} PiecesEndShort(data: Bytes, size: BlockLen)
    ensures Chunks(data, size) == Pieces(data, size) + if |data| % size == 0 then [[]] else []
    decreases |data|
  {
    if |data| < size {
      DivModUnique(|data|, 0, |data|, size);
    } else {
      DivModStep(|data|, size);
      PiecesEndShort(data[size..], size);
      if |data| == size {
        assert data[..size] == data && data[size..] == [];
      }
    }
  }

  method Seal(f: BlockFrame, plaintext: Bytes, draws: Draws) returns (r: Result<Bytes, FrameError>)
    ensures r == f.SealObject(plaintext, draws)
  {
    var sealer :- f.SealerFor(f.current);
    var out := sealer.Header();
    var chunks := Pieces(plaintext, sealer.block);
    if |plaintext| % sealer.block == 0 {
      chunks := chunks + [[]];
    }
    PiecesEndShort(plaintext, sealer.block);
    var last := |chunks| - 1;
    ghost var rest := plaintext;
    for index := 0 to |chunks|
      invariant index <= last ==> chunks[index..] == Chunks(rest, sealer.block)
      invariant index <= last ==> out + sealer.Body(rest, index, draws) == sealer.Object(plaintext, draws)
      invariant index > last ==> out == sealer.Object(plaintext, draws)
    {
      hide sealer.Object;
      ghost var before := out;
      assert chunks[index] == chunks[index..][0] && chunks[index + 1..] == chunks[index..][1..];
      out := out + sealer.Block(index, index == last, chunks[index], draws(index));
      if index < last {
        ghost var b := sealer.Block(index, false, rest[..sealer.block], draws(index));
        rest := rest[sealer.block..];
        assert before + (b + sealer.Body(rest, index + 1, draws))
            == (before + b) + sealer.Body(rest, index + 1, draws);
      }
    }
    return Success(out);
  }

  method OpenSpan(f: BlockFrame, ciphertext: Bytes, span: Range, wanted: Range, framing: Framing)
    returns (r: Result<Bytes, FrameError>)
    requires wanted.start <= wanted.end
    ensures r == f.OpenSpan(ciphertext, span, wanted, framing)
  {
    var sealer :- f.SealerFor(framing.key);
    hide IsPowerOfTwo, Sealer.OpenBlocks;
    var stride := Stride(sealer.block);
    if span.start < HEADER_LEN || (span.start - HEADER_LEN) % stride != 0 {
      return Failure(Truncated);
    }
    var first := (span.start - HEADER_LEN) / stride;
    MulMonotone(0, first, sealer.block);
    var plaintext :- OpenBlocks(sealer, ciphertext, first, first * sealer.block, wanted);
    if |plaintext| != wanted.end - wanted.start {
      return Failure(RangeOutsideObject);
    }
    return Success(plaintext);
  }

  /** The loop of `OpenSpan`, from the first block on. */
  method OpenBlocks(sealer: Sealer, ciphertext: Bytes, first: nat, start: nat, wanted: Range)
    returns (r: Result<Bytes, FrameError>)
    ensures r == sealer.OpenBlocks(ciphertext, first, start, wanted)
  {
    var plaintext: Bytes := [];
    var offset: nat, index: nat, rest: Bytes := start, first, ciphertext;
    ghost var goal := sealer.OpenBlocks(ciphertext, first, start, wanted);
    hide Remaining, Window, Sealer.OpenBlocks, Sealer.OpenBlock;
    RemainingStarts(sealer, ciphertext, first, start, wanted);
    while rest != []
      invariant goal == Remaining(sealer, rest, index, offset, wanted, plaintext)
      decreases |rest|
    {
      var stored := NextStored(rest, sealer.block);
      RemainingStep(sealer, rest, index, offset, wanted, plaintext);
      var chunk :- sealer.OpenBlock(stored, index);
      plaintext, offset := plaintext + Window(chunk, offset, wanted), offset + |chunk|;
      rest, index := rest[|stored|..], index + 1;
    }
    RemainingEnds(sealer, index, offset, wanted, plaintext);
    return Success(plaintext);
  }

  /** `chunks(stride)`, one at a time. */
  function NextStored(rest: Bytes, block: BlockLen): (stored: Bytes)
    requires rest != []
    ensures 0 < |stored| <= |rest|
  {
    rest[..Min(Stride(block), |rest|)]
  }

  /** What reading ends with when `taken` is kept and `rest` is still to be read. */
  function Remaining(s: Sealer, rest: Bytes, index: nat, offset: nat, wanted: Range, taken: Bytes)
    : Result<Bytes, FrameError>
  {
    var tail :- s.OpenBlocks(rest, index, offset, wanted);
    Success(taken + tail)
  }

  lemma {:induction false} RemainingStarts(s: Sealer, rest: Bytes, index: nat, offset: nat, wanted: Range)
    ensures Remaining(s, rest, index, offset, wanted, []) == s.OpenBlocks(rest, index, offset, wanted)
  {
    hide Sealer.OpenBlocks;
    var all := s.OpenBlocks(rest, index, offset, wanted);
    assert all.Success? ==> [] + all.value == all.value;
  }

  lemma {:induction false} RemainingEnds(s: Sealer, index: nat, offset: nat, wanted: Range, taken: Bytes)
    ensures Remaining(s, [], index, offset, wanted, taken) == Success(taken)
  {
    assert taken + [] == taken;
  }

  /** Reading one block moves what it holds from what is left to read to what is kept. */
  lemma {:induction false} RemainingStep(
    s: Sealer, rest: Bytes, index: nat, offset: nat, wanted: Range, taken: Bytes)
    requires rest != []
    ensures var stored := NextStored(rest, s.block);
            Remaining(s, rest, index, offset, wanted, taken)
              == match s.OpenBlock(stored, index)
                 case Failure(e) => Failure(e)
                 case Success(chunk) =>
                   Remaining(s, rest[|stored|..], index + 1, offset + |chunk|, wanted,
                             taken + Window(chunk, offset, wanted))
  {
    hide Sealer.OpenBlock, Window;
    var stored := NextStored(rest, s.block);
    var chunk := s.OpenBlock(stored, index);
    if chunk.Success? {
      var kept := Window(chunk.value, offset, wanted);
      var tail := s.OpenBlocks(rest[|stored|..], index + 1, offset + |chunk.value|, wanted);
      assert tail.Success? ==> taken + (kept + tail.value) == (taken + kept) + tail.value;
    }
  }
}
