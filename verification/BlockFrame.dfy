/** Sealing an object block by block, and opening any range of it. */
module BlockFrame {
  import opened Aead
  import opened Arithmetic
  import opened Bytes
  import opened Frame
  import opened Wrappers

  /** The part of `data` that a wanted range selects, when `data` starts at `offset`. */
  function Window<T>(data: seq<T>, offset: nat, wanted: Range): seq<T> {
    var from := Max(wanted.start, offset);
    var to := Min(wanted.end, offset + |data|);
    if from < to then data[from - offset..to - offset] else []
  }

  lemma {:induction false} WindowConcat<T>(a: seq<T>, b: seq<T>, offset: nat, wanted: Range)
    ensures Window(a + b, offset, wanted)
         == Window(a, offset, wanted) + Window(b, offset + |a|, wanted)
  {
    hide *;
    var from, to := wanted.start - offset, wanted.end - offset;
    WindowValue(a, offset, wanted);
    WindowValue(b, offset + |a|, wanted);
    WindowValue(a + b, offset, wanted);
    ClipConcat(a, b, from, to);
  }

  /** The elements from one position up to another, as far as they exist. */
  function Clip<T>(data: seq<T>, from: int, to: int): seq<T> {
    var lo, hi := Max(from, 0), Min(to, |data|);
    if lo < hi then data[lo..hi] else []
  }

  lemma {:induction false} WindowValue<T>(data: seq<T>, offset: nat, wanted: Range)
    ensures Window(data, offset, wanted) == Clip(data, wanted.start - offset, wanted.end - offset)
  {}

  lemma {:induction false} ClipConcat<T>(a: seq<T>, b: seq<T>, from: int, to: int)
    ensures Clip(a + b, from, to) == Clip(a, from, to) + Clip(b, from - |a|, to - |a|)
  {
    if Max(from, 0) < Min(to, |a| + |b|) {
      ClipAcross(a, b, from, to);
    }
  }

  lemma {:induction false} ClipAcross<T>(a: seq<T>, b: seq<T>, from: int, to: int)
    requires Max(from, 0) < Min(to, |a| + |b|)
    ensures Clip(a + b, from, to) == Clip(a, from, to) + Clip(b, from - |a|, to - |a|)
  {
    var lo, hi := Max(from, 0), Min(to, |a| + |b|);
    assert Clip(a + b, from, to) == (a + b)[lo..hi];
    if hi <= |a| {
      assert Clip(a, from, to) == a[lo..hi] && Clip(b, from - |a|, to - |a|) == [];
      hide *;
      SliceOfFirst(a, b, lo, hi);
    } else if |a| <= lo {
      assert Clip(a, from, to) == [] && Clip(b, from - |a|, to - |a|) == b[lo - |a|..hi - |a|];
      hide *;
      SliceOfSecond(a, b, lo, hi);
    } else {
      assert Clip(a, from, to) == a[lo..] && Clip(b, from - |a|, to - |a|) == b[..hi - |a|];
      hide *;
      SliceAcross(a, b, lo, hi);
    }
  }

  lemma {:induction false} SliceOfFirst<T>(a: seq<T>, b: seq<T>, from: nat, to: nat)
    requires from <= to <= |a|
    ensures (a + b)[from..to] == a[from..to]
  {}

  lemma {:induction false} SliceOfSecond<T>(a: seq<T>, b: seq<T>, from: nat, to: nat)
    requires |a| <= from <= to <= |a| + |b|
    ensures (a + b)[from..to] == b[from - |a|..to - |a|]
  {}

  /** What follows two parts is found behind both of them. */
  lemma {:induction false} DrawBehind(header: Bytes, body: Bytes, rest: Bytes, from: nat, n: nat)
    requires from <= |body| && body[from..] == rest && n <= |rest|
    ensures |header| + from + n <= |header + body|
    ensures (header + body)[|header| + from..|header| + from + n] == rest[..n]
  {}

  lemma {:induction false} SliceAcross<T>(a: seq<T>, b: seq<T>, from: nat, to: nat)
    requires from <= |a| <= to <= |a| + |b|
    ensures (a + b)[from..to] == a[from..] + b[..to - |a|]
  {}

  lemma {:induction false} DropConcat<T>(a: seq<T>, b: seq<T>, n: nat)
    requires |a| <= n <= |a| + |b|
    ensures (a + b)[n..] == b[n - |a|..]
  {}

  lemma TakeConcat<T>(a: seq<T>, b: seq<T>, n: nat)
    requires |a| <= n
    ensures (a + b)[..Min(n, |a + b|)] == a + b[..Min(n - |a|, |b|)]
  {}

  /** A slice that starts after the first part is a prefix of what is left of the second. */
  lemma {:induction false} SliceConcat<T>(a: seq<T>, b: seq<T>, from: nat, to: nat)
    requires from <= to && from <= |b|
    ensures (a + b)[|a| + from..Min(|a| + to, |a + b|)]
         == b[from..][..Min(to - from, |b| - from)]
  {}

  /** One data key put to work on objects of one block size. */
  datatype Sealer = Sealer(cipher: Cipher, secret: Key, key: KeyId, block: BlockLen) {

    /** A block as it is stored: its nonce, then its ciphertext and tag. */
    function Block(index: nat, final: bool, chunk: Bytes, nonce: Nonce): Bytes {
      nonce + cipher.encrypt(secret, nonce, AssociatedData(key, index, final), chunk)
    }

    /** The blocks of an object from block `index` on: a chunk is final exactly when it is short. */
    function Body(plaintext: Bytes, index: nat, draws: Draws): Bytes
      decreases |plaintext|
    {
      if |plaintext| < block then Block(index, true, plaintext, draws(index))
      else
        Block(index, false, plaintext[..block], draws(index))
        + Body(plaintext[block..], index + 1, draws)
    }

    function Header(): (h: Bytes)
      ensures |h| == HEADER_LEN
    {
      MAGIC + [VERSION] + LittleEndian(block, 4) + LittleEndian(key, 4)
    }

    /** The whole object that seals `plaintext`. */
    function Object(plaintext: Bytes, draws: Draws): Bytes {
      Header() + Body(plaintext, 0, draws)
    }

    /** The chunk a stored block decrypts to; its own length decides whether it is tried as a final one. */
    function OpenBlock(stored: Bytes, index: nat): Result<Bytes, FrameError> {
      if |stored| < BLOCK_OVERHEAD then Failure(Truncated)
      else
        var ad := AssociatedData(key, index, |stored| < Stride(block));
        match cipher.decrypt(secret, stored[..NONCE_LEN], ad, stored[NONCE_LEN..])
        case None => Failure(Authentication(index))
        case Some(chunk) => Success(chunk)
    }

    /** Open stored blocks one after another, keeping what `wanted` selects; any failure is the answer. */
    function OpenBlocks(ciphertext: Bytes, index: nat, offset: nat, wanted: Range)
      : Result<Bytes, FrameError>
      decreases |ciphertext|
    {
      if ciphertext == [] then Success([])
      else
        var stored := ciphertext[..Min(Stride(block), |ciphertext|)];
        var chunk :- OpenBlock(stored, index);
        var rest :- OpenBlocks(ciphertext[|stored|..], index + 1, offset + |chunk|, wanted);
        Success(Window(chunk, offset, wanted) + rest)
    }

    lemma {:induction false} BlockOpens(index: nat, final: bool, chunk: Bytes, nonce: Nonce)
      requires cipher.Lawful()
      ensures var b := Block(index, final, chunk, nonce);
              && |b| == |chunk| + BLOCK_OVERHEAD
              && b[..NONCE_LEN] == nonce
              && cipher.decrypt(secret, nonce, AssociatedData(key, index, final), b[NONCE_LEN..])
                 == Some(chunk)
              && ((final <==> |chunk| < block) ==> OpenBlock(b, index) == Success(chunk))
    {
      var b := Block(index, final, chunk, nonce);
      assert b[NONCE_LEN..] == cipher.encrypt(secret, nonce, AssociatedData(key, index, final), chunk);
    }

    lemma {:induction false} BodyLength(plaintext: Bytes, index: nat, draws: Draws)
      requires cipher.Lawful()
      ensures |Body(plaintext, index, draws)| == CiphertextLen(block, |plaintext|) - HEADER_LEN
      decreases |plaintext|
    {
      if |plaintext| < block {
        DivModUnique(|plaintext|, 0, |plaintext|, block);
        BlockOpens(index, true, plaintext, draws(index));
      } else {
        BlockOpens(index, false, plaintext[..block], draws(index));
        BodyLength(plaintext[block..], index + 1, draws);
        DivModStep(|plaintext|, block);
        CiphertextLenSum(block, |plaintext|);
        CiphertextLenSum(block, |plaintext| - block);
      }
    }

    /** What an object occupies is what the length arithmetic predicts. */
    lemma {:induction false} ObjectLength(plaintext: Bytes, draws: Draws)
      requires cipher.Lawful()
      ensures |Object(plaintext, draws)| == CiphertextLen(block, |plaintext|)
      ensures PlaintextLen(block, |Object(plaintext, draws)|) == Success(|plaintext|)
    {
      BodyLength(plaintext, 0, draws);
      LengthsInverse(block, CiphertextLen(block, |plaintext|), |plaintext|);
    }

    /** The first `count` stored blocks of a body, or all of it. */
    function Leading(plaintext: Bytes, index: nat, draws: Draws, count: nat): Bytes {
      var body := Body(plaintext, index, draws);
      body[..Min(Times(count, Stride(block)), |body|)]
    }

    /** Skipping stored blocks is skipping the plaintext they hold. */
    lemma {:induction false} BodyFrom(plaintext: Bytes, index: nat, draws: Draws, skip: nat)
      requires cipher.Lawful() && Times(skip, block) <= |plaintext|
      ensures Times(skip, Stride(block)) <= |Body(plaintext, index, draws)|
      ensures Body(plaintext, index, draws)[Times(skip, Stride(block))..]
           == Body(plaintext[Times(skip, block)..], index + skip, draws)
      decreases skip
    {
      hide Body, Block;
      if skip == 0 {
        assert plaintext[0..] == plaintext;
      } else {
        var chunk, rest := plaintext[..block], plaintext[block..];
        BodyFrom(rest, index + 1, draws, skip - 1);
        BodySplits(plaintext, index, draws);
        DropConcat(Block(index, false, chunk, draws(index)), Body(rest, index + 1, draws),
                   Times(skip, Stride(block)));
        DropConcat(chunk, rest, Times(skip, block));
        assert chunk + rest == plaintext;
      }
    }

    lemma {:induction false} BodySplits(plaintext: Bytes, index: nat, draws: Draws)
      requires cipher.Lawful() && |plaintext| >= block
      ensures var b := Block(index, false, plaintext[..block], draws(index));
              |b| == Stride(block)
              && Body(plaintext, index, draws) == b + Body(plaintext[block..], index + 1, draws)
    {
      BlockOpens(index, false, plaintext[..block], draws(index));
    }

    /** A short block that stands alone opens to its chunk. */
    lemma {:induction false} ShortBlockOpens(
      chunk: Bytes, index: nat, nonce: Nonce, offset: nat, wanted: Range)
      requires cipher.Lawful() && |chunk| < block
      ensures OpenBlocks(Block(index, true, chunk, nonce), index, offset, wanted)
           == Success(Window(chunk, offset, wanted))
    {
      var b := Block(index, true, chunk, nonce);
      BlockOpens(index, true, chunk, nonce);
      assert b[..|b|] == b && b[|b|..] == [];
      assert OpenBlocks([], index + 1, offset + |chunk|, wanted) == Success([]);
      var kept := Window(chunk, offset, wanted);
      assert kept + [] == kept;
    }

    /** A full block in front of anything opens to its chunk, and the rest decides. */
    lemma {:induction false} FullBlockOpens(
      chunk: Bytes, tail: Bytes, index: nat, nonce: Nonce, offset: nat, wanted: Range)
      requires cipher.Lawful() && |chunk| == block
      ensures OpenBlocks(Block(index, false, chunk, nonce) + tail, index, offset, wanted)
           == match OpenBlocks(tail, index + 1, offset + block, wanted)
              case Failure(e) => Failure(e)
              case Success(rest) => Success(Window(chunk, offset, wanted) + rest)
    {
      var b := Block(index, false, chunk, nonce);
      BlockOpens(index, false, chunk, nonce);
      hide Block;
      assert (b + tail)[..Min(Stride(block), |b + tail|)] == b && (b + tail)[|b|..] == tail;
    }

    /** Opening the leading blocks of a body keeps what `wanted` selects from the plaintext they hold. */
    lemma {:induction false} LeadingOpens(
      plaintext: Bytes, index: nat, draws: Draws, count: nat, offset: nat, wanted: Range)
      requires cipher.Lawful()
      ensures OpenBlocks(Leading(plaintext, index, draws, count), index, offset, wanted)
           == Success(Window(plaintext[..Min(Times(count, block), |plaintext|)], offset, wanted))
      decreases count
    {
      hide Body, Block, Leading, Window, OpenBlocks;
      if count == 0 {
        LeadingEnds(plaintext, index, draws, 0);
        NothingOpens(index, offset, wanted);
        assert plaintext[..Min(0, |plaintext|)] == [];
      } else if |plaintext| < block {
        LeadingEnds(plaintext, index, draws, count);
        assert plaintext[..Min(Times(count, block), |plaintext|)] == plaintext;
        ShortBlockOpens(plaintext, index, draws(index), offset, wanted);
      } else {
        LeadingOpens(plaintext[block..], index + 1, draws, count - 1, offset + block, wanted);
        LeadingStep(plaintext, index, draws, count, offset, wanted);
      }
    }

    lemma {:induction false} NothingOpens(index: nat, offset: nat, wanted: Range)
      ensures OpenBlocks([], index, offset, wanted) == Success(Window<byte>([], offset, wanted))
    {}

    lemma {:induction false} LeadingStep(
      plaintext: Bytes, index: nat, draws: Draws, count: nat, offset: nat, wanted: Range)
      requires cipher.Lawful() && count > 0 && |plaintext| >= block
      requires OpenBlocks(Leading(plaintext[block..], index + 1, draws, count - 1),
                          index + 1, offset + block, wanted)
            == Success(Window(plaintext[block..][..Min(Times(count - 1, block), |plaintext| - block)],
                              offset + block, wanted))
      ensures OpenBlocks(Leading(plaintext, index, draws, count), index, offset, wanted)
           == Success(Window(plaintext[..Min(Times(count, block), |plaintext|)], offset, wanted))
    {
      hide Body, Block, Leading, Window, OpenBlocks;
      var chunk, rest := plaintext[..block], plaintext[block..];
      LeadingSplits(plaintext, index, draws, count);
      FullBlockOpens(chunk, Leading(rest, index + 1, draws, count - 1), index, draws(index), offset, wanted);
      var kept := rest[..Min(Times(count - 1, block), |rest|)];
      WindowConcat(chunk, kept, offset, wanted);
      assert plaintext[..Min(Times(count, block), |plaintext|)] == chunk + kept;
    }

    lemma {:induction false} LeadingEnds(plaintext: Bytes, index: nat, draws: Draws, count: nat)
      requires cipher.Lawful()
      ensures count == 0 ==> Leading(plaintext, index, draws, count) == []
      ensures count > 0 && |plaintext| < block
          ==> Leading(plaintext, index, draws, count) == Block(index, true, plaintext, draws(index))
    {
      if count > 0 && |plaintext| < block {
        BlockOpens(index, true, plaintext, draws(index));
      }
    }

    lemma {:induction false} LeadingSplits(plaintext: Bytes, index: nat, draws: Draws, count: nat)
      requires cipher.Lawful() && count > 0 && |plaintext| >= block
      ensures Leading(plaintext, index, draws, count)
           == Block(index, false, plaintext[..block], draws(index))
              + Leading(plaintext[block..], index + 1, draws, count - 1)
    {
      var first := Block(index, false, plaintext[..block], draws(index));
      BlockOpens(index, false, plaintext[..block], draws(index));
      TakeConcat(first, Body(plaintext[block..], index + 1, draws), Times(count, Stride(block)));
    }

    /** Reading a range of what is stored, from the first block of `span` on. */
    function OpenSpan(ciphertext: Bytes, span: Range, wanted: Range): Result<Bytes, FrameError>
      requires wanted.start <= wanted.end
    {
      var stride := Stride(block);
      if span.start < HEADER_LEN || (span.start - HEADER_LEN) % stride != 0 then Failure(Truncated)
      else
        var first := (span.start - HEADER_LEN) / stride;
        var plaintext :- OpenBlocks(ciphertext, first, first * block, wanted);
        if |plaintext| != wanted.end - wanted.start then Failure(RangeOutsideObject)
        else Success(plaintext)
    }

    lemma {:induction false} OpensFromTheStart(ciphertext: Bytes, end: nat, wanted: Range)
      requires wanted.start <= wanted.end
      ensures OpenSpan(ciphertext, Range(HEADER_LEN, end), wanted)
           == match OpenBlocks(ciphertext, 0, 0, wanted)
              case Failure(e) => Failure(e)
              case Success(plaintext) =>
                if |plaintext| != wanted.end - wanted.start then Failure(RangeOutsideObject)
                else Success(plaintext)
    {
      hide OpenBlocks;
      DivModUnique(0, 0, 0, Stride(block));
    }

    /** What a span holds of an object is a run of its blocks, from the first one it names. */
    lemma {:induction false} SpanIsLeading(header: Bytes, plaintext: Bytes, draws: Draws, first: nat, last: nat)
      requires cipher.Lawful() && first <= last && Times(first, block) <= |plaintext|
      ensures var stored := header + Body(plaintext, 0, draws);
              var start, end := Times(first, Stride(block)), Times(last, Stride(block));
              && |header| + start <= Min(|header| + end, |stored|)
              && stored[|header| + start..Min(|header| + end, |stored|)]
                 == Leading(plaintext[Times(first, block)..], first, draws, last - first)
    {
      hide Body, Times;
      var start, end := Times(first, Stride(block)), Times(last, Stride(block));
      BodyFrom(plaintext, 0, draws, first);
      TimesAdds(first, last - first, Stride(block));
      SliceConcat(header, Body(plaintext, 0, draws), start, end);
    }

    /** What is cut out of an object between two of its blocks opens to the wanted plaintext. */
    lemma {:induction false} RunReads(
      header: Bytes, plaintext: Bytes, draws: Draws, first: nat, last: nat, wanted: Range)
      requires cipher.Lawful() && first <= last
      requires Times(first, block) <= wanted.start <= wanted.end <= Times(last, block)
      requires wanted.start <= |plaintext|
      ensures var stored := header + Body(plaintext, 0, draws);
              var start, end := Times(first, Stride(block)), Times(last, Stride(block));
              && |header| + start <= Min(|header| + end, |stored|)
              && OpenBlocks(stored[|header| + start..Min(|header| + end, |stored|)],
                            first, Times(first, block), wanted)
                 == Success(plaintext[wanted.start..Min(wanted.end, |plaintext|)])
    {
      hide *;
      SpanIsLeading(header, plaintext, draws, first, last);
      LeadingOpens(plaintext[Times(first, block)..], first, draws, last - first, Times(first, block), wanted);
      TimesAdds(first, last - first, block);
      WindowOfSlice(plaintext, Times(first, block), Times(last - first, block), wanted);
    }

    /**
     Reading a range through its span returns exactly that slice of the plaintext, and a range that
     reaches past the object is refused rather than answered short.
     */
    lemma {:induction false} RangeReads(plaintext: Bytes, draws: Draws, wanted: Range)
      requires cipher.Lawful()
      requires wanted.start <= wanted.end && wanted.start <= |plaintext|
      ensures var stored, span := Object(plaintext, draws), CiphertextSpan(block, wanted, |plaintext|);
              && span.end <= |stored|
              && OpenSpan(stored[span.start..span.end], span, wanted)
                 == if wanted.end <= |plaintext| then Success(plaintext[wanted.start..wanted.end])
                    else Failure(RangeOutsideObject)
    {
      hide Body, OpenBlocks, CiphertextLen, PlaintextLen, LittleEndian;
      var first := wanted.start / block;
      var last := Max(DivCeil(wanted.end, block), first + 1);
      SpanInside(block, wanted, |plaintext|);
      ObjectLength(plaintext, draws);
      BlocksCover(block, wanted, first, last);
      TimesIsProduct(first, Stride(block));
      TimesIsProduct(last, Stride(block));
      RunReads(Header(), plaintext, draws, first, last, wanted);
    }

    /** All of a body opens to all of its plaintext. */
    lemma {:induction false} BodyOpens(plaintext: Bytes, draws: Draws)
      requires cipher.Lawful()
      ensures OpenBlocks(Body(plaintext, 0, draws), 0, 0, Range(0, |plaintext|)) == Success(plaintext)
    {
      var body := Body(plaintext, 0, draws);
      var count := |plaintext| + |body|;
      TimesLarge(count, Stride(block));
      TimesLarge(count, block);
      assert Leading(plaintext, 0, draws, count) == body;
      LeadingOpens(plaintext, 0, draws, count, 0, Range(0, |plaintext|));
      assert plaintext[..|plaintext|] == plaintext;
    }

    /** An object opens to what was sealed. */
    lemma {:induction false} WholeReads(plaintext: Bytes, draws: Draws)
      requires cipher.Lawful()
      ensures var stored := Object(plaintext, draws);
              OpenSpan(stored[HEADER_LEN..], Range(HEADER_LEN, |stored|), Range(0, |plaintext|))
                == Success(plaintext)
    {
      hide OpenSpan;
      BodyOpens(plaintext, draws);
      var body := Body(plaintext, 0, draws);
      DropConcat(Header(), body, HEADER_LEN);
      OpensFromTheStart(body, HEADER_LEN + |body|, Range(0, |plaintext|));
    }

    /**
     A stored object names the key it is sealed under, and each of its blocks begins with a draw of its own: block
     `i` with the `i`th.
     */
    lemma {:induction false} ObjectDraws(plaintext: Bytes, draws: Draws)
      requires cipher.Lawful()
      ensures SealedWith(Object(plaintext, draws), block, key, |plaintext|, draws)
    {
      var stored := Object(plaintext, draws);
      ObjectKey(plaintext, draws);
      ObjectLength(plaintext, draws);
      hide LittleEndian, FromLittleEndian, CiphertextLen, PlaintextLen;
      forall i: nat | i <= |plaintext| / block
        ensures BlockStart(block, i) + NONCE_LEN <= |stored|
        ensures stored[BlockStart(block, i)..BlockStart(block, i) + NONCE_LEN] == draws(i)
      {
        DivBelow(|plaintext|, block, i);
        TimesIsProduct(i, block);
        TimesIsProduct(i, Stride(block));
        BlockDraw(plaintext, draws, i);
      }
    }

    lemma {:induction false} ObjectKey(plaintext: Bytes, draws: Draws)
      ensures |Object(plaintext, draws)| >= HEADER_LEN && HeaderKey(Object(plaintext, draws)) == key
    {
      Pow256Values();
      LittleEndianReads(key, 4);
      assert Object(plaintext, draws)[9..13] == Header()[9..13] == LittleEndian(key, 4);
    }

    lemma {:induction false} BlockDraw(plaintext: Bytes, draws: Draws, i: nat)
      requires cipher.Lawful() && Times(i, block) <= |plaintext|
      ensures HEADER_LEN + Times(i, Stride(block)) + NONCE_LEN <= |Object(plaintext, draws)|
      ensures var start := HEADER_LEN + Times(i, Stride(block));
              Object(plaintext, draws)[start..start + NONCE_LEN] == draws(i)
    {
      assert Object(plaintext, draws) == Header() + Body(plaintext, 0, draws);
      hide *;
      BodyFrom(plaintext, 0, draws, i);
      BodyDraw(plaintext[Times(i, block)..], i, draws);
      DrawBehind(Header(), Body(plaintext, 0, draws), Body(plaintext[Times(i, block)..], i, draws),
                 Times(i, Stride(block)), NONCE_LEN);
    }

    lemma {:induction false} BodyDraw(rest: Bytes, i: nat, draws: Draws)
      requires cipher.Lawful()
      ensures |Body(rest, i, draws)| >= NONCE_LEN && Body(rest, i, draws)[..NONCE_LEN] == draws(i)
    {
      if |rest| < block {
        BlockOpens(i, true, rest, draws(i));
      } else {
        BlockOpens(i, false, rest[..block], draws(i));
        BodySplits(rest, i, draws);
      }
    }
  }

  /** Whose object it is, and which draw each of its blocks begins with. */
  predicate SealedWith(stored: Bytes, block: BlockLen, key: KeyId, length: nat, draws: Draws) {
    && |stored| >= HEADER_LEN && HeaderKey(stored) == key
    && forall i: nat :: i <= length / block ==>
         && BlockStart(block, i) + NONCE_LEN <= |stored|
         && stored[BlockStart(block, i)..BlockStart(block, i) + NONCE_LEN] == draws(i)
  }

  /** The blocks of a span hold the whole wanted range. */
  lemma {:induction false} BlocksCover(block: BlockLen, wanted: Range, first: nat, last: nat)
    requires first == wanted.start / block && last == Max(DivCeil(wanted.end, block), first + 1)
    ensures Times(first, block) == first * block <= wanted.start
    ensures wanted.end <= Times(last, block)
  {
    TimesIsProduct(first, block);
    TimesIsProduct(last, block);
    DivBelow(wanted.start, block, first);
    if wanted.end > 0 {
      DivCeilPrevious(wanted.end, block);
      DivBelow(wanted.end - 1, block, last);
    }
  }

  lemma TimesLarge(i: nat, unit: nat)
    requires unit > 0
    ensures Times(i, unit) >= i
  {}

  /** Selecting from a piece of the plaintext that holds all of a range selects the range. */
  lemma {:induction false} WindowOfSlice<T>(plaintext: seq<T>, offset: nat, length: nat, wanted: Range)
    requires offset <= wanted.start <= wanted.end <= offset + length && wanted.start <= |plaintext|
    ensures Window(plaintext[offset..][..Min(length, |plaintext| - offset)], offset, wanted)
         == plaintext[wanted.start..Min(wanted.end, |plaintext|)]
  {
    var end := offset + Min(length, |plaintext| - offset);
    assert end <= |plaintext| && Min(wanted.end, end) == Min(wanted.end, |plaintext|);
    assert end - offset == Min(length, |plaintext| - offset);
    hide *;
    TakeOfDrop(plaintext, offset, end);
    WindowOfPart(plaintext, offset, end, wanted);
  }

  lemma {:induction false} TakeOfDrop<T>(data: seq<T>, from: nat, to: nat)
    requires from <= to <= |data|
    ensures data[from..][..to - from] == data[from..to]
  {}

  lemma {:induction false} WindowOfPart<T>(plaintext: seq<T>, offset: nat, end: nat, wanted: Range)
    requires offset <= wanted.start <= end <= |plaintext| && wanted.start <= wanted.end
    ensures Window(plaintext[offset..end], offset, wanted) == plaintext[wanted.start..Min(wanted.end, end)]
  {
    var to := Min(wanted.end, end);
    if wanted.start < to {
      SliceOfSlice(plaintext, offset, end, wanted.start, to);
    }
  }

  lemma {:induction false} SliceOfSlice<T>(data: seq<T>, a: nat, b: nat, from: nat, to: nat)
    requires a <= from <= to <= b <= |data|
    ensures data[a..b][from - a..to - a] == data[from..to]
  {
    forall k | 0 <= k < to - from
      ensures data[a..b][from - a..to - a][k] == data[from..to][k]
    {
      assert data[a..b][from - a + k] == data[from + k];
    }
  }

  /** The block size and key id that `ReadHeader` finds. */
  datatype Framing = Framing(blockSize: BlockSize, key: KeyId)

  /** Seals under one key and opens under every key it holds. */
  datatype BlockFrame = BlockFrame(
    cipher: Cipher,
    keys: map<KeyId, Key>,
    current: KeyId,
    blockSize: BlockSize)
  {
    function SealerFor(id: KeyId): (r: Result<Sealer, FrameError>) {
      if id in keys then Success(Sealer(cipher, keys[id], id, blockSize)) else Failure(UnknownKey(id))
    }

    function SealObject(plaintext: Bytes, draws: Draws): Result<Bytes, FrameError> {
      var sealer :- SealerFor(current);
      Success(sealer.Object(plaintext, draws))
    }

    function ReadHeader(ciphertext: Bytes): Result<Framing, FrameError> {
      if |ciphertext| < HEADER_LEN then Failure(Truncated)
      else if ciphertext[..4] != MAGIC then Failure(NotFramed)
      else if ciphertext[4] != VERSION then Failure(UnsupportedVersion(ciphertext[4]))
      else
        var declared := FromLittleEndian(ciphertext[5..9]);
        if declared != blockSize then Failure(BlockSizeMismatch(declared, blockSize))
        else
          var key := HeaderKey(ciphertext);
          if key !in keys then Failure(UnknownKey(key)) else Success(Framing(declared, key))
    }

    function OpenSpan(ciphertext: Bytes, span: Range, wanted: Range, framing: Framing)
      : Result<Bytes, FrameError>
      requires wanted.start <= wanted.end
    {
      var sealer :- SealerFor(framing.key);
      sealer.OpenSpan(ciphertext, span, wanted)
    }

    function Open(ciphertext: Bytes): Result<Bytes, FrameError> {
      var plaintextLen :- PlaintextLen(blockSize, |ciphertext|);
      var framing :- ReadHeader(ciphertext);
      OpenSpan(ciphertext[HEADER_LEN..], Range(HEADER_LEN, |ciphertext|), Range(0, plaintextLen), framing)
    }

    /** A frame reads the header of whatever it can seal. */
    lemma {:induction false} HeaderReads(id: KeyId, rest: Bytes)
      requires id in keys
      ensures ReadHeader(Sealer(cipher, keys[id], id, blockSize).Header() + rest)
           == Success(Framing(blockSize, id))
    {
      var h := Sealer(cipher, keys[id], id, blockSize).Header();
      var c := h + rest;
      Pow256Values();
      assert c[..4] == MAGIC && c[4] == VERSION;
      assert c[5..9] == LittleEndian(blockSize, 4) && c[9..13] == LittleEndian(id, 4);
      LittleEndianReads(blockSize, 4);
      LittleEndianReads(id, 4);
    }

    /** A header is read successfully only if it is, byte for byte, one this frame writes. */
    lemma {:induction false} HeaderUnique(ciphertext: Bytes)
      requires ReadHeader(ciphertext).Success?
      ensures var id := HeaderKey(ciphertext);
              && id in keys
              && ReadHeader(ciphertext) == Success(Framing(blockSize, id))
              && ciphertext[..HEADER_LEN] == Sealer(cipher, keys[id], id, blockSize).Header()
    {
      LittleEndianWrites(ciphertext[5..9]);
      LittleEndianWrites(ciphertext[9..13]);
      assert ciphertext[..HEADER_LEN]
          == ciphertext[..4] + [ciphertext[4]] + ciphertext[5..9] + ciphertext[9..13];
    }

    /** A framed object opens to what was sealed. */
    lemma {:induction false} OpenSealed(id: KeyId, plaintext: Bytes, draws: Draws)
      requires cipher.Lawful() && id in keys
      ensures Open(Sealer(cipher, keys[id], id, blockSize).Object(plaintext, draws))
           == Success(plaintext)
    {
      var s := Sealer(cipher, keys[id], id, blockSize);
      s.ObjectLength(plaintext, draws);
      HeaderReads(id, s.Body(plaintext, 0, draws));
      s.WholeReads(plaintext, draws);
    }
  }

  /** The key an object's header names. */
  function HeaderKey(ciphertext: Bytes): KeyId
    requires |ciphertext| >= HEADER_LEN
  {
    Pow256Values();
    FromLittleEndian(ciphertext[9..13])
  }
}
