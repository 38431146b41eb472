/** What the chunks of a text are, in numbers: a window of 512 tokens, two of which are the graph's own. */
module ChunkLaws {
  import opened Arithmetic
  import opened Bytes
  import opened Chunks
  import opened Wrappers

  /** The end of the first `k` groups of `m` tokens each, or of all tokens where there are no more. */
  function CutAt(offsets: seq<Offset>, m: nat, k: nat): nat {
    var tokens := Min(k * m, |offsets|);
    if tokens <= 0 then 0 else offsets[tokens - 1].end
  }

  /** Whether the bytes between two positions are there and break no character. */
  predicate Whole(text: Bytes, start: nat, end: nat) {
    start <= end <= |text| && BetweenCharacters(text, start) && BetweenCharacters(text, end)
  }

  /** Every byte that continues a character, and no other, has 2 as its upper two bits. */
  predicate BetweenCharacters(text: Bytes, i: nat)
    requires i <= |text|
  {
    i == 0 || i == |text| || text[i] / 64 != 2
  }

  /** The piece between two cuts, if it breaks no character and is not blank. */
  function PieceAt(text: Bytes, blank: Bytes -> bool, offsets: seq<Offset>, m: nat, k: nat): Option<Bytes> {
    var start, end := CutAt(offsets, m, k), CutAt(offsets, m, k + 1);
    if Whole(text, start, end) && !blank(text[start..end]) then Some(text[start..end]) else None
  }

  /**
   `chunks` are, in order, the pieces at the positions `at` among `count` groups of `m` tokens, and these are the
   positions of all pieces that break no character and are not blank.
   */
  predicate CutInto(
    text: Bytes, blank: Bytes -> bool, offsets: seq<Offset>, m: nat, count: nat, chunks: seq<Bytes>, at: seq<nat>)
  {
    && |chunks| == |at|
    && (forall i, j :: 0 <= i < j < |at| ==> at[i] < at[j])
    && (forall i :: 0 <= i < |at| ==> at[i] < count && PieceAt(text, blank, offsets, m, at[i]) == Some(chunks[i]))
    && (forall k: nat :: k < count ==> (k in at <==> PieceAt(text, blank, offsets, m, k).Some?))
  }

  lemma {:induction false} CutAtIsEdge(offsets: seq<Offset>, m: nat, k: nat)
    requires m >= 1
    ensures CutAt(offsets, m, k) == Edge(offsets, m, k)
  {
    TimesIsProduct(k, m);
  }

  lemma {:induction false} WholeIsSlice(text: Bytes, start: nat, end: nat)
    ensures Slice(text, Segment(start, end)) == if Whole(text, start, end) then Some(text[start..end]) else None
  {}

  lemma {:induction false} PieceIsKept(text: Bytes, blank: Bytes -> bool, offsets: seq<Offset>, m: nat, k: nat)
    ensures KeptOf(text, blank, Segment(CutAt(offsets, m, k), CutAt(offsets, m, k + 1)))
         == match PieceAt(text, blank, offsets, m, k) case Some(piece) => [piece] case None => []
  {
    WholeIsSlice(text, CutAt(offsets, m, k), CutAt(offsets, m, k + 1));
    hide Whole, Slice, CutAt;
  }

  lemma {:induction false} CutSkips(
    text: Bytes, blank: Bytes -> bool, offsets: seq<Offset>, m: nat, count: nat, chunks: seq<Bytes>, at: seq<nat>)
    requires CutInto(text, blank, offsets, m, count, chunks, at) && PieceAt(text, blank, offsets, m, count).None?
    ensures CutInto(text, blank, offsets, m, count + 1, chunks, at)
  {
    hide PieceAt;
    assert count !in at;
  }

  lemma {:induction false} CutTakes(
    text: Bytes, blank: Bytes -> bool, offsets: seq<Offset>, m: nat, count: nat, chunks: seq<Bytes>, at: seq<nat>,
    piece: Bytes)
    requires CutInto(text, blank, offsets, m, count, chunks, at)
    requires PieceAt(text, blank, offsets, m, count) == Some(piece)
    ensures CutInto(text, blank, offsets, m, count + 1, chunks + [piece], at + [count])
  {
    hide PieceAt;
    assert count !in at;
    forall k: nat | k < count + 1
      ensures k in at + [count] <==> PieceAt(text, blank, offsets, m, k).Some?
    {
    }
  }

  lemma CutNone(text: Bytes, blank: Bytes -> bool, offsets: seq<Offset>, m: nat)
    ensures CutInto(text, blank, offsets, m, 0, [], [])
  {}

  lemma {:induction false} KeptCut(
    text: Bytes, blank: Bytes -> bool, offsets: seq<Offset>, m: nat, count: nat) returns (at: seq<nat>)
    requires m >= 1 && count <= |Segments(offsets, m)|
    ensures CutInto(text, blank, offsets, m, count, KeptFirst(text, blank, Segments(offsets, m), count), at)
  {
    hide *;
    if count == 0 {
      at := [];
      KeptFirstEnds(text, blank, Segments(offsets, m));
      CutNone(text, blank, offsets, m);
    } else {
      var last := count - 1;
      at := KeptCut(text, blank, offsets, m, last);
      SegmentIs(offsets, m, last);
      var before := KeptFirst(text, blank, Segments(offsets, m), last);
      KeptSnoc(text, blank, Segments(offsets, m), last);
      PieceIsKept(text, blank, offsets, m, last);
      match PieceAt(text, blank, offsets, m, last)
      case Some(piece) =>
        CutTakes(text, blank, offsets, m, last, before, at, piece);
        at := at + [last];
      case None =>
        CutSkips(text, blank, offsets, m, last, before, at);
        assert before + [] == before;
    }
  }

  lemma {:induction false} SegmentIs(offsets: seq<Offset>, m: nat, k: nat)
    requires m >= 1 && k < |Segments(offsets, m)|
    ensures Segments(offsets, m)[k] == Segment(CutAt(offsets, m, k), CutAt(offsets, m, k + 1))
  {
    SegmentAt(offsets, m, k);
    CutAtIsEdge(offsets, m, k);
    CutAtIsEdge(offsets, m, k + 1);
  }

  /** How many of `n` tokens the piece between two cuts covers. */
  function TokensAt(n: nat, m: nat, k: nat): int {
    Min((k + 1) * m, n) - k * m
  }

  lemma {:induction false} TokensFit(n: nat, m: nat, count: nat, k: nat)
    requires k < count && (count - 1) * m < n
    ensures 1 <= TokensAt(n, m, k) <= m || m == 0
  {
    MulMonotone(k, count - 1, m);
    assert (k + 1) * m == k * m + m;
  }

  /**
   A text whose tokens and the prefix's come to at most 510, or that has no token at all, is its own one chunk.
   Without the tokens of both there is no answer but the tokenizer's error.
   */
  lemma ShortText(tokenizer: Tokenizer, prefix: Bytes, blank: Bytes -> bool, text: Bytes)
    ensures tokenizer(prefix).Failure? ==> ChunksOf(tokenizer, prefix, blank, text) == Failure(tokenizer(prefix).error)
    ensures tokenizer(prefix).Success? && tokenizer(text).Failure? ==>
              ChunksOf(tokenizer, prefix, blank, text) == Failure(tokenizer(text).error)
    ensures tokenizer(prefix).Success? && tokenizer(text).Success?
            && (|tokenizer(text).value| + |tokenizer(prefix).value| <= 510 || tokenizer(text).value == []) ==>
              ChunksOf(tokenizer, prefix, blank, text) == Success([text])
  {
    hide Kept, Segments, Pace;
  }

  /**
   A longer text is cut behind every `m`th token, `m` being what a window of 512 holds beside the prefix and two
   tokens, or 1 where that is nothing; its chunks are all the pieces that break no character and are not blank.
   */
  lemma {:induction false} LongText(tokenizer: Tokenizer, prefix: Bytes, blank: Bytes -> bool, text: Bytes)
    returns (m: nat, count: nat, at: seq<nat>)
    requires tokenizer(prefix).Success? && tokenizer(text).Success? && tokenizer(text).value != []
    requires |tokenizer(text).value| + |tokenizer(prefix).value| > 510
    ensures m >= 1
    ensures |tokenizer(prefix).value| < 510 ==> |tokenizer(prefix).value| + 2 + m == 512
    ensures |tokenizer(prefix).value| >= 510 ==> m == 1
    ensures count >= 1 && (count - 1) * m < |tokenizer(text).value| <= count * m
    ensures forall k: nat :: k < count ==>
      && 1 <= TokensAt(|tokenizer(text).value|, m, k)
      && (|tokenizer(prefix).value| < 510 ==>
            |tokenizer(prefix).value| + TokensAt(|tokenizer(text).value|, m, k) + 2 <= 512)
    ensures ChunksOf(tokenizer, prefix, blank, text).Success?
    ensures CutInto(
      text, blank, tokenizer(text).value, m, count, ChunksOf(tokenizer, prefix, blank, text).value, at)
  {
    var offsets := tokenizer(text).value;
    m, count := Counted(|offsets|, |tokenizer(prefix).value|);
    LongIsKept(tokenizer, prefix, blank, text, m, count);
    hide *;
    forall k: nat | k < count
      ensures 1 <= TokensAt(|offsets|, m, k) <= m
    {
      TokensFit(|offsets|, m, count, k);
    }
    at := KeptCut(text, blank, offsets, m, count);
    KeptFirstEnds(text, blank, Segments(offsets, m));
  }

  lemma {:induction false} Counted(n: nat, p: nat) returns (m: nat, count: nat)
    requires n > 0
    ensures m == Pace(Budget(p)) && count == DivCeil(n, m)
    ensures m >= 1 && (p < 510 ==> p + 2 + m == 512) && (p >= 510 ==> m == 1)
    ensures count >= 1 && (count - 1) * m < n <= count * m
  {
    m := Pace(Budget(p));
    count := DivCeil(n, m);
    DivCeilPrevious(n, m);
    DivBelow(n - 1, m, count);
    DivBelow(n - 1, m, count - 1);
  }

  lemma {:induction false} LongIsKept(
    tokenizer: Tokenizer, prefix: Bytes, blank: Bytes -> bool, text: Bytes, m: nat, count: nat)
    requires tokenizer(prefix).Success? && tokenizer(text).Success? && tokenizer(text).value != []
    requires |tokenizer(text).value| + |tokenizer(prefix).value| > 510
    requires m == Pace(Budget(|tokenizer(prefix).value|)) && count == DivCeil(|tokenizer(text).value|, m)
    ensures |Segments(tokenizer(text).value, m)| == count
    ensures ChunksOf(tokenizer, prefix, blank, text)
         == Success(Kept(text, blank, Segments(tokenizer(text).value, m)))
  {
    hide Kept, DivCeil, Pace;
  }
}
