/** Cutting a text where its tokens end, a budget of tokens at a time. */
module Chunks {
  import opened Arithmetic
  import opened Bytes
  import opened Wrappers

  const TOKEN_LIMIT: nat := 512

  /** Where a token begins and ends in the text, in bytes. */
  datatype Offset = Offset(start: nat, end: nat)

  /** What tokenising a text's UTF-8 bytes gives, without the graph's special tokens. */
  type Tokenizer = Bytes -> Result<seq<Offset>, string>

  datatype Segment = Segment(start: nat, end: nat)

  /** Whether a position lies between characters: at an end, or not before a continuation byte. */
  predicate Boundary(text: Bytes, i: nat) {
    i == 0 || i == |text| || (i < |text| && !(0x80 <= text[i] < 0xC0))
  }

  /** A slice of a text, unless it is out of range or would cut a character. */
  function Slice(text: Bytes, s: Segment): Option<Bytes> {
    if s.start <= s.end <= |text| && Boundary(text, s.start) && Boundary(text, s.end)
    then Some(text[s.start..s.end])
    else None
  }

  /** How many tokens of text a window holds beside the prefix and two special tokens. */
  function Budget(prefixTokens: nat): nat {
    if prefixTokens + 2 <= TOKEN_LIMIT then TOKEN_LIMIT - (prefixTokens + 2) else 0
  }

  /** How many tokens a segment takes: even without a budget, one. */
  function Pace(budget: nat): (m: nat)
    ensures m >= 1
  {
    if budget == 0 then 1 else budget
  }

  /** The first token of segment `k`, which is the end of the tokens where there is no such segment. */
  function FirstToken(n: nat, m: nat, k: nat): (i: nat)
    ensures i <= n
  {
    Min(Times(k, m), n)
  }

  /** Where segment `k` begins: at the end of the token before its first, and the text's start for the first. */
  function Edge(offsets: seq<Offset>, m: nat, k: nat): nat
    requires m >= 1
  {
    var first := FirstToken(|offsets|, m, k);
    if first == 0 then 0 else offsets[first - 1].end
  }

  /** Groups of `m` tokens, the last of which may be smaller, each reaching from the one before. */
  function Segments(offsets: seq<Offset>, m: nat): (s: seq<Segment>)
    requires m >= 1
    ensures |s| == DivCeil(|offsets|, m)
  {
    seq(DivCeil(|offsets|, m), k requires 0 <= k => Segment(Edge(offsets, m, k), Edge(offsets, m, k + 1)))
  }

  lemma SegmentAt(offsets: seq<Offset>, m: nat, k: nat)
    requires m >= 1 && k < DivCeil(|offsets|, m)
    ensures Segments(offsets, m)[k] == Segment(Edge(offsets, m, k), Edge(offsets, m, k + 1))
  {}

  /** A segment's piece of the text, unless it cannot be cut out or is blank. */
  function KeptOf(text: Bytes, blank: Bytes -> bool, segment: Segment): seq<Bytes> {
    match Slice(text, segment)
    case Some(piece) => if blank(piece) then [] else [piece]
    case None => []
  }

  /** The segments that can be cut out of the text and are not blank. */
  function Kept(text: Bytes, blank: Bytes -> bool, segments: seq<Segment>): seq<Bytes> {
    if segments == [] then []
    else
      var n := |segments| - 1;
      Kept(text, blank, segments[..n]) + KeptOf(text, blank, segments[n])
  }

  /** What is kept of the first `k` segments. */
  function KeptFirst(text: Bytes, blank: Bytes -> bool, segments: seq<Segment>, k: nat): seq<Bytes>
    requires k <= |segments|
  {
    Kept(text, blank, segments[..k])
  }

  lemma KeptFirstEnds(text: Bytes, blank: Bytes -> bool, segments: seq<Segment>)
    ensures KeptFirst(text, blank, segments, 0) == []
    ensures KeptFirst(text, blank, segments, |segments|) == Kept(text, blank, segments)
  {
    assert segments[..0] == [] && segments[..|segments|] == segments;
  }

  function ChunksOf(tokenizer: Tokenizer, prefix: Bytes, blank: Bytes -> bool, text: Bytes)
    : Result<seq<Bytes>, string>
  {
    var ofPrefix :- tokenizer(prefix);
    var offsets :- tokenizer(text);
    if |offsets| <= Budget(|ofPrefix|) then Success([text])
    else Success(Kept(text, blank, Segments(offsets, Pace(Budget(|ofPrefix|)))))
  }

  /** Token `Times(k, m) + taken` is the last of segment `k` exactly when the segment is full or the tokens end. */
  lemma {:induction false} SegmentCloses(n: nat, m: nat, k: nat, taken: nat)
    requires m >= 1 && 1 <= taken <= m && Times(k, m) + taken <= n
    requires taken == m || Times(k, m) + taken == n
    ensures FirstToken(n, m, k + 1) == Times(k, m) + taken
    ensures k < DivCeil(n, m)
    ensures Times(k, m) + taken == n ==> DivCeil(n, m) == k + 1
  {
    TimesAdds(k, 1, m);
    assert Times(1, m) == m by {
      TimesIsProduct(1, m);
    }
    TimesIsProduct(k, m);
    DivCeilPrevious(n, m);
    DivBelow(n - 1, m, k);
    if Times(k, m) + taken == n {
      DivModUnique(n - 1, k, taken - 1, m);
    }
  }

  /** What closing segment `k` behind its `taken`th token adds. */
  lemma {:induction false} SegmentAdds(
    text: Bytes, blank: Bytes -> bool, offsets: seq<Offset>, m: nat, k: nat, taken: nat)
    requires m >= 1 && 1 <= taken <= m && Times(k, m) + taken <= |offsets|
    requires taken == m || Times(k, m) + taken == |offsets|
    ensures k < DivCeil(|offsets|, m)
    ensures Times(k, m) + taken == |offsets| ==> DivCeil(|offsets|, m) == k + 1
    ensures taken == m ==> Times(k + 1, m) == Times(k, m) + taken
    ensures Edge(offsets, m, k + 1) == offsets[Times(k, m) + taken - 1].end
    ensures KeptFirst(text, blank, Segments(offsets, m), k + 1)
         == KeptFirst(text, blank, Segments(offsets, m), k)
            + KeptOf(text, blank, Segment(Edge(offsets, m, k), offsets[Times(k, m) + taken - 1].end))
  {
    SegmentCloses(|offsets|, m, k, taken);
    assert Edge(offsets, m, k + 1) == offsets[Times(k, m) + taken - 1].end;
    assert Times(k + 1, m) == m + Times(k, m);
    SegmentAt(offsets, m, k);
    hide *;
    KeptSnoc(text, blank, Segments(offsets, m), k);
  }

  lemma {:induction false} KeptSnoc(text: Bytes, blank: Bytes -> bool, segments: seq<Segment>, k: nat)
    requires k < |segments|
    ensures KeptFirst(text, blank, segments, k + 1)
         == KeptFirst(text, blank, segments, k) + KeptOf(text, blank, segments[k])
  {
    hide KeptOf;
    assert segments[..k + 1][..k] == segments[..k];
  }

  /** A text within the budget whole, and of any other what `Walk` cuts out of it. */
  method Chunks(tokenizer: Tokenizer, prefix: Bytes, blank: Bytes -> bool, text: Bytes)
    returns (result: Result<seq<Bytes>, string>)
    ensures result == ChunksOf(tokenizer, prefix, blank, text)
  {
    var ofPrefix :- tokenizer(prefix);
    var budget := Budget(|ofPrefix|);
    var offsets :- tokenizer(text);
    if |offsets| <= budget {
      return Success([text]);
    }
    var chunks := Walk(text, blank, offsets, budget);
    result := Success(chunks);
  }

  lemma KeptPiece(text: Bytes, blank: Bytes -> bool, segment: Segment)
    ensures Slice(text, segment).Some? && !blank(Slice(text, segment).value)
        ==> KeptOf(text, blank, segment) == [Slice(text, segment).value]
    ensures !(Slice(text, segment).Some? && !blank(Slice(text, segment).value))
        ==> KeptOf(text, blank, segment) == []
  {
    hide Slice;
  }

  /** Where the walk stands before a token: behind `k` whole segments and `taken` tokens of the next. */
  ghost predicate Walked(
    text: Bytes, blank: Bytes -> bool, offsets: seq<Offset>, m: nat,
    index: nat, k: nat, start: nat, taken: nat, chunks: seq<Bytes>)
    requires m >= 1
  {
    && taken < m && k <= DivCeil(|offsets|, m)
    && (Times(k, m) + taken == index || (taken == 0 && index == |offsets|))
    && start == Edge(offsets, m, k)
    && chunks == KeptFirst(text, blank, Segments(offsets, m), k)
    && (index == |offsets| ==> k == DivCeil(|offsets|, m))
  }

  lemma WalkStarts(text: Bytes, blank: Bytes -> bool, offsets: seq<Offset>, m: nat)
    requires m >= 1 && offsets != []
    ensures Walked(text, blank, offsets, m, 0, 0, 0, 0, [])
  {
    hide Slice, Segments, Kept, DivCeil;
    KeptFirstEnds(text, blank, Segments(offsets, m));
  }

  lemma WalkGoesOn(
    text: Bytes, blank: Bytes -> bool, offsets: seq<Offset>, m: nat,
    index: nat, k: nat, start: nat, taken: nat, chunks: seq<Bytes>)
    requires m >= 1 && Walked(text, blank, offsets, m, index, k, start, taken, chunks)
    requires index + 1 < |offsets| && taken + 1 < m
    ensures Walked(text, blank, offsets, m, index + 1, k, start, taken + 1, chunks)
  {
    hide Segments, KeptFirst, DivCeil, Edge, Times;
  }

  lemma {:induction false} WalkCloses(
    text: Bytes, blank: Bytes -> bool, offsets: seq<Offset>, m: nat,
    index: nat, k: nat, start: nat, taken: nat, chunks: seq<Bytes>)
    requires m >= 1 && Walked(text, blank, offsets, m, index, k, start, taken, chunks)
    requires index < |offsets| && (taken + 1 == m || index + 1 == |offsets|)
    ensures Walked(text, blank, offsets, m, index + 1, k + 1, offsets[index].end, 0,
                   chunks + KeptOf(text, blank, Segment(start, offsets[index].end)))
  {
    hide Segments, KeptFirst, KeptOf, DivCeil, Edge, Times;
    SegmentAdds(text, blank, offsets, m, k, taken + 1);
  }

  lemma WalkEnds(
    text: Bytes, blank: Bytes -> bool, offsets: seq<Offset>, m: nat,
    k: nat, start: nat, taken: nat, chunks: seq<Bytes>)
    requires m >= 1 && Walked(text, blank, offsets, m, |offsets|, k, start, taken, chunks)
    ensures chunks == Kept(text, blank, Segments(offsets, m))
  {
    hide Segments, Kept, KeptFirst, DivCeil, Edge, Times;
    KeptFirstEnds(text, blank, Segments(offsets, m));
  }

  method Walk(text: Bytes, blank: Bytes -> bool, offsets: seq<Offset>, budget: nat) returns (chunks: seq<Bytes>)
    requires |offsets| > budget
    ensures chunks == Kept(text, blank, Segments(offsets, Pace(budget)))
  {
    chunks := [];
    var start, taken := 0, 0;
    ghost var m, k := Pace(budget), 0;
    assert m == if budget == 0 then 1 else budget;
    hide *;
    WalkStarts(text, blank, offsets, m);
    for index := 0 to |offsets|
      invariant taken < m && Walked(text, blank, offsets, m, index, k, start, taken, chunks)
    {
      if taken + 1 < m && index + 1 < |offsets| {
        WalkGoesOn(text, blank, offsets, m, index, k, start, taken, chunks);
      } else {
        WalkCloses(text, blank, offsets, m, index, k, start, taken, chunks);
      }
      taken := taken + 1;
      if taken >= budget || index + 1 == |offsets| {
        var piece := Slice(text, Segment(start, offsets[index].end));
        KeptPiece(text, blank, Segment(start, offsets[index].end));
        ghost var before := chunks;
        if piece.Some? && !blank(piece.value) {
          chunks := chunks + [piece.value];
        }
        assert chunks == before + KeptOf(text, blank, Segment(start, offsets[index].end));
        start := offsets[index].end;
        taken := 0;
        k := k + 1;
      }
    }
    WalkEnds(text, blank, offsets, m, k, start, taken, chunks);
  }

  // ---------------------------------------------------------------- what the segments are

  /** Tokens in the order of the text, each ending between characters, as a tokenizer gives them. */
  predicate InOrder(offsets: seq<Offset>, text: Bytes) {
    && (forall i :: 0 <= i < |offsets| ==> offsets[i].end <= |text| && Boundary(text, offsets[i].end))
    && (forall i, j :: 0 <= i <= j < |offsets| ==> offsets[i].end <= offsets[j].end)
  }

  /** The bytes of the segments, one behind another. */
  function Joined(text: Bytes, segments: seq<Segment>): Bytes {
    if segments == [] then []
    else
      var n := |segments| - 1;
      Joined(text, segments[..n])
      + match Slice(text, segments[n])
        case Some(piece) => piece
        case None => []
  }

  lemma {:induction false} EdgesAscend(offsets: seq<Offset>, text: Bytes, m: nat, k: nat)
    requires m >= 1 && InOrder(offsets, text)
    ensures Edge(offsets, m, k) <= Edge(offsets, m, k + 1) <= |text|
    ensures Boundary(text, Edge(offsets, m, k)) && Boundary(text, Edge(offsets, m, k + 1))
  {
    assert Boundary(text, 0);
    hide Boundary;
    TimesAdds(k, 1, m);
  }

  lemma {:induction false} JoinedStep(text: Bytes, segments: seq<Segment>, k: nat, a: nat, b: nat)
    requires 0 < k <= |segments| && segments[k - 1] == Segment(a, b)
    requires a <= b <= |text| && Boundary(text, a) && Boundary(text, b)
    requires Joined(text, segments[..k - 1]) == text[..a]
    ensures Joined(text, segments[..k]) == text[..b]
  {
    hide Boundary;
    assert segments[..k][..k - 1] == segments[..k - 1];
    assert text[..a] + text[a..b] == text[..b];
  }

  /** Segment by segment, nothing between the text's start and a segment's end is left out or repeated. */
  lemma {:induction false} SegmentsJoin(offsets: seq<Offset>, text: Bytes, m: nat, k: nat)
    requires m >= 1 && InOrder(offsets, text) && k <= DivCeil(|offsets|, m)
    ensures Edge(offsets, m, k) <= |text|
    ensures Joined(text, Segments(offsets, m)[..k]) == text[..Edge(offsets, m, k)]
  {
    var segments := Segments(offsets, m);
    assert k == 0 ==> Edge(offsets, m, k) == 0;
    hide Edge, InOrder, Boundary, DivCeil;
    if k > 0 {
      SegmentsJoin(offsets, text, m, k - 1);
      EdgesAscend(offsets, text, m, k - 1);
      SegmentAt(offsets, m, k - 1);
      hide Segments;
      var a, b := Edge(offsets, m, k - 1), Edge(offsets, m, k);
      JoinedStep(text, segments, k, a, b);
    }
  }

  /** How many tokens segment `k` covers. */
  function TokensIn(n: nat, m: nat, k: nat): int {
    FirstToken(n, m, k + 1) - FirstToken(n, m, k)
  }

  /**
   The segments join up to the text as far as its last token ends; every one of them can be cut out, and
   covers at least one token and at most as many as the budget allows.
   */
  lemma {:induction false} SegmentsCoverText(offsets: seq<Offset>, text: Bytes, m: nat)
    requires m >= 1 && InOrder(offsets, text) && offsets != []
    ensures Joined(text, Segments(offsets, m)) == text[..offsets[|offsets| - 1].end]
    ensures forall k :: 0 <= k < |Segments(offsets, m)| ==>
      1 <= TokensIn(|offsets|, m, k) <= m && Slice(text, Segments(offsets, m)[k]).Some?
  {
    var n, segments := |offsets|, Segments(offsets, m);
    var count := |segments|;
    SegmentsJoin(offsets, text, m, count);
    LastEdge(offsets, m);
    assert segments[..count] == segments;
    forall k | 0 <= k < count
      ensures 1 <= TokensIn(n, m, k) <= m && Slice(text, segments[k]).Some?
    {
      EdgesAscend(offsets, text, m, k);
      SegmentAt(offsets, m, k);
      SegmentSize(n, m, k);
    }
  }

  lemma {:induction false} LastEdge(offsets: seq<Offset>, m: nat)
    requires m >= 1 && offsets != []
    ensures Edge(offsets, m, DivCeil(|offsets|, m)) == offsets[|offsets| - 1].end
  {
    var n := |offsets|;
    DivCeilPrevious(n, m);
    TimesIsProduct(DivCeil(n, m), m);
    DivBelow(n - 1, m, DivCeil(n, m));
  }

  lemma {:induction false} SegmentSize(n: nat, m: nat, k: nat)
    requires m >= 1 && n > 0 && k < DivCeil(n, m)
    ensures 1 <= TokensIn(n, m, k) <= m
  {
    DivCeilPrevious(n, m);
    DivBelow(n - 1, m, k);
    TimesIsProduct(k, m);
    assert Times(k + 1, m) == m + Times(k, m);
  }

  lemma {:induction false} TokenBetween(n: nat, m: nat, i: nat)
    requires m >= 1 && i < n
    ensures i / m < DivCeil(n, m)
    ensures FirstToken(n, m, i / m) <= i < FirstToken(n, m, i / m + 1)
  {
    var k := i / m;
    DivCeilPrevious(n, m);
    DivMonotone(i, n - 1, m);
    DivBelow(i, m, k);
    DivBelow(i, m, k + 1);
    TimesIsProduct(k, m);
    TimesIsProduct(k + 1, m);
    hide Times, DivCeil;
    assert Times(k, m) <= i < Times(k + 1, m);
  }

  /** A token that begins no earlier than the one before it ends lies wholly inside its segment. */
  lemma {:induction false} TokenInsideSegment(offsets: seq<Offset>, text: Bytes, m: nat, i: nat)
    requires m >= 1 && InOrder(offsets, text) && i < |offsets|
    requires forall j :: 0 < j < |offsets| ==> offsets[j - 1].end <= offsets[j].start
    ensures i / m < |Segments(offsets, m)|
    ensures Segments(offsets, m)[i / m].start <= offsets[i].start
    ensures offsets[i].end <= Segments(offsets, m)[i / m].end
  {
    var n, k := |offsets|, i / m;
    TokenBetween(n, m, i);
    SegmentAt(offsets, m, k);
    hide FirstToken, DivCeil, Boundary, Segments;
    var first := FirstToken(n, m, k);
    if first > 0 {
      assert offsets[first - 1].end <= offsets[i - 1].end <= offsets[i].start;
    }
  }

  /** The pieces that are not blank, in order. */
  function NonBlank(blank: Bytes -> bool, pieces: seq<Bytes>): seq<Bytes> {
    if pieces == [] then []
    else
      var n := |pieces| - 1;
      NonBlank(blank, pieces[..n]) + if blank(pieces[n]) then [] else [pieces[n]]
  }

  function Concat(pieces: seq<Bytes>): Bytes {
    if pieces == [] then [] else Concat(pieces[..|pieces| - 1]) + pieces[|pieces| - 1]
  }

  lemma {:induction false} KeptAndJoined(
    text: Bytes, blank: Bytes -> bool, segments: seq<Segment>, pieces: seq<Bytes>)
    requires |pieces| == |segments|
    requires forall k :: 0 <= k < |segments| ==> Slice(text, segments[k]) == Some(pieces[k])
    ensures Kept(text, blank, segments) == NonBlank(blank, pieces)
    ensures Joined(text, segments) == Concat(pieces)
  {
    hide Slice;
    if segments != [] {
      var n := |segments| - 1;
      KeptAndJoined(text, blank, segments[..n], pieces[..n]);
    }
  }

  /**
   A text over the budget is cut into pieces that join up to it as far as its last token ends, each of at
   least one token and at most the budget; its chunks are the pieces that are not blank, whole and in order.
   */
  lemma {:induction false} ChunksAccountForText(
    tokenizer: Tokenizer, prefix: Bytes, blank: Bytes -> bool, text: Bytes, pieces: seq<Bytes>)
    requires tokenizer(prefix).Success? && tokenizer(text).Success?
    requires InOrder(tokenizer(text).value, text)
    requires |tokenizer(text).value| > Budget(|tokenizer(prefix).value|)
    requires pieces == Pieces(text, tokenizer(text).value, Pace(Budget(|tokenizer(prefix).value|)))
    ensures ChunksOf(tokenizer, prefix, blank, text) == Success(NonBlank(blank, pieces))
    ensures Concat(pieces) == text[..tokenizer(text).value[|tokenizer(text).value| - 1].end]
    ensures forall k :: 0 <= k < |pieces| ==>
      1 <= TokensIn(|tokenizer(text).value|, Pace(Budget(|tokenizer(prefix).value|)), k)
        <= Pace(Budget(|tokenizer(prefix).value|))
  {
    var offsets, m := tokenizer(text).value, Pace(Budget(|tokenizer(prefix).value|));
    assert ChunksOf(tokenizer, prefix, blank, text) == Success(Kept(text, blank, Segments(offsets, m)));
    hide *;
    SegmentsCoverText(offsets, text, m);
    PiecesSliced(text, offsets, m);
    KeptAndJoined(text, blank, Segments(offsets, m), pieces);
  }

  /**
   A text has no chunk at all exactly when it is over the budget and each of its pieces is blank or cannot be
   cut out between characters.
   */
  lemma {:induction false} NoChunkWhenBlank(tokenizer: Tokenizer, prefix: Bytes, blank: Bytes -> bool, text: Bytes)
    requires tokenizer(prefix).Success? && tokenizer(text).Success?
    ensures ChunksOf(tokenizer, prefix, blank, text) == Success([])
       <==> && |tokenizer(text).value| > Budget(|tokenizer(prefix).value|)
            && AllDropped(text, blank, Segments(tokenizer(text).value, Pace(Budget(|tokenizer(prefix).value|))))
  {
    hide Slice, Segments, Budget, Pace;
    KeptNone(text, blank, Segments(tokenizer(text).value, Pace(Budget(|tokenizer(prefix).value|))));
  }

  predicate Dropped(text: Bytes, blank: Bytes -> bool, segment: Segment) {
    match Slice(text, segment)
    case Some(piece) => blank(piece)
    case None => true
  }

  predicate AllDropped(text: Bytes, blank: Bytes -> bool, segments: seq<Segment>) {
    forall k :: 0 <= k < |segments| ==> Dropped(text, blank, segments[k])
  }

  lemma {:induction false} KeptNone(text: Bytes, blank: Bytes -> bool, segments: seq<Segment>)
    ensures Kept(text, blank, segments) == [] <==> AllDropped(text, blank, segments)
  {
    if segments != [] {
      var front, last := segments[..|segments| - 1], segments[|segments| - 1];
      KeptNone(text, blank, front);
      hide Slice;
      assert Kept(text, blank, segments) == [] <==> Kept(text, blank, front) == [] && Dropped(text, blank, last);
      hide Kept, Dropped;
      assert segments == front + [last];
      DroppedSnoc(text, blank, front, last);
    }
  }

  lemma {:induction false} DroppedSnoc(
    text: Bytes, blank: Bytes -> bool, front: seq<Segment>, last: Segment)
    ensures AllDropped(text, blank, front + [last])
       <==> AllDropped(text, blank, front) && Dropped(text, blank, last)
  {
    hide Dropped;
    var all := front + [last];
    assert all[|front|] == last && forall k :: 0 <= k < |front| ==> all[k] == front[k];
  }

  /** The slices of a text that its segments cut out. */
  function Pieces(text: Bytes, offsets: seq<Offset>, m: nat): (pieces: seq<Bytes>)
    requires m >= 1 && InOrder(offsets, text)
    ensures |pieces| == |Segments(offsets, m)|
  {
    var segments := Segments(offsets, m);
    seq(|segments|, k requires 0 <= k < |segments| =>
      match Slice(text, segments[k])
      case Some(piece) => piece
      case None => [])
  }

  lemma {:induction false} PiecesSliced(text: Bytes, offsets: seq<Offset>, m: nat)
    requires m >= 1 && InOrder(offsets, text)
    requires forall k :: 0 <= k < |Segments(offsets, m)| ==> Slice(text, Segments(offsets, m)[k]).Some?
    ensures forall k :: 0 <= k < |Segments(offsets, m)| ==>
      Slice(text, Segments(offsets, m)[k]) == Some(Pieces(text, offsets, m)[k])
  {
    hide Slice, Segments, InOrder;
  }
}
