/** Two lists of rows fused into one ranking, by the exact sum of what each place is worth. */
module Fusion {
  import opened Wrappers

  type RowId = nat

  const DEFAULT_K: nat := 60
  const SMALL_CORPUS_K: nat := 15
  const SMALL_CORPUS_THRESHOLD: nat := 100

  datatype FusedHit = FusedHit(row: RowId, score: real, vectorRank: Option<nat>, lexicalRank: Option<nat>)

  datatype Fused = Fused(hits: seq<FusedHit>, effectiveK: nat)

  function EffectiveK(documents: nat): nat {
    if documents < SMALL_CORPUS_THRESHOLD then SMALL_CORPUS_K else DEFAULT_K
  }

  /** What a place in a list is worth. */
  function Contribution(k: nat, rank: nat): (c: real)
    requires k + rank > 0
    ensures c > 0.0
  {
    1.0 / (k + rank) as real
  }

  /** The worth of every place a row holds in a list. */
  function Score(list: seq<RowId>, row: RowId, k: nat): (s: real)
    ensures s >= 0.0
  {
    if list == [] then 0.0
    else
      var n := |list|;
      Score(list[..n - 1], row, k) + if list[n - 1] == row then Contribution(k, n) else 0.0
  }

  /** The last place a row holds in a list, counting from one. */
  function LastRank(list: seq<RowId>, row: RowId): (r: Option<nat>)
    ensures r.None? <==> row !in list
    ensures r.Some? ==> 1 <= r.value <= |list| && list[r.value - 1] == row
    ensures r.Some? ==> forall j :: r.value <= j < |list| ==> list[j] != row
  {
    if list == [] then None
    else if list[|list| - 1] == row then Some(|list|)
    else
      assert forall x :: x in list <==> x in list[..|list| - 1] || x == list[|list| - 1];
      LastRank(list[..|list| - 1], row)
  }

  predicate DistinctRows(hits: seq<FusedHit>) {
    forall i, j :: 0 <= i < j < |hits| ==> hits[i].row != hits[j].row
  }

  /** What one row's hit has to say about two lists. */
  predicate HitFor(hit: FusedHit, vector: seq<RowId>, lexical: seq<RowId>, k: nat) {
    && hit.score == Score(vector, hit.row, k) + Score(lexical, hit.row, k)
    && hit.vectorRank == LastRank(vector, hit.row)
    && hit.lexicalRank == LastRank(lexical, hit.row)
  }

  /** One hit for every row of either list, and no other. */
  ghost predicate Tallies(hits: seq<FusedHit>, vector: seq<RowId>, lexical: seq<RowId>, k: nat) {
    && DistinctRows(hits)
    && (forall i :: 0 <= i < |hits| ==> HitFor(hits[i], vector, lexical, k))
    && (forall i :: 0 <= i < |hits| ==> hits[i].row in vector || hits[i].row in lexical)
    && (forall row :: row in vector || row in lexical ==> exists i :: 0 <= i < |hits| && hits[i].row == row)
  }

  /** Higher score first, and the lower row where scores tie. */
  predicate Before(a: FusedHit, b: FusedHit) {
    a.score > b.score || (a.score == b.score && a.row < b.row)
  }

  predicate Ordered(hits: seq<FusedHit>) {
    forall i, j :: 0 <= i < j < |hits| ==> Before(hits[i], hits[j])
  }

  /** The full ranking of two lists. */
  ghost predicate IsRanking(hits: seq<FusedHit>, vector: seq<RowId>, lexical: seq<RowId>, k: nat) {
    Tallies(hits, vector, lexical, k) && Ordered(hits)
  }

  // ---------------------------------------------------------------- the algorithm

  function Find(hits: seq<FusedHit>, row: RowId): (r: Option<nat>)
    ensures r.Some? ==> r.value < |hits| && hits[r.value].row == row
    ensures r.None? ==> forall i :: 0 <= i < |hits| ==> hits[i].row != row
  {
    if hits == [] then None
    else if hits[0].row == row then Some(0)
    else
      match Find(hits[1..], row)
      case None => None
      case Some(i) => Some(i + 1)
  }

  /** One more place on the semantic side adds its worth to that row and to no other. */
  lemma {:induction false} ScoreGrows(list: seq<RowId>, last: RowId, row: RowId, k: nat)
    ensures Score(list + [last], row, k)
         == Score(list, row, k) + if last == row then Contribution(k, |list| + 1) else 0.0
    ensures LastRank(list + [last], row) == if last == row then Some(|list| + 1) else LastRank(list, row)
  {
    assert (list + [last])[..|list|] == list;
  }

  lemma {:induction false} NoPlaceNoScore(list: seq<RowId>, row: RowId, k: nat)
    requires row !in list
    ensures Score(list, row, k) == 0.0
  {
    if list != [] {
      NoPlaceNoScore(list[..|list| - 1], row, k);
    }
  }

  /** Add the worth of one place to the row it belongs to, on either side. */
  function Credited(hits: seq<FusedHit>, row: RowId, rank: nat, k: nat, lexicalSide: bool): seq<FusedHit>
    requires rank > 0
  {
    var c := Contribution(k, rank);
    match Find(hits, row)
    case Some(i) =>
      var hit := hits[i].(score := hits[i].score + c);
      hits[i := if lexicalSide then hit.(lexicalRank := Some(rank)) else hit.(vectorRank := Some(rank))]
    case None =>
      hits + [FusedHit(row, c, if lexicalSide then None else Some(rank), if lexicalSide then Some(rank) else None)]
  }

  lemma {:induction false} CreditedHit(
    hit: FusedHit, vector: seq<RowId>, lexical: seq<RowId>, k: nat, row: RowId, lexicalSide: bool)
    requires HitFor(hit, vector, lexical, k)
    ensures var v := if lexicalSide then vector else vector + [row];
            var l := if lexicalSide then lexical + [row] else lexical;
            var rank := if lexicalSide then |lexical| + 1 else |vector| + 1;
            && (hit.row != row ==> HitFor(hit, v, l, k))
            && (hit.row == row ==>
                  var more := hit.(score := hit.score + Contribution(k, rank));
                  HitFor(if lexicalSide then more.(lexicalRank := Some(rank))
                         else more.(vectorRank := Some(rank)), v, l, k))
  {
    hide Contribution;
    ScoreGrows(vector, row, hit.row, k);
    ScoreGrows(lexical, row, hit.row, k);
    hide Score, LastRank;
  }

  lemma {:induction false} NewHit(vector: seq<RowId>, lexical: seq<RowId>, k: nat, row: RowId, lexicalSide: bool)
    requires row !in vector && row !in lexical
    ensures var v := if lexicalSide then vector else vector + [row];
            var l := if lexicalSide then lexical + [row] else lexical;
            var rank := if lexicalSide then |lexical| + 1 else |vector| + 1;
            HitFor(FusedHit(row, Contribution(k, rank), if lexicalSide then None else Some(rank),
                            if lexicalSide then Some(rank) else None), v, l, k)
  {
    hide Contribution;
    ScoreGrows(vector, row, row, k);
    ScoreGrows(lexical, row, row, k);
    NoPlaceNoScore(vector, row, k);
    NoPlaceNoScore(lexical, row, k);
    hide Score;
  }

  /** Crediting one place keeps the hits a tally, now of the longer list. */
  lemma {:induction false} CreditedTallies(
    hits: seq<FusedHit>, vector: seq<RowId>, lexical: seq<RowId>, k: nat, row: RowId, lexicalSide: bool)
    requires Tallies(hits, vector, lexical, k)
    ensures var v := if lexicalSide then vector else vector + [row];
            var l := if lexicalSide then lexical + [row] else lexical;
            var rank := if lexicalSide then |lexical| + 1 else |vector| + 1;
            Tallies(Credited(hits, row, rank, k, lexicalSide), v, l, k)
  {
    hide HitFor, Contribution;
    var v := if lexicalSide then vector else vector + [row];
    var l := if lexicalSide then lexical + [row] else lexical;
    var rank := if lexicalSide then |lexical| + 1 else |vector| + 1;
    var credited := Credited(hits, row, rank, k, lexicalSide);
    if Find(hits, row).None? {
      NewHit(vector, lexical, k, row, lexicalSide);
    }
    forall i | 0 <= i < |credited|
      ensures HitFor(credited[i], v, l, k)
    {
      if i < |hits| {
        CreditedHit(hits[i], vector, lexical, k, row, lexicalSide);
      }
    }
    forall i | 0 <= i < |hits|
      ensures credited[i].row == hits[i].row
    {
    }
    forall r | r in v || r in l
      ensures exists i :: 0 <= i < |credited| && credited[i].row == r
    {
      if r in vector || r in lexical {
        var i :| 0 <= i < |hits| && hits[i].row == r;
        assert credited[i].row == r;
      } else {
        assert credited[|hits|].row == row == r;
      }
    }
  }

  /** Walk one list and credit every place of it. */
  method Contribute(hits: seq<FusedHit>, vector: seq<RowId>, list: seq<RowId>, k: nat, lexicalSide: bool)
    returns (out: seq<FusedHit>)
    requires lexicalSide ==> Tallies(hits, vector, [], k)
    requires !lexicalSide ==> hits == [] && vector == []
    ensures lexicalSide ==> Tallies(out, vector, list, k)
    ensures !lexicalSide ==> Tallies(out, list, [], k)
  {
    out := hits;
    hide Contribution, HitFor, Find, Credited, Tallies;
    if !lexicalSide {
      NothingTallies(k);
    }
    assert list[..0] == [];
    for position := 0 to |list|
      invariant lexicalSide ==> Tallies(out, vector, list[..position], k)
      invariant !lexicalSide ==> Tallies(out, list[..position], [], k)
    {
      var rank := position + 1;
      var row := list[position];
      assert list[..position] + [row] == list[..position + 1];
      CreditedTallies(out, if lexicalSide then vector else list[..position],
                      if lexicalSide then list[..position] else [], k, row, lexicalSide);
      out := Credited(out, row, rank, k, lexicalSide);
    }
    assert list[..|list|] == list;
  }

  lemma NothingTallies(k: nat)
    ensures Tallies([], [], [], k)
  {}

  function Insert(hit: FusedHit, hits: seq<FusedHit>): seq<FusedHit> {
    if hits == [] then [hit]
    else if Before(hit, hits[0]) then [hit] + hits
    else [hits[0]] + Insert(hit, hits[1..])
  }

  function Sort(hits: seq<FusedHit>): seq<FusedHit> {
    if hits == [] then [] else Insert(hits[0], Sort(hits[1..]))
  }

  lemma {:induction false} InsertElements(hit: FusedHit, hits: seq<FusedHit>)
    ensures |Insert(hit, hits)| == |hits| + 1
    ensures forall x :: x in Insert(hit, hits) <==> x == hit || x in hits
  {
    hide Before;
    if hits != [] {
      InsertElements(hit, hits[1..]);
      assert hits == [hits[0]] + hits[1..];
    }
  }

  lemma {:induction false} InsertOrders(hit: FusedHit, hits: seq<FusedHit>)
    requires Ordered(hits) && forall x :: x in hits ==> x.row != hit.row
    ensures Ordered(Insert(hit, hits))
  {
    if hits == [] {
    } else if Before(hit, hits[0]) {
      var out := [hit] + hits;
      forall j | 0 < j < |out|
        ensures Before(hit, out[j])
      {
        assert j > 1 ==> Before(hits[0], hits[j - 1]);
      }
    } else {
      var rest := hits[1..];
      assert hits == [hits[0]] + rest;
      InsertOrders(hit, rest);
      InsertElements(hit, rest);
      var out := [hits[0]] + Insert(hit, rest);
      forall j | 0 < j < |out|
        ensures Before(hits[0], out[j])
      {
        assert out[j] in Insert(hit, rest);
        if out[j] != hit {
          var i :| 0 <= i < |rest| && rest[i] == out[j];
          assert hits[i + 1] == rest[i];
        } else {
          assert hits[0] in hits;
        }
      }
    }
  }

  /** Sorting keeps the hits and puts them in the one order there is. */
  lemma {:induction false} SortOrders(hits: seq<FusedHit>)
    requires DistinctRows(hits)
    ensures |Sort(hits)| == |hits|
    ensures forall x :: x in Sort(hits) <==> x in hits
    ensures Ordered(Sort(hits))
  {
    hide Before;
    if hits != [] {
      var rest := hits[1..];
      assert hits == [hits[0]] + rest;
      SortOrders(rest);
      InsertElements(hits[0], Sort(rest));
      forall x | x in Sort(rest)
        ensures x.row != hits[0].row
      {
        var i :| 0 <= i < |rest| && rest[i] == x;
        assert hits[i + 1] == x;
      }
      InsertOrders(hits[0], Sort(rest));
    }
  }

  lemma {:induction false} SortedTallies(hits: seq<FusedHit>, vector: seq<RowId>, lexical: seq<RowId>, k: nat)
    requires Tallies(hits, vector, lexical, k)
    ensures IsRanking(Sort(hits), vector, lexical, k)
  {
    hide HitFor, Sort;
    SortOrders(hits);
    var sorted := Sort(hits);
    forall i, j | 0 <= i < j < |sorted|
      ensures sorted[i].row != sorted[j].row
    {
      OrderedDistinct(hits, sorted, i, j);
    }
    hide Before;
    forall i | 0 <= i < |sorted|
      ensures HitFor(sorted[i], vector, lexical, k) && (sorted[i].row in vector || sorted[i].row in lexical)
    {
      assert sorted[i] in hits;
    }
    forall row | row in vector || row in lexical
      ensures exists i :: 0 <= i < |sorted| && sorted[i].row == row
    {
      var i :| 0 <= i < |hits| && hits[i].row == row;
      assert hits[i] in sorted;
    }
  }

  lemma {:induction false} OrderedDistinct(hits: seq<FusedHit>, sorted: seq<FusedHit>, i: nat, j: nat)
    requires DistinctRows(hits) && Ordered(sorted) && forall x :: x in sorted ==> x in hits
    requires i < j < |sorted|
    ensures sorted[i].row != sorted[j].row
  {
    assert sorted[i] in hits && sorted[j] in hits;
    var m :| 0 <= m < |hits| && hits[m] == sorted[i];
    var n :| 0 <= n < |hits| && hits[n] == sorted[j];
    assert Before(sorted[i], sorted[j]);
  }

  /** The best `limit` of the ranking of both lists, and the constant they were scored with. */
  method Fuse(vector: seq<RowId>, lexical: seq<RowId>, documents: nat, limit: nat) returns (fused: Fused)
    ensures fused.effectiveK == if documents < 100 then 15 else 60
    ensures exists ranking ::
              && IsRanking(ranking, vector, lexical, fused.effectiveK)
              && fused.hits == if limit < |ranking| then ranking[..limit] else ranking
  {
    hide IsRanking, Tallies, Sort;
    var k := EffectiveK(documents);
    var hits := Contribute([], [], vector, k, false);
    hits := Contribute(hits, vector, lexical, k, true);
    SortedTallies(hits, vector, lexical, k);
    hits := Sort(hits);
    ghost var ranking := hits;
    if limit < |hits| {
      hits := hits[..limit];
    }
    fused := Fused(hits, k);
    assert IsRanking(ranking, vector, lexical, fused.effectiveK);
  }

  // ---------------------------------------------------------------- what the ranking means

  /** Sequences in the order that hold the same hits are the same. */
  lemma {:induction false} OrderUnique(a: seq<FusedHit>, b: seq<FusedHit>)
    requires Ordered(a) && Ordered(b) && forall x :: x in a <==> x in b
    ensures a == b
  {
    Emptiness(a, b);
    Emptiness(b, a);
    if a != [] {
      assert a[0] in b && b[0] in a;
      var i :| 0 <= i < |a| && a[i] == b[0];
      var j :| 0 <= j < |b| && b[j] == a[0];
      OrderedAt(a, 0, i);
      OrderedAt(b, 0, j);
      assert a[0] == b[0];
      TailElements(a);
      TailElements(b);
      OrderUnique(a[1..], b[1..]);
      assert a == [a[0]] + a[1..] && b == [b[0]] + b[1..];
    }
  }

  lemma Emptiness<T>(a: seq<T>, b: seq<T>)
    requires forall x :: x in a ==> x in b
    ensures a != [] ==> b != []
  {
    if a != [] {
      assert a[0] in a;
    }
  }

  lemma OrderedAt(hits: seq<FusedHit>, i: nat, j: nat)
    requires Ordered(hits) && i < |hits| && j < |hits|
    ensures i < j ==> Before(hits[i], hits[j])
  {}

  lemma {:induction false} TailElements(a: seq<FusedHit>)
    requires Ordered(a) && a != []
    ensures Ordered(a[1..])
    ensures forall x :: x in a[1..] <==> x in a && x != a[0]
  {
    forall x | x in a[1..]
      ensures x in a && x != a[0]
    {
      var i :| 0 <= i < |a[1..]| && a[1..][i] == x;
      assert a[i + 1] == x && Before(a[0], a[i + 1]);
    }
  }

  /** There is one ranking of two lists. */
  lemma {:induction false} RankingUnique(
    a: seq<FusedHit>, b: seq<FusedHit>, vector: seq<RowId>, lexical: seq<RowId>, k: nat)
    requires IsRanking(a, vector, lexical, k) && IsRanking(b, vector, lexical, k)
    ensures a == b
  {
    RankingHits(a, b, vector, lexical, k);
    RankingHits(b, a, vector, lexical, k);
    OrderUnique(a, b);
  }

  lemma {:induction false} RankingHits(
    a: seq<FusedHit>, b: seq<FusedHit>, vector: seq<RowId>, lexical: seq<RowId>, k: nat)
    requires Tallies(a, vector, lexical, k) && Tallies(b, vector, lexical, k)
    ensures forall x :: x in a ==> x in b
  {
    hide Score, LastRank;
    forall x | x in a
      ensures x in b
    {
      var i :| 0 <= i < |a| && a[i] == x;
      var j :| 0 <= j < |b| && b[j].row == a[i].row;
      assert HitFor(a[i], vector, lexical, k) && HitFor(b[j], vector, lexical, k);
      assert b[j] == x;
    }
  }

  predicate Distinct(list: seq<RowId>) {
    forall i, j :: 0 <= i < j < |list| ==> list[i] != list[j]
  }

  /** In a list without repeats a row is worth its one place. */
  lemma {:induction false} DistinctScore(list: seq<RowId>, i: nat, k: nat)
    requires Distinct(list) && i < |list|
    ensures Score(list, list[i], k) == Contribution(k, i + 1)
    ensures LastRank(list, list[i]) == Some(i + 1)
    decreases |list|
  {
    hide Contribution;
    var init := list[..|list| - 1];
    if i == |list| - 1 {
      NoPlaceNoScore(init, list[i], k);
    } else {
      DistinctScore(init, i, k);
      assert init[i] == list[i];
    }
  }

  lemma Reciprocal(x: real)
    requires x > 0.0
    ensures 1.0 / x * x == 1.0
  {}

  lemma ReciprocalFalls(x: real, y: real)
    requires 0.0 < y < x
    ensures 1.0 / y > 1.0 / x
  {
    var a, b := 1.0 / x, 1.0 / y;
    Reciprocal(x);
    Reciprocal(y);
    assert a > 0.0 && a * x > a * y;
    assert (b - a) * y > 0.0;
  }

  lemma ReciprocalOfDouble(x: real)
    requires x > 0.0
    ensures 1.0 / (2.0 * x) == 1.0 / x / 2.0
  {
    var a, b := 1.0 / x, 1.0 / (2.0 * x);
    Reciprocal(x);
    Reciprocal(2.0 * x);
    assert (b - a / 2.0) * (2.0 * x) == 0.0;
  }

  lemma Halves(k: nat, p: nat)
    requires 1 <= p
    ensures p <= k + 1 ==> Contribution(k, p) > Contribution(k, 1) / 2.0
    ensures p == k + 2 ==> Contribution(k, p) == Contribution(k, 1) / 2.0
  {
    var x, y := (k + 1) as real, (k + p) as real;
    ReciprocalOfDouble(x);
    if p <= k + 1 {
      ReciprocalFalls(2.0 * x, y);
    }
  }

  lemma FirstIsBest(k: nat, p: nat)
    requires 1 <= p
    ensures Contribution(k, p) <= Contribution(k, 1)
  {
    if p > 1 {
      ReciprocalFalls((k + p) as real, (k + 1) as real);
    }
  }

  /** What a row's places in two lists without repeats are worth: one over `k` and the rank, and nothing for none. */
  lemma {:induction false} ScoresSay(
    ranking: seq<FusedHit>, vector: seq<RowId>, lexical: seq<RowId>, k: nat, n: nat)
    requires Distinct(vector) && Distinct(lexical) && IsRanking(ranking, vector, lexical, k) && n < |ranking|
    ensures var hit := ranking[n];
            && (forall i, j :: 0 <= i < |vector| && 0 <= j < |lexical| && vector[i] == lexical[j] == hit.row ==>
                  && hit.score == 1.0 / (k + i + 1) as real + 1.0 / (k + j + 1) as real
                  && hit.vectorRank == Some(i + 1) && hit.lexicalRank == Some(j + 1))
            && (forall i :: 0 <= i < |vector| && vector[i] == hit.row && hit.row !in lexical ==>
                  && hit.score == 1.0 / (k + i + 1) as real
                  && hit.vectorRank == Some(i + 1) && hit.lexicalRank == None)
            && (forall j :: 0 <= j < |lexical| && lexical[j] == hit.row && hit.row !in vector ==>
                  && hit.score == 1.0 / (k + j + 1) as real
                  && hit.vectorRank == None && hit.lexicalRank == Some(j + 1))
  {
    var hit := ranking[n];
    assert HitFor(hit, vector, lexical, k);
    hide Score, LastRank, Contribution;
    forall i | 0 <= i < |vector| && vector[i] == hit.row
      ensures Score(vector, hit.row, k) == 1.0 / (k + i + 1) as real && LastRank(vector, hit.row) == Some(i + 1)
    {
      DistinctScore(vector, i, k);
      WorthSays(k, i + 1);
    }
    forall j | 0 <= j < |lexical| && lexical[j] == hit.row
      ensures Score(lexical, hit.row, k) == 1.0 / (k + j + 1) as real && LastRank(lexical, hit.row) == Some(j + 1)
    {
      DistinctScore(lexical, j, k);
      WorthSays(k, j + 1);
    }
    if hit.row !in vector {
      NoPlaceNoScore(vector, hit.row, k);
    }
    if hit.row !in lexical {
      NoPlaceNoScore(lexical, hit.row, k);
    }
  }

  lemma WorthSays(k: nat, rank: nat)
    requires rank > 0
    ensures Contribution(k, rank) == 1.0 / (k + rank) as real
  {}

  /** Where a row stands in a ranking. */
  predicate StandsAt(ranking: seq<FusedHit>, place: nat, row: RowId) {
    place < |ranking| && ranking[place].row == row
  }

  /**
   With lists that do not repeat rows, a row that both sides rank at k + 1 or better comes before every
   row that only one side found, however well.
   */
  lemma {:induction false} BothBeatOne(
    ranking: seq<FusedHit>, vector: seq<RowId>, lexical: seq<RowId>, k: nat, i: nat, j: nat, m: nat, n: nat)
    requires Distinct(vector) && Distinct(lexical) && IsRanking(ranking, vector, lexical, k)
    requires i < |vector| && j < |lexical| && vector[i] == lexical[j] && i <= k && j <= k
    requires StandsAt(ranking, m, vector[i]) && n < |ranking|
    requires !(ranking[n].row in vector && ranking[n].row in lexical)
    ensures ranking[m].score > ranking[n].score && m < n
  {
    hide Contribution, Score, LastRank;
    var row := ranking[n].row;
    DistinctScore(vector, i, k);
    DistinctScore(lexical, j, k);
    Halves(k, i + 1);
    Halves(k, j + 1);
    OneSided(vector, lexical, k, row);
    assert HitFor(ranking[m], vector, lexical, k) && HitFor(ranking[n], vector, lexical, k);
    OrderedAt(ranking, n, m);
  }

  /** What only one side found is worth at most that side's first place. */
  lemma {:induction false} OneSided(vector: seq<RowId>, lexical: seq<RowId>, k: nat, row: RowId)
    requires Distinct(vector) && Distinct(lexical) && !(row in vector && row in lexical)
    ensures Score(vector, row, k) + Score(lexical, row, k) <= Contribution(k, 1)
  {
    OneList(vector, k, row);
    OneList(lexical, k, row);
    hide Contribution, Score;
  }

  lemma {:induction false} OneList(list: seq<RowId>, k: nat, row: RowId)
    requires Distinct(list)
    ensures Score(list, row, k) <= Contribution(k, 1)
    ensures row !in list ==> Score(list, row, k) == 0.0
  {
    hide Contribution, Score;
    if row in list {
      var p :| 0 <= p < |list| && list[p] == row;
      DistinctScore(list, p, k);
      FirstIsBest(k, p + 1);
    } else {
      NoPlaceNoScore(list, row, k);
    }
  }

  /** The bound is tight: at k + 2 on both sides a row can come behind one that a single side ranks first. */
  lemma {:induction false} BoundIsTight(k: nat)
    returns (vector: seq<RowId>, lexical: seq<RowId>, ranking: seq<FusedHit>, both: nat, one: nat)
    ensures Distinct(vector) && Distinct(lexical) && IsRanking(ranking, vector, lexical, k)
    ensures |vector| == |lexical| == k + 2 && vector[k + 1] == lexical[k + 1]
    ensures vector[0] !in lexical
    ensures StandsAt(ranking, both, vector[k + 1]) && StandsAt(ranking, one, vector[0])
    ensures ranking[both].score == ranking[one].score && one < both
  {
    hide Contribution, Score, LastRank, Sort, Tallies, HitFor, Before;
    var shared := 2 * k + 2;
    vector := seq(k + 2, i requires 0 <= i < k + 2 => if i == k + 1 then shared else i);
    lexical := seq(k + 2, i requires 0 <= i < k + 2 => if i == k + 1 then shared else k + 1 + i);
    var hits := TallyExists(vector, lexical, k);
    ranking := Sort(hits);
    SortedTallies(hits, vector, lexical, k);
    both := RowRanked(ranking, vector, lexical, k, vector[k + 1]);
    one := RowRanked(ranking, vector, lexical, k, vector[0]);
    DistinctScore(vector, k + 1, k);
    DistinctScore(lexical, k + 1, k);
    DistinctScore(vector, 0, k);
    NoPlaceNoScore(lexical, vector[0], k);
    Halves(k, k + 2);
    TieByRow(ranking, both, one);
  }

  /** Every row of either list stands somewhere in the ranking, with its whole score. */
  lemma {:induction false} RowRanked(
    ranking: seq<FusedHit>, vector: seq<RowId>, lexical: seq<RowId>, k: nat, row: RowId) returns (place: nat)
    requires IsRanking(ranking, vector, lexical, k) && (row in vector || row in lexical)
    ensures StandsAt(ranking, place, row)
    ensures ranking[place].score == Score(vector, row, k) + Score(lexical, row, k)
  {
    hide Score, LastRank, Before;
    place :| 0 <= place < |ranking| && ranking[place].row == row;
    assert HitFor(ranking[place], vector, lexical, k);
  }

  lemma TieByRow(ranking: seq<FusedHit>, m: nat, n: nat)
    requires Ordered(ranking) && m < |ranking| && n < |ranking|
    requires ranking[m].score == ranking[n].score && ranking[n].row < ranking[m].row
    ensures n < m
  {
    OrderedAt(ranking, m, n);
  }

  /** Any two lists have a tally. */
  lemma {:induction false} TallyExists(vector: seq<RowId>, lexical: seq<RowId>, k: nat) returns (hits: seq<FusedHit>)
    ensures Tallies(hits, vector, lexical, k)
    decreases |vector| + |lexical|
  {
    hide Credited, Tallies;
    if |lexical| > 0 {
      var init := lexical[..|lexical| - 1];
      hits := TallyExists(vector, init, k);
      CreditedTallies(hits, vector, init, k, lexical[|lexical| - 1], true);
      assert init + [lexical[|lexical| - 1]] == lexical;
      hits := Credited(hits, lexical[|lexical| - 1], |lexical|, k, true);
    } else if |vector| > 0 {
      var init := vector[..|vector| - 1];
      hits := TallyExists(init, lexical, k);
      CreditedTallies(hits, init, lexical, k, vector[|vector| - 1], false);
      assert init + [vector[|vector| - 1]] == vector;
      hits := Credited(hits, vector[|vector| - 1], |vector|, k, false);
    } else {
      NothingTallies(k);
      hits := [];
    }
  }

  function Swapped(hits: seq<FusedHit>): (s: seq<FusedHit>)
    ensures |s| == |hits|
    ensures forall i :: 0 <= i < |s| ==>
              s[i] == FusedHit(hits[i].row, hits[i].score, hits[i].lexicalRank, hits[i].vectorRank)
  {
    seq(|hits|, i requires 0 <= i < |hits| =>
          FusedHit(hits[i].row, hits[i].score, hits[i].lexicalRank, hits[i].vectorRank))
  }

  /** Exchanging the two lists keeps every row, score and place, and exchanges only the recorded ranks. */
  lemma {:induction false} SwapKeepsOrder(
    a: seq<FusedHit>, b: seq<FusedHit>, vector: seq<RowId>, lexical: seq<RowId>, k: nat)
    requires IsRanking(a, vector, lexical, k) && IsRanking(b, lexical, vector, k)
    ensures b == Swapped(a)
  {
    hide Score, LastRank;
    var s := Swapped(a);
    forall i | 0 <= i < |s|
      ensures HitFor(s[i], lexical, vector, k)
    {
      assert HitFor(a[i], vector, lexical, k);
    }
    forall row | row in lexical || row in vector
      ensures exists i :: 0 <= i < |s| && s[i].row == row
    {
      var i :| 0 <= i < |a| && a[i].row == row;
      assert s[i].row == row;
    }
    forall i, j | 0 <= i < j < |s|
      ensures Before(s[i], s[j])
    {
      assert Before(a[i], a[j]);
    }
    RankingUnique(s, b, lexical, vector, k);
  }
}
