/**
 One column's companion table and what reconciling makes of it: which vectors it drops, keeps and makes anew,
 and why the outcome depends on nothing but the live rows.
 */
module Reconcile {
  import opened Arithmetic
  import opened Wrappers

  type RowId = nat
  type Column = string
  type Vector = seq<real>

  const VECTOR_WIDTH: nat := 384
  const MAX_CHUNK: nat := 0xFFFF_FFFF

  /** An entry of a companion table. */
  datatype RowVector = RowVector(row: RowId, chunk: nat, embedding: Vector)

  datatype Row = Row(id: RowId, texts: map<Column, string>)

  datatype Error = NoEmbedder | NotEmbedded(cause: string) | WrongWidth(given: nat)

  /** What turns a text into one vector per chunk, or fails. */
  type Embedder = string -> Result<seq<Vector>, string>

  /** What texts embed to, whenever embedding them succeeds. */
  type Truth = string -> seq<Vector>

  /** An embedder may fail at any time, but never answers anything but the truth. */
  ghost predicate Faithful(e: Embedder, truth: Truth) {
    forall text :: e(text).Success? ==> e(text).value == truth(text)
  }

  /** An embedder that never fails, and whose vectors all have the stored width. */
  ghost predicate Working(e: Embedder, truth: Truth) {
    forall text :: e(text) == Success(truth(text)) && CheckWidths(truth(text)).Success?
  }

  // ---------------------------------------------------------------- the companion table

  /** A row's vectors, in the order they are stored in. */
  function Group(vectors: seq<RowVector>, row: RowId): seq<RowVector> {
    if vectors == [] then []
    else
      var n := |vectors| - 1;
      Group(vectors[..n], row) + if vectors[n].row == row then [vectors[n]] else []
  }

  function RowsOf(vectors: seq<RowVector>): set<RowId> {
    set i | 0 <= i < |vectors| :: vectors[i].row
  }

  predicate KeyLess(a: RowVector, b: RowVector) {
    a.row < b.row || (a.row == b.row && a.chunk < b.chunk)
  }

  /** Insert behind everything whose key is not greater, as a stable sort does. */
  function InsertLast(sorted: seq<RowVector>, v: RowVector): seq<RowVector> {
    if sorted == [] then [v]
    else
      var n := |sorted| - 1;
      if KeyLess(v, sorted[n]) then InsertLast(sorted[..n], v) + [sorted[n]] else sorted + [v]
  }

  /** The stored vectors by row and chunk, equal keys in the order they were stored in. */
  function VectorsOf(stored: seq<RowVector>): seq<RowVector> {
    if stored == [] then []
    else InsertLast(VectorsOf(stored[..|stored| - 1]), stored[|stored| - 1])
  }

  predicate Ascends(vectors: seq<RowVector>) {
    forall i, j :: 0 <= i < j < |vectors| ==> vectors[i].chunk <= vectors[j].chunk
  }

  /** The vectors that embeddings of one row are stored as. */
  function Numbered(row: RowId, embeddings: seq<Vector>): (s: seq<RowVector>)
    ensures |s| == |embeddings|
    ensures forall i :: 0 <= i < |s| ==> s[i] == RowVector(row, Min(i, MAX_CHUNK), embeddings[i])
  {
    seq(|embeddings|, i requires 0 <= i < |embeddings| => RowVector(row, Min(i, MAX_CHUNK), embeddings[i]))
  }

  function Embeddings(vectors: seq<RowVector>): (s: seq<Vector>)
    ensures |s| == |vectors|
    ensures forall i :: 0 <= i < |s| ==> s[i] == vectors[i].embedding
  {
    seq(|vectors|, i requires 0 <= i < |vectors| => vectors[i].embedding)
  }

  lemma {:induction false} GroupAppend(a: seq<RowVector>, b: seq<RowVector>, row: RowId)
    ensures Group(a + b, row) == Group(a, row) + Group(b, row)
  {
    if b == [] {
      assert a + b == a;
    } else {
      var n := |b| - 1;
      GroupAppend(a, b[..n], row);
      assert (a + b)[..|a + b| - 1] == a + b[..n];
    }
  }

  lemma {:induction false} GroupMembers(vectors: seq<RowVector>, row: RowId)
    ensures forall v :: v in Group(vectors, row) <==> v in vectors && v.row == row
    ensures Group(vectors, row) != [] <==> row in RowsOf(vectors)
  {
    if vectors != [] {
      var n := |vectors| - 1;
      GroupMembers(vectors[..n], row);
      assert vectors == vectors[..n] + [vectors[n]];
      assert RowsOf(vectors) == RowsOf(vectors[..n]) + {vectors[n].row};
    }
  }

  lemma {:induction false} GroupOfNumbered(row: RowId, embeddings: seq<Vector>, other: RowId)
    ensures Group(Numbered(row, embeddings), other) == if other == row then Numbered(row, embeddings) else []
    decreases |embeddings|
  {
    if embeddings != [] {
      var n := |embeddings| - 1;
      GroupOfNumbered(row, embeddings[..n], other);
      assert Numbered(row, embeddings)[..n] == Numbered(row, embeddings[..n]);
      assert Numbered(row, embeddings)
          == Numbered(row, embeddings[..n]) + [RowVector(row, Min(n, MAX_CHUNK), embeddings[n])];
    }
  }

  lemma {:induction false} GroupLast(stored: seq<RowVector>, row: RowId)
    requires stored != []
    ensures Group(stored, row)
         == Group(stored[..|stored| - 1], row)
            + if stored[|stored| - 1].row == row then [stored[|stored| - 1]] else []
  {}

  lemma {:induction false} GroupOne(v: RowVector, row: RowId)
    ensures Group([v], row) == if v.row == row then [v] else []
  {
    assert [v][..0] == [];
  }

  predicate UpTo(group: seq<RowVector>, chunk: nat) {
    forall i :: 0 <= i < |group| ==> group[i].chunk <= chunk
  }

  lemma {:induction false} UpToParts(group: seq<RowVector>, last: seq<RowVector>, chunk: nat)
    requires UpTo(group + last, chunk)
    ensures UpTo(group, chunk) && UpTo(last, chunk)
  {
    var all := group + last;
    assert forall i :: 0 <= i < |group| ==> all[i] == group[i];
    assert forall i :: 0 <= i < |last| ==> all[|group| + i] == last[i];
  }

  lemma {:induction false} InsertedBefore(v: RowVector, last: RowVector, row: RowId)
    requires v.row == row && KeyLess(v, last) && UpTo(Group([last], row), v.chunk)
    ensures Group([last], row) == []
  {
    GroupOne(last, row);
  }

  /** What follows in a group, and what is inserted in front of it, may change places when one of them is nothing. */
  lemma {:induction false} GroupsExchange(
    front: seq<RowVector>, inserted: seq<RowVector>, last: seq<RowVector>, own: seq<RowVector>, row: RowId)
    requires Group(inserted, row) == Group(front, row) + own
    requires own == [] || Group(last, row) == []
    ensures Group(inserted + last, row) == Group(front + last, row) + own
  {
    GroupAppend(front, last, row);
    GroupAppend(inserted, last, row);
    hide Group;
    if own == [] {
      assert Group(front, row) + own == Group(front, row);
      assert Group(front + last, row) + own == Group(front + last, row);
    } else {
      assert Group(inserted, row) + Group(last, row) == Group(inserted, row);
      assert Group(front, row) + Group(last, row) == Group(front, row);
    }
  }

  lemma {:induction false} InsertGroup(sorted: seq<RowVector>, v: RowVector, row: RowId)
    requires v.row == row ==> UpTo(Group(sorted, row), v.chunk)
    ensures Group(InsertLast(sorted, v), row) == Group(sorted, row) + if v.row == row then [v] else []
  {
    assert Group([], row) == [];
    GroupOne(v, row);
    if sorted == [] {
      hide *;
    } else if KeyLess(v, sorted[|sorted| - 1]) {
      var front, last := sorted[..|sorted| - 1], sorted[|sorted| - 1];
      assert sorted == front + [last] && InsertLast(sorted, v) == InsertLast(front, v) + [last];
      hide *;
      GroupAppend(front, [last], row);
      if v.row == row {
        UpToParts(Group(front, row), Group([last], row), v.chunk);
        InsertedBefore(v, last, row);
      }
      InsertGroup(front, v, row);
      GroupsExchange(front, InsertLast(front, v), [last], if v.row == row then [v] else [], row);
    } else {
      assert InsertLast(sorted, v) == sorted + [v];
      hide *;
      GroupAppend(sorted, [v], row);
    }
  }

  /** Reading a companion table back sorted keeps every row's vectors in their order. */
  lemma {:induction false} SortedGroup(stored: seq<RowVector>, row: RowId)
    requires Ascends(Group(stored, row))
    ensures Group(VectorsOf(stored), row) == Group(stored, row)
  {
    if stored != [] {
      var n := |stored| - 1;
      var before := Group(stored[..n], row);
      assert forall i :: 0 <= i < |before| ==> Group(stored, row)[i] == before[i];
      SortedGroup(stored[..n], row);
      if stored[n].row == row {
        assert Group(stored, row)[|before|] == stored[n];
        assert UpTo(before, stored[n].chunk);
      }
      hide Group, InsertLast;
      InsertGroup(VectorsOf(stored[..n]), stored[n], row);
      GroupLast(stored, row);
    }
  }

  // ---------------------------------------------------------------- reconciling one column

  /** The first width that is not the stored one. */
  function CheckWidths(embeddings: seq<Vector>): Result<(), Error> {
    if embeddings == [] then Success(())
    else if |embeddings[0]| != VECTOR_WIDTH then Failure(WrongWidth(|embeddings[0]|))
    else CheckWidths(embeddings[1..])
  }

  /** The vectors one live row is stored with: those it has, or if it has none, those of its text. */
  function RowPart(e: Embedder, existing: seq<RowVector>, row: RowId, text: string): Result<seq<RowVector>, Error> {
    var kept := Embeddings(Group(existing, row));
    match if kept == [] then e(text) else Success(kept)
    case Failure(cause) => Failure(NotEmbedded(cause))
    case Success(embeddings) =>
      match CheckWidths(embeddings)
      case Failure(error) => Failure(error)
      case Success(_) => Success(Numbered(row, embeddings))
  }

  /** Every live row's part, in the order the rows were read, up to the first that fails. */
  function Rebuild(e: Embedder, existing: seq<RowVector>, present: seq<(RowId, string)>)
    : Result<seq<RowVector>, Error>
  {
    if present == [] then Success([])
    else
      var part :- RowPart(e, existing, present[0].0, present[0].1);
      var rest :- Rebuild(e, existing, present[1..]);
      Success(part + rest)
  }

  function LiveRows(present: seq<(RowId, string)>): set<RowId> {
    set i | 0 <= i < |present| :: present[i].0
  }

  /** What a companion table holds after a reconciliation that succeeds. */
  function ReconcileColumn(embedder: Option<Embedder>, present: seq<(RowId, string)>, stored: seq<RowVector>)
    : Result<seq<RowVector>, Error>
  {
    if embedder.None? then Failure(NoEmbedder)
    else
      var existing := VectorsOf(stored);
      if LiveRows(present) == RowsOf(existing) then Success(stored)
      else Rebuild(embedder.value, existing, present)
  }

  /** Every stored row was once committed, and holds all of its text's embedding, in order. */
  ghost predicate Complete(stored: seq<RowVector>, committed: map<RowId, string>, truth: Truth) {
    forall row :: row in RowsOf(stored) ==>
      row in committed && Group(stored, row) == Numbered(row, truth(committed[row]))
  }

  /** Exactly the live rows are stored, each with all of its text's embedding, in order. */
  ghost predicate Agrees(stored: seq<RowVector>, present: seq<(RowId, string)>, truth: Truth) {
    && RowsOf(stored) <= LiveRows(present)
    && forall i :: 0 <= i < |present| ==> Group(stored, present[i].0) == Numbered(present[i].0, truth(present[i].1))
  }

  predicate DistinctRows(present: seq<(RowId, string)>) {
    forall i, j :: 0 <= i < j < |present| ==> present[i].0 != present[j].0
  }

  /** What is live is what was committed under each id. */
  ghost predicate Committed(present: seq<(RowId, string)>, committed: map<RowId, string>) {
    forall i :: 0 <= i < |present| ==> present[i].0 in committed && committed[present[i].0] == present[i].1
  }

  lemma {:induction false} SortedRows(stored: seq<RowVector>)
    ensures RowsOf(VectorsOf(stored)) == RowsOf(stored)
  {
    forall row
      ensures row in RowsOf(VectorsOf(stored)) <==> row in RowsOf(stored)
    {
      SortedHasRow(stored, row);
    }
  }

  lemma {:induction false} SortedHasRow(stored: seq<RowVector>, row: RowId)
    ensures row in RowsOf(VectorsOf(stored)) <==> row in RowsOf(stored)
  {
    if stored != [] {
      var n := |stored| - 1;
      SortedHasRow(stored[..n], row);
      InsertRows(VectorsOf(stored[..n]), stored[n], row);
      assert stored == stored[..n] + [stored[n]];
    }
  }

  lemma {:induction false} InsertRows(sorted: seq<RowVector>, v: RowVector, row: RowId)
    ensures row in RowsOf(InsertLast(sorted, v)) <==> row in RowsOf(sorted) || row == v.row
  {
    if sorted == [] {
      assert row in RowsOf([v]) <==> row == v.row by {
        assert [v][0] == v;
      }
    } else {
      var n := |sorted| - 1;
      InsertRows(sorted[..n], v, row);
      RowsAppend(InsertLast(sorted[..n], v), sorted[n], row);
      RowsAppend(sorted[..n], sorted[n], row);
      RowsAppend(sorted, v, row);
      assert sorted == sorted[..n] + [sorted[n]];
    }
  }

  lemma {:induction false} RowsAppend(vectors: seq<RowVector>, v: RowVector, row: RowId)
    ensures row in RowsOf(vectors + [v]) <==> row in RowsOf(vectors) || row == v.row
  {
    var all := vectors + [v];
    assert all[|vectors|] == v;
    if row in RowsOf(vectors) {
      var i :| 0 <= i < |vectors| && vectors[i].row == row;
      assert all[i].row == row;
    }
  }

  lemma NumberedAscends(row: RowId, embeddings: seq<Vector>)
    ensures Ascends(Numbered(row, embeddings))
  {}

  /** A live row's part is its text's whole embedding, kept or made anew. */
  lemma {:induction false} RowPartIsTruth(
    e: Embedder, stored: seq<RowVector>, committed: map<RowId, string>, truth: Truth, row: RowId, text: string)
    requires Faithful(e, truth) && Complete(stored, committed, truth)
    requires row in committed && committed[row] == text
    requires RowPart(e, VectorsOf(stored), row, text).Success?
    ensures RowPart(e, VectorsOf(stored), row, text).value == Numbered(row, truth(text))
  {
    hide VectorsOf, Group, CheckWidths;
    GroupMembers(stored, row);
    if row in RowsOf(stored) {
      NumberedAscends(row, truth(text));
      SortedGroup(stored, row);
      assert Embeddings(Numbered(row, truth(text))) == truth(text);
    } else {
      SortedHasRow(stored, row);
      GroupMembers(VectorsOf(stored), row);
      assert Embeddings(Group(VectorsOf(stored), row)) == [];
    }
  }

  lemma {:induction false} RebuildIsTruth(
    e: Embedder, stored: seq<RowVector>, committed: map<RowId, string>, truth: Truth, present: seq<(RowId, string)>)
    requires Faithful(e, truth) && Complete(stored, committed, truth)
    requires Committed(present, committed) && DistinctRows(present)
    requires Rebuild(e, VectorsOf(stored), present).Success?
    ensures Agrees(Rebuild(e, VectorsOf(stored), present).value, present, truth)
  {
    hide VectorsOf, RowPart, Complete, Faithful;
    if present == [] {
    } else {
      var row, text, rest := present[0].0, present[0].1, present[1..];
      var existing := VectorsOf(stored);
      RowPartIsTruth(e, stored, committed, truth, row, text);
      RebuildIsTruth(e, stored, committed, truth, rest);
      var part, others := Numbered(row, truth(text)), Rebuild(e, existing, rest).value;
      AgreesWithFirst(part, others, present, truth);
    }
  }

  lemma {:induction false} AgreesWithFirst(
    part: seq<RowVector>, others: seq<RowVector>, present: seq<(RowId, string)>, truth: Truth)
    requires present != [] && DistinctRows(present)
    requires part == Numbered(present[0].0, truth(present[0].1)) && Agrees(others, present[1..], truth)
    ensures Agrees(part + others, present, truth)
  {
    hide Group;
    var row, rest, all := present[0].0, present[1..], part + others;
    forall i | 0 <= i < |present|
      ensures Group(all, present[i].0) == Numbered(present[i].0, truth(present[i].1))
    {
      GroupAppend(part, others, present[i].0);
      GroupOfNumbered(row, truth(present[0].1), present[i].0);
      if i == 0 {
        GroupMembers(others, row);
        assert row !in LiveRows(rest);
      } else {
        assert present[i] == rest[i - 1];
      }
    }
    forall r | r in RowsOf(all)
      ensures r in LiveRows(present)
    {
      var i :| 0 <= i < |all| && all[i].row == r;
      if i < |part| {
        assert present[0].0 == r;
      } else {
        assert others[i - |part|].row == r && r in RowsOf(others);
        var j :| 0 <= j < |rest| && rest[j].0 == r;
        assert present[j + 1].0 == r;
      }
    }
  }

  lemma {:induction false} AgreesIsComplete(
    stored: seq<RowVector>, present: seq<(RowId, string)>, committed: map<RowId, string>, truth: Truth)
    requires Agrees(stored, present, truth) && Committed(present, committed)
    ensures Complete(stored, committed, truth)
  {
    hide Group;
    forall row | row in RowsOf(stored)
      ensures row in committed && Group(stored, row) == Numbered(row, truth(committed[row]))
    {
      assert row in LiveRows(present);
      var i :| 0 <= i < |present| && present[i].0 == row;
    }
  }

  /**
   A reconciliation that succeeds leaves exactly the live rows, each with all of its text's embedding in
   order, whatever of it was there before.
   */
  lemma {:induction false} ReconcileAgrees(
    embedder: Option<Embedder>, present: seq<(RowId, string)>, stored: seq<RowVector>,
    committed: map<RowId, string>, truth: Truth)
    requires embedder.Some? ==> Faithful(embedder.value, truth)
    requires Complete(stored, committed, truth) && Committed(present, committed) && DistinctRows(present)
    requires ReconcileColumn(embedder, present, stored).Success?
    ensures var after := ReconcileColumn(embedder, present, stored).value;
            Agrees(after, present, truth) && Complete(after, committed, truth)
  {
    hide VectorsOf, Rebuild, Group, Faithful;
    SortedRows(stored);
    if LiveRows(present) == RowsOf(VectorsOf(stored)) {
      forall i | 0 <= i < |present|
        ensures Group(stored, present[i].0) == Numbered(present[i].0, truth(present[i].1))
      {
        assert present[i].0 in LiveRows(present);
      }
    } else {
      RebuildIsTruth(embedder.value, stored, committed, truth, present);
      AgreesIsComplete(Rebuild(embedder.value, VectorsOf(stored), present).value, present, committed, truth);
    }
  }

  /** The first vector that is not 384 wide. */
  predicate FirstMisfit(embeddings: seq<Vector>, i: nat) {
    && i < |embeddings| && |embeddings[i]| != 384
    && forall j :: 0 <= j < i ==> |embeddings[j]| == 384
  }

  lemma {:induction false} WidthsSay(embeddings: seq<Vector>)
    ensures CheckWidths(embeddings).Success? <==> forall i :: 0 <= i < |embeddings| ==> |embeddings[i]| == 384
    ensures CheckWidths(embeddings).Failure? ==>
              exists i: nat ::
                FirstMisfit(embeddings, i) && CheckWidths(embeddings) == Failure(WrongWidth(|embeddings[i]|))
  {
    if embeddings != [] {
      var rest := embeddings[1..];
      WidthsSay(rest);
      if |embeddings[0]| != VECTOR_WIDTH {
        assert FirstMisfit(embeddings, 0);
      } else if CheckWidths(rest).Failure? {
        var i: nat :| FirstMisfit(rest, i) && CheckWidths(rest) == Failure(WrongWidth(|rest[i]|));
        forall j | 0 <= j < i + 1
          ensures |embeddings[j]| == 384
        {
          assert j > 0 ==> embeddings[j] == rest[j - 1];
        }
        assert FirstMisfit(embeddings, i + 1) && embeddings[i + 1] == rest[i];
      } else {
        assert forall j :: 1 <= j < |embeddings| ==> embeddings[j] == rest[j - 1];
      }
    }
  }

  /** A live row can be stored: it is already, or its text embeds, and all its vectors are 384 wide. */
  ghost predicate CanStore(e: Embedder, stored: seq<RowVector>, row: RowId, text: string, truth: Truth) {
    && ((exists v :: v in stored && v.row == row) || e(text).Success?)
    && forall i :: 0 <= i < |truth(text)| ==> |truth(text)[i]| == 384
  }

  /** Why a row that cannot be stored is refused: its text does not embed, or the first vector that does not fit. */
  ghost predicate RefusedFor(
    e: Embedder, stored: seq<RowVector>, row: RowId, text: string, truth: Truth, error: Error)
  {
    if !(exists v :: v in stored && v.row == row) && e(text).Failure? then error == NotEmbedded(e(text).error)
    else exists i: nat :: FirstMisfit(truth(text), i) && error == WrongWidth(|truth(text)[i]|)
  }

  lemma {:induction false} RowsSay(stored: seq<RowVector>, row: RowId)
    ensures row in RowsOf(stored) <==> exists v :: v in stored && v.row == row
  {
    if row in RowsOf(stored) {
      var i :| 0 <= i < |stored| && stored[i].row == row;
      assert stored[i] in stored;
    }
  }

  lemma {:induction false} RowPartSays(
    e: Embedder, stored: seq<RowVector>, committed: map<RowId, string>, truth: Truth, row: RowId, text: string)
    requires Faithful(e, truth) && Complete(stored, committed, truth)
    requires row in committed && committed[row] == text
    ensures RowPart(e, VectorsOf(stored), row, text).Success? <==> CanStore(e, stored, row, text, truth)
    ensures RowPart(e, VectorsOf(stored), row, text).Failure? ==>
              RefusedFor(e, stored, row, text, truth, RowPart(e, VectorsOf(stored), row, text).error)
  {
    hide VectorsOf, Group, CheckWidths, FirstMisfit;
    GroupMembers(stored, row);
    RowsSay(stored, row);
    WidthsSay(truth(text));
    if row in RowsOf(stored) {
      NumberedAscends(row, truth(text));
      SortedGroup(stored, row);
      assert Embeddings(Numbered(row, truth(text))) == truth(text);
    } else {
      SortedHasRow(stored, row);
      GroupMembers(VectorsOf(stored), row);
      assert Embeddings(Group(VectorsOf(stored), row)) == [];
    }
  }

  /** The first live row that cannot be stored, and why it is refused. */
  ghost predicate StopsAt(
    e: Embedder, stored: seq<RowVector>, present: seq<(RowId, string)>, truth: Truth, i: nat, error: Error)
  {
    && i < |present| && !CanStore(e, stored, present[i].0, present[i].1, truth)
    && (forall j :: 0 <= j < i ==> CanStore(e, stored, present[j].0, present[j].1, truth))
    && RefusedFor(e, stored, present[i].0, present[i].1, truth, error)
  }

  ghost predicate AllCanStore(
    e: Embedder, stored: seq<RowVector>, present: seq<(RowId, string)>, truth: Truth)
  {
    forall i :: 0 <= i < |present| ==> CanStore(e, stored, present[i].0, present[i].1, truth)
  }

  lemma {:induction false} RebuildSays(
    e: Embedder, stored: seq<RowVector>, committed: map<RowId, string>, truth: Truth, present: seq<(RowId, string)>)
    requires Faithful(e, truth) && Complete(stored, committed, truth) && Committed(present, committed)
    ensures Rebuild(e, VectorsOf(stored), present).Success? <==> AllCanStore(e, stored, present, truth)
    ensures Rebuild(e, VectorsOf(stored), present).Failure? ==>
              exists i: nat :: StopsAt(e, stored, present, truth, i, Rebuild(e, VectorsOf(stored), present).error)
  {
    hide VectorsOf, RowPart, Complete, Faithful, CanStore, RefusedFor;
    if present != [] {
      var row, text, rest := present[0].0, present[0].1, present[1..];
      RowPartSays(e, stored, committed, truth, row, text);
      assert forall j :: 1 <= j < |present| ==> present[j] == rest[j - 1];
      if RowPart(e, VectorsOf(stored), row, text).Failure? {
        assert StopsAt(e, stored, present, truth, 0, RowPart(e, VectorsOf(stored), row, text).error);
      } else {
        RebuildSays(e, stored, committed, truth, rest);
        if Rebuild(e, VectorsOf(stored), rest).Failure? {
          var error := Rebuild(e, VectorsOf(stored), rest).error;
          var i: nat :| StopsAt(e, stored, rest, truth, i, error);
          assert present[i + 1] == rest[i];
          assert StopsAt(e, stored, present, truth, i + 1, error);
        }
      }
    }
  }

  /**
   Reconciling succeeds exactly when the rows stored are the live ones already or every live row can be stored; no
   embedder is needed for a row that is. It fails for want of any embedder, or as the first row that cannot be.
   */
  lemma {:induction false} ReconcileSays(
    embedder: Option<Embedder>, present: seq<(RowId, string)>, stored: seq<RowVector>,
    committed: map<RowId, string>, truth: Truth)
    requires embedder.Some? ==> Faithful(embedder.value, truth)
    requires Complete(stored, committed, truth) && Committed(present, committed)
    ensures embedder.None? ==> ReconcileColumn(embedder, present, stored) == Failure(NoEmbedder)
    ensures embedder.Some? ==>
              (ReconcileColumn(embedder, present, stored).Success?
               <==> LiveRows(present) == RowsOf(stored) || AllCanStore(embedder.value, stored, present, truth))
    ensures embedder.Some? && ReconcileColumn(embedder, present, stored).Failure? ==>
              exists i: nat ::
                StopsAt(embedder.value, stored, present, truth, i, ReconcileColumn(embedder, present, stored).error)
    ensures embedder.Some? && LiveRows(present) == RowsOf(stored) ==>
              ReconcileColumn(embedder, present, stored) == Success(stored)
  {
    hide VectorsOf, Rebuild, Faithful, Complete, Committed, LiveRows, RowsOf, AllCanStore, StopsAt;
    SortedRows(stored);
    if embedder.Some? {
      RebuildSays(embedder.value, stored, committed, truth, present);
    }
  }

  /** With an embedder that works, reconciling cannot fail. */
  lemma {:induction false} ReconcileSucceeds(
    embedder: Option<Embedder>, present: seq<(RowId, string)>, stored: seq<RowVector>,
    committed: map<RowId, string>, truth: Truth)
    requires embedder.Some? && Faithful(embedder.value, truth) && Working(embedder.value, truth)
    requires Complete(stored, committed, truth) && Committed(present, committed)
    ensures ReconcileColumn(embedder, present, stored).Success?
  {
    hide VectorsOf, Faithful, Working, Complete;
    RebuildSucceeds(embedder.value, stored, committed, truth, present);
  }

  lemma {:induction false} RebuildSucceeds(
    e: Embedder, stored: seq<RowVector>, committed: map<RowId, string>, truth: Truth, present: seq<(RowId, string)>)
    requires Faithful(e, truth) && Working(e, truth)
    requires Complete(stored, committed, truth) && Committed(present, committed)
    ensures Rebuild(e, VectorsOf(stored), present).Success?
  {
    hide VectorsOf, RowPart, Complete, Faithful, Working;
    if present != [] {
      RowPartSucceeds(e, stored, committed, truth, present[0].0, present[0].1);
      RebuildSucceeds(e, stored, committed, truth, present[1..]);
    }
  }

  lemma {:induction false} RowPartSucceeds(
    e: Embedder, stored: seq<RowVector>, committed: map<RowId, string>, truth: Truth, row: RowId, text: string)
    requires Faithful(e, truth) && Working(e, truth)
    requires Complete(stored, committed, truth)
    requires row in committed && committed[row] == text
    ensures RowPart(e, VectorsOf(stored), row, text).Success?
  {
    hide VectorsOf, Group, CheckWidths;
    GroupMembers(stored, row);
    if row in RowsOf(stored) {
      NumberedAscends(row, truth(text));
      SortedGroup(stored, row);
      assert Embeddings(Numbered(row, truth(text))) == truth(text);
    } else {
      SortedHasRow(stored, row);
      GroupMembers(VectorsOf(stored), row);
      assert Embeddings(Group(VectorsOf(stored), row)) == [];
    }
  }

  /** The companion table already covers exactly the live rows. */
  predicate UpToDate(present: seq<(RowId, string)>, stored: seq<RowVector>) {
    LiveRows(present) == RowsOf(VectorsOf(stored))
  }

  /** Once a row's part has been made, making it again from what was stored gives it again. */
  lemma {:induction false} RowPartAgain(
    e: Embedder, stored: seq<RowVector>, after: seq<RowVector>, committed: map<RowId, string>, truth: Truth,
    row: RowId, text: string)
    requires Faithful(e, truth) && Complete(stored, committed, truth)
    requires row in committed && committed[row] == text
    requires RowPart(e, VectorsOf(stored), row, text).Success?
    requires Group(after, row) == Numbered(row, truth(text))
    ensures RowPart(e, VectorsOf(after), row, text) == RowPart(e, VectorsOf(stored), row, text)
  {
    RowPartIsTruth(e, stored, committed, truth, row, text);
    NumberedAscends(row, truth(text));
    SortedGroup(after, row);
    GroupMembers(stored, row);
    if row in RowsOf(stored) {
      SortedGroup(stored, row);
    } else {
      SortedHasRow(stored, row);
      GroupMembers(VectorsOf(stored), row);
    }
    hide VectorsOf, Group, CheckWidths, Complete;
    assert Embeddings(Numbered(row, truth(text))) == truth(text);
    assert Embeddings(Group(VectorsOf(after), row)) == truth(text);
  }

  lemma {:induction false} RebuildAgain(
    e: Embedder, stored: seq<RowVector>, after: seq<RowVector>, committed: map<RowId, string>, truth: Truth,
    present: seq<(RowId, string)>)
    requires Faithful(e, truth) && Complete(stored, committed, truth) && Committed(present, committed)
    requires Rebuild(e, VectorsOf(stored), present).Success?
    requires forall i :: 0 <= i < |present| ==>
      Group(after, present[i].0) == Numbered(present[i].0, truth(present[i].1))
    ensures Rebuild(e, VectorsOf(after), present) == Rebuild(e, VectorsOf(stored), present)
  {
    hide VectorsOf, RowPart, Complete, Faithful, Group;
    if present != [] {
      RowPartAgain(e, stored, after, committed, truth, present[0].0, present[0].1);
      RebuildAgain(e, stored, after, committed, truth, present[1..]);
    }
  }

  /** Reconciling again succeeds and changes nothing. */
  lemma {:induction false} ReconcileIdempotent(
    embedder: Option<Embedder>, present: seq<(RowId, string)>, stored: seq<RowVector>, after: seq<RowVector>,
    committed: map<RowId, string>, truth: Truth)
    requires embedder.Some? ==> Faithful(embedder.value, truth)
    requires Complete(stored, committed, truth) && Committed(present, committed) && DistinctRows(present)
    requires ReconcileColumn(embedder, present, stored) == Success(after)
    ensures ReconcileColumn(embedder, present, after) == Success(after)
  {
    ReconcileAgrees(embedder, present, stored, committed, truth);
    hide VectorsOf, Rebuild, Faithful, Complete, Group;
    if !UpToDate(present, stored) && !UpToDate(present, after) {
      RebuildAgain(embedder.value, stored, after, committed, truth, present);
    }
  }

  /** When every live text has a vector, reconciling again asks no embedder for anything. */
  lemma {:induction false} AgreementIsUpToDate(present: seq<(RowId, string)>, stored: seq<RowVector>, truth: Truth)
    requires Agrees(stored, present, truth)
    ensures UpToDate(present, stored) <==> forall i :: 0 <= i < |present| ==> truth(present[i].1) != []
  {
    hide VectorsOf, Group;
    SortedRows(stored);
    forall i | 0 <= i < |present|
      ensures truth(present[i].1) != [] <==> present[i].0 in RowsOf(stored)
    {
      GroupMembers(stored, present[i].0);
      assert |Group(stored, present[i].0)| == |truth(present[i].1)|;
    }
    if forall i :: 0 <= i < |present| ==> truth(present[i].1) != [] {
      forall row | row in LiveRows(present)
        ensures row in RowsOf(stored)
      {
        var i :| 0 <= i < |present| && present[i].0 == row;
        assert truth(present[i].1) != [];
      }
    } else {
      var i :| 0 <= i < |present| && truth(present[i].1) == [];
      assert present[i].0 in LiveRows(present) && present[i].0 !in RowsOf(stored);
    }
  }

  // ---------------------------------------------------------------- reading a companion table back

  /** Reading back is a stable sort: nothing is lost, and nothing follows what it should precede. */
  lemma {:induction false} VectorsSorted(stored: seq<RowVector>)
    ensures multiset(VectorsOf(stored)) == multiset(stored)
    ensures Sorted(VectorsOf(stored))
  {
    if stored == [] {
      assert VectorsOf(stored) == [];
    } else {
      var front, last := stored[..|stored| - 1], stored[|stored| - 1];
      assert VectorsOf(stored) == InsertLast(VectorsOf(front), last);
      assert stored == front + [last];
      hide *;
      VectorsSorted(front);
      InsertSorted(VectorsOf(front), last);
      InsertKeeps(VectorsOf(front), last);
    }
  }

  predicate Sorted(vectors: seq<RowVector>) {
    forall i, j :: 0 <= i < j < |vectors| ==> !KeyLess(vectors[j], vectors[i])
  }

  lemma {:induction false} SortedSnoc(front: seq<RowVector>, last: RowVector)
    requires Sorted(front) && forall i :: 0 <= i < |front| ==> !KeyLess(last, front[i])
    ensures Sorted(front + [last])
  {}

  lemma {:induction false} InsertKeeps(sorted: seq<RowVector>, v: RowVector)
    ensures multiset(InsertLast(sorted, v)) == multiset(sorted) + multiset{v}
  {
    hide KeyLess;
    if sorted != [] {
      InsertKeeps(sorted[..|sorted| - 1], v);
      assert sorted == sorted[..|sorted| - 1] + [sorted[|sorted| - 1]];
    }
  }

  lemma {:induction false} InsertSorted(sorted: seq<RowVector>, v: RowVector)
    requires Sorted(sorted)
    ensures Sorted(InsertLast(sorted, v))
  {
    if sorted == [] {
    } else if KeyLess(v, sorted[|sorted| - 1]) {
      var front, last := sorted[..|sorted| - 1], sorted[|sorted| - 1];
      InsertSorted(front, v);
      InsertKeeps(front, v);
      var inserted := InsertLast(front, v);
      assert InsertLast(sorted, v) == inserted + [last];
      hide *;
      forall i | 0 <= i < |inserted|
        ensures !KeyLess(last, inserted[i])
      {
        assert inserted[i] in multiset(inserted);
        NoneGreater(sorted, inserted[i], v);
      }
      SortedSnoc(inserted, last);
    } else {
      SortedSnoc(sorted, v);
    }
  }

  lemma {:induction false} NoneGreater(sorted: seq<RowVector>, x: RowVector, v: RowVector)
    requires sorted != [] && Sorted(sorted) && KeyLess(v, sorted[|sorted| - 1])
    requires x == v || x in sorted[..|sorted| - 1]
    ensures !KeyLess(sorted[|sorted| - 1], x)
  {}
}
