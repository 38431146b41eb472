/** The table and its companion tables as they are updated in place, proved against `Reconcile` and `EmbeddedTable`. */
module EmbeddedTableObject {
  import opened EmbeddedTable
  import opened Reconcile
  import opened Wrappers

  /** A companion table as it is stored: three columns, the embeddings end to end in one flat list. */
  datatype Batch = Batch(rows: seq<RowId>, chunks: seq<nat>, values: Vector) {
    predicate WellFormed() {
      |chunks| == |rows| && |values| == VECTOR_WIDTH * |rows|
    }

    function At(i: nat): RowVector
      requires WellFormed() && i < |rows|
    {
      RowVector(rows[i], chunks[i], values[VECTOR_WIDTH * i..VECTOR_WIDTH * (i + 1)])
    }

    function Vectors(): (s: seq<RowVector>)
      requires WellFormed()
      ensures |s| == |rows|
      ensures forall i :: 0 <= i < |s| ==> s[i] == At(i)
    {
      seq(|rows|, i requires 0 <= i < |rows| => At(i))
    }

    /** An embedding of the stored width, added to the flat list, reads back as itself and moves no other. */
    lemma {:induction false} PushReadsBack(row: RowId, chunk: nat, embedding: Vector)
      requires WellFormed() && |embedding| == VECTOR_WIDTH
      ensures Batch(rows + [row], chunks + [chunk], values + embedding).WellFormed()
      ensures Batch(rows + [row], chunks + [chunk], values + embedding).Vectors()
           == Vectors() + [RowVector(row, chunk, embedding)]
    {
      var after := Batch(rows + [row], chunks + [chunk], values + embedding);
      forall i | 0 <= i < |rows|
        ensures after.At(i) == At(i)
      {
        var from, to := VECTOR_WIDTH * i, VECTOR_WIDTH * (i + 1);
        assert after.values[from..to] == values[from..to];
      }
      assert after.values[VECTOR_WIDTH * |rows|..VECTOR_WIDTH * (|rows| + 1)] == embedding;
    }
  }

  ghost predicate AllWellFormed(companions: map<Column, Batch>) {
    forall column :: column in companions ==> companions[column].WellFormed()
  }

  ghost function Read(companions: map<Column, Batch>): Companions
    requires AllWellFormed(companions)
  {
    map column | column in companions :: companions[column].Vectors()
  }

  lemma {:induction false} ReadUpdated(companions: map<Column, Batch>, column: Column, batch: Batch)
    requires AllWellFormed(companions) && batch.WellFormed()
    ensures AllWellFormed(companions[column := batch])
    ensures Read(companions[column := batch]) == Read(companions)[column := batch.Vectors()]
  {}

  method StableSort(vectors: seq<RowVector>) returns (sorted: seq<RowVector>)
    ensures sorted == VectorsOf(vectors)
  {
    sorted := [];
    for i := 0 to |vectors|
      invariant sorted == VectorsOf(vectors[..i])
    {
      assert vectors[..i + 1][..i] == vectors[..i];
      sorted := InsertLast(sorted, vectors[i]);
    }
    assert vectors[..|vectors|] == vectors;
  }

  /** What is left to build, behind what has been built. */
  function Behind(done: seq<RowVector>, rest: Result<seq<RowVector>, Error>): Result<seq<RowVector>, Error> {
    match rest
    case Success(more) => Success(done + more)
    case Failure(error) => Failure(error)
  }

  lemma {:induction false} WidthsFirst(embeddings: seq<Vector>, chunk: nat)
    requires chunk < |embeddings|
    ensures CheckWidths(embeddings[chunk..])
         == if |embeddings[chunk]| != VECTOR_WIDTH then Failure(WrongWidth(|embeddings[chunk]|))
            else CheckWidths(embeddings[chunk + 1..])
  {
    assert embeddings[chunk..][1..] == embeddings[chunk + 1..];
  }

  lemma {:induction false} NumberedNext(row: RowId, embeddings: seq<Vector>, chunk: nat, built: seq<RowVector>)
    requires chunk < |embeddings|
    ensures built + Numbered(row, embeddings)[..chunk + 1]
         == built + Numbered(row, embeddings)[..chunk]
            + [RowVector(row, if chunk <= MAX_CHUNK then chunk else MAX_CHUNK, embeddings[chunk])]
  {}

  /** One live row's embeddings, added to what is being built. */
  method AddRow(e: Embedder, existing: seq<RowVector>, row: RowId, text: string, built: Batch)
    returns (result: Result<Batch, Error>)
    requires built.WellFormed()
    ensures result.Success? ==> result.value.WellFormed()
    ensures match RowPart(e, existing, row, text)
      case Success(part) => result.Success? && result.value.Vectors() == built.Vectors() + part
      case Failure(error) => result == Failure(error)
  {
    hide Group;
    var kept := Embeddings(Group(existing, row));
    var embeddings := kept;
    if kept == [] {
      var answer := e(text);
      if answer.Failure? {
        return Failure(NotEmbedded(answer.error));
      }
      embeddings := answer.value;
    }
    var batch := built;
    var chunk := 0;
    assert embeddings[0..] == embeddings && CheckWidths(embeddings[|embeddings|..]) == Success(());
    assert Numbered(row, embeddings)[..0] == [] && built.Vectors() + [] == built.Vectors();
    hide CheckWidths, Batch.At, Batch.Vectors, Embeddings, Numbered;
    while chunk < |embeddings|
      invariant 0 <= chunk <= |embeddings|
      invariant batch.WellFormed()
      invariant batch.Vectors() == built.Vectors() + Numbered(row, embeddings)[..chunk]
      invariant CheckWidths(embeddings) == CheckWidths(embeddings[chunk..])
    {
      var embedding := embeddings[chunk];
      WidthsFirst(embeddings, chunk);
      if |embedding| != VECTOR_WIDTH {
        return Failure(WrongWidth(|embedding|));
      }
      var number := if chunk <= MAX_CHUNK then chunk else MAX_CHUNK;
      batch.PushReadsBack(row, number, embedding);
      NumberedNext(row, embeddings, chunk, built.Vectors());
      batch := Batch(batch.rows + [row], batch.chunks + [number], batch.values + embedding);
      chunk := chunk + 1;
    }
    assert Numbered(row, embeddings)[..chunk] == Numbered(row, embeddings);
    result := Success(batch);
  }

  /** A companion table rewritten wholesale, from the rows in the order they were read. */
  method AddRows(e: Embedder, existing: seq<RowVector>, present: seq<(RowId, string)>)
    returns (result: Result<Batch, Error>)
    ensures result.Success? ==> result.value.WellFormed()
    ensures match Rebuild(e, existing, present)
      case Success(vectors) => result.Success? && result.value.Vectors() == vectors
      case Failure(error) => result == Failure(error)
  {
    hide RowPart;
    var batch := Batch([], [], []);
    var i := 0;
    assert present[0..] == present;
    assert Behind(batch.Vectors(), Rebuild(e, existing, present)) == Rebuild(e, existing, present) by {
      assert forall s: seq<RowVector> :: batch.Vectors() + s == s;
    }
    while i < |present|
      invariant 0 <= i <= |present|
      invariant batch.WellFormed()
      invariant Rebuild(e, existing, present) == Behind(batch.Vectors(), Rebuild(e, existing, present[i..]))
    {
      var (row, text) := present[i];
      var added := AddRow(e, existing, row, text, batch);
      RebuildFirst(e, existing, present, i, batch.Vectors());
      if added.Failure? {
        return Failure(added.error);
      }
      batch := added.value;
      i := i + 1;
    }
    result := Success(batch);
  }

  lemma {:induction false} RebuildFirst(
    e: Embedder, existing: seq<RowVector>, present: seq<(RowId, string)>, i: nat, done: seq<RowVector>)
    requires i < |present|
    ensures Behind(done, Rebuild(e, existing, present[i..]))
         == match RowPart(e, existing, present[i].0, present[i].1)
            case Success(part) => Behind(done + part, Rebuild(e, existing, present[i + 1..]))
            case Failure(error) => Failure(error)
  {
    hide RowPart;
    assert present[i..][1..] == present[i + 1..];
    assert forall a: seq<RowVector>, b: seq<RowVector> :: done + (a + b) == (done + a) + b;
  }

  class AutoEmbeddingTable {
    const columns: seq<Column>
    var rows: seq<Row>
    var companions: map<Column, Batch>
    ghost var committed: map<RowId, map<Column, string>>

    ghost predicate Valid()
      reads this
    {
      AllWellFormed(companions)
    }

    ghost function State(): Table
      reads this
      requires Valid()
    {
      Table(columns, rows, Read(companions), committed)
    }

    constructor (columns: seq<Column>)
      ensures Valid() && State() == New(columns)
    {
      this.columns := columns;
      rows := [];
      companions := map[];
      committed := map[];
    }

    /** Reads the stored columns back one entry at a time, and sorts what they hold. */
    method ReadVectors(column: Column) returns (vectors: seq<RowVector>)
      requires Valid()
      ensures vectors == VectorsOf(Stored(State().companions, column))
    {
      vectors := [];
      if column in companions {
        var batch := companions[column];
        for i := 0 to |batch.rows|
          invariant vectors == batch.Vectors()[..i]
        {
          vectors := vectors + [batch.At(i)];
        }
        assert vectors == Stored(State().companions, column);
      }
      vectors := StableSort(vectors);
    }

    /** Pairs each live row's id with its text, in the order of `rows`. */
    method ReadPresent(column: Column) returns (present: seq<(RowId, string)>)
      ensures present == Present(rows, column)
    {
      present := [];
      for i := 0 to |rows|
        invariant present == Present(rows, column)[..i]
      {
        present := present + [(rows[i].id, TextIn(rows[i].texts, column))];
      }
    }

    /** `ReconcileOne` in place: at most this column's entry of `companions` changes, and none on failure. */
    method ReconcileColumn(embedder: Option<Embedder>, column: Column) returns (result: Result<(), Error>)
      requires Valid()
      modifies `companions
      ensures Valid()
      ensures match ReconcileOne(embedder, rows, old(State()).companions, column)
        case Success(after) => result == Success(()) && State().companions == after
        case Failure(error) => result == Failure(error) && companions == old(companions)
    {
      hide VectorsOf, Rebuild, LiveRows, RowsOf, Present;
      if embedder.None? {
        return Failure(NoEmbedder);
      }
      var existing := ReadVectors(column);
      var present := ReadPresent(column);
      if LiveRows(present) == RowsOf(existing) {
        return Success(());
      }
      var built := AddRows(embedder.value, existing, present);
      if built.Failure? {
        return Failure(built.error);
      }
      var batch := built.value;
      companions := companions[column := batch];
      ReadUpdated(old(companions), column, batch);
      result := Success(());
    }

    /** `ReconcileAll` in place: `columns` in order, until one fails or `reach` of them are done. */
    method ReconcileColumns(embedder: Option<Embedder>, reach: nat) returns (failed: Option<Failed>)
      requires Valid()
      modifies `companions
      ensures Valid()
      ensures (State().companions, failed) == ReconcileAll(embedder, rows, old(State()).companions, columns, reach)
    {
      hide ReconcileOne;
      var i := 0;
      while i < |columns|
        invariant 0 <= i <= |columns| && i <= reach
        invariant Valid()
        invariant ReconcileAll(embedder, rows, old(State()).companions, columns, reach)
               == ReconcileAll(embedder, rows, State().companions, columns[i..], reach - i)
      {
        if i == reach {
          return Some(Interrupted);
        }
        assert columns[i..][1..] == columns[i + 1..];
        var result := ReconcileColumn(embedder, columns[i]);
        if result.Failure? {
          return Some(NotReconciled(result.error));
        }
        i := i + 1;
      }
      failed := None;
    }

    /** Commit, write the audit entry, reconcile: in that order, and stopping where the write says. */
    method Write(w: Write) returns (failed: Option<Failed>)
      requires Valid()
      modifies this
      ensures Valid()
      ensures (State(), failed) == Step(old(State()), w)
    {
      hide Survivors, Remember, ReconcileAll;
      rows := Survivors(rows, w.gone) + w.added;
      committed := Remember(committed, w.added);
      if !w.logged {
        return Some(NotLogged);
      }
      failed := ReconcileColumns(w.embedder, w.reach);
    }
  }
}
