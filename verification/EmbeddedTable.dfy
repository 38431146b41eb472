/**
 A table with auto-embedding columns over a whole run of writes, each of which commits rows first and
 brings the companion tables back into agreement afterwards, if it gets that far.
 */
module EmbeddedTable {
  import opened Reconcile
  import opened Wrappers

  type Companions = map<Column, seq<RowVector>>

  datatype Failed = NotLogged | Interrupted | NotReconciled(error: Error)

  /** What is live, what is stored beside it, and every text ever committed under a row id. */
  datatype Table = Table(
    columns: seq<Column>, rows: seq<Row>, companions: Companions, committed: map<RowId, map<Column, string>>)

  /**
   What a write commits (an append has nothing gone, a delete nothing added, and an update replaces
   rows under new ids), the embedder its handle was opened with, whether its audit entry was written,
   and how many columns it lived to reconcile.
   */
  datatype Write = Write(gone: set<RowId>, added: seq<Row>, embedder: Option<Embedder>, logged: bool, reach: nat)

  function New(columns: seq<Column>): Table {
    Table(columns, [], map[], map[])
  }

  /** A text that is missing reads as an empty one. */
  function TextIn(texts: map<Column, string>, column: Column): string {
    if column in texts then texts[column] else ""
  }

  /** What reconciling one column sees of the rows: their ids, and what that column says. */
  function Present(rows: seq<Row>, column: Column): (present: seq<(RowId, string)>)
    ensures |present| == |rows|
    ensures forall i :: 0 <= i < |rows| ==> present[i] == (rows[i].id, TextIn(rows[i].texts, column))
  {
    seq(|rows|, i requires 0 <= i < |rows| => (rows[i].id, TextIn(rows[i].texts, column)))
  }

  /** A companion table that is not there holds nothing. */
  function Stored(companions: Companions, column: Column): seq<RowVector> {
    if column in companions then companions[column] else []
  }

  function Survivors(rows: seq<Row>, gone: set<RowId>): seq<Row> {
    if rows == [] then []
    else (if rows[0].id in gone then [] else [rows[0]]) + Survivors(rows[1..], gone)
  }

  function Remember(committed: map<RowId, map<Column, string>>, added: seq<Row>)
    : map<RowId, map<Column, string>>
    decreases |added|
  {
    if added == [] then committed else Remember(committed[added[0].id := added[0].texts], added[1..])
  }

  /** One column; a companion table that covers the live rows is not written. */
  function ReconcileOne(embedder: Option<Embedder>, rows: seq<Row>, companions: Companions, column: Column)
    : Result<Companions, Error>
  {
    var present, stored := Present(rows, column), Stored(companions, column);
    var after :- ReconcileColumn(embedder, present, stored);
    Success(if UpToDate(present, stored) then companions else companions[column := after])
  }

  /** Every column in turn, up to the first failure or the end of the process. */
  function ReconcileAll(
    embedder: Option<Embedder>, rows: seq<Row>, companions: Companions, columns: seq<Column>, reach: nat)
    : (Companions, Option<Failed>)
    decreases |columns|
  {
    if columns == [] then (companions, None)
    else if reach == 0 then (companions, Some(Interrupted))
    else
      match ReconcileOne(embedder, rows, companions, columns[0])
      case Failure(error) => (companions, Some(NotReconciled(error)))
      case Success(after) => ReconcileAll(embedder, rows, after, columns[1..], reach - 1)
  }

  function Step(t: Table, w: Write): (Table, Option<Failed>) {
    var rows := Survivors(t.rows, w.gone) + w.added;
    var committed := Remember(t.committed, w.added);
    if !w.logged then (t.(rows := rows, committed := committed), Some(NotLogged))
    else
      var (companions, failed) := ReconcileAll(w.embedder, rows, t.companions, t.columns, w.reach);
      (t.(rows := rows, companions := companions, committed := committed), failed)
  }

  function Run(t: Table, writes: seq<Write>): Table
    decreases |writes|
  {
    if writes == [] then t else Run(Step(t, writes[0]).0, writes[1..])
  }

  predicate DistinctIds(rows: seq<Row>) {
    forall i, j :: 0 <= i < j < |rows| ==> rows[i].id != rows[j].id
  }

  /** Row ids are handed out once in a table's life. */
  predicate NewIds(t: Table, w: Write) {
    DistinctIds(w.added) && forall i :: 0 <= i < |w.added| ==> w.added[i].id !in t.committed
  }

  ghost predicate Permitted(t: Table, w: Write, truth: Truth) {
    NewIds(t, w) && (w.embedder.Some? ==> Faithful(w.embedder.value, truth))
  }

  ghost predicate PermittedRun(t: Table, writes: seq<Write>, truth: Truth)
    decreases |writes|
  {
    writes == [] || (Permitted(t, writes[0], truth) && PermittedRun(Step(t, writes[0]).0, writes[1..], truth))
  }

  // ---------------------------------------------------------------- what every reachable state keeps

  /** The text of one column ever committed under each row id. */
  function History(committed: map<RowId, map<Column, string>>, column: Column): map<RowId, string> {
    map row | row in committed :: TextIn(committed[row], column)
  }

  predicate RowsCommitted(rows: seq<Row>, committed: map<RowId, map<Column, string>>) {
    forall i :: 0 <= i < |rows| ==> rows[i].id in committed && committed[rows[i].id] == rows[i].texts
  }

  ghost predicate AllComplete(companions: Companions, committed: map<RowId, map<Column, string>>, truth: Truth) {
    forall column :: Complete(Stored(companions, column), History(committed, column), truth)
  }

  /** Live rows are distinct and as committed, and no companion table holds part of a row's embedding. */
  ghost predicate Sound(t: Table, truth: Truth) {
    && DistinctIds(t.rows)
    && RowsCommitted(t.rows, t.committed)
    && AllComplete(t.companions, t.committed, truth)
  }

  /** Every column's companion table holds exactly the live rows' embeddings. */
  ghost predicate InAgreement(rows: seq<Row>, companions: Companions, columns: seq<Column>, truth: Truth) {
    forall column :: column in columns ==> Agrees(Stored(companions, column), Present(rows, column), truth)
  }

  lemma {:induction false} SurvivorsKept(rows: seq<Row>, gone: set<RowId>, committed: map<RowId, map<Column, string>>)
    requires DistinctIds(rows) && RowsCommitted(rows, committed)
    ensures DistinctIds(Survivors(rows, gone)) && RowsCommitted(Survivors(rows, gone), committed)
    ensures forall r :: r in Survivors(rows, gone) <==> r in rows && r.id !in gone
  {
    if rows != [] {
      SurvivorsKept(rows[1..], gone, committed);
      assert rows == [rows[0]] + rows[1..];
      var rest := Survivors(rows[1..], gone);
      forall i | 0 <= i < |rest|
        ensures rest[i].id != rows[0].id
      {
        assert rest[i] in rows[1..];
      }
    }
  }

  lemma {:induction false} RememberKeeps(committed: map<RowId, map<Column, string>>, added: seq<Row>)
    requires DistinctIds(added)
    requires forall i :: 0 <= i < |added| ==> added[i].id !in committed
    ensures forall row :: row in committed ==>
      row in Remember(committed, added) && Remember(committed, added)[row] == committed[row]
    ensures RowsCommitted(added, Remember(committed, added))
    decreases |added|
  {
    if added != [] {
      RememberKeeps(committed[added[0].id := added[0].texts], added[1..]);
    }
  }

  /** What was stored completely stays so when more is committed under other ids. */
  lemma {:induction false} CompleteKept(
    companions: Companions, committed: map<RowId, map<Column, string>>, added: seq<Row>, truth: Truth)
    requires AllComplete(companions, committed, truth) && DistinctIds(added)
    requires forall i :: 0 <= i < |added| ==> added[i].id !in committed
    ensures AllComplete(companions, Remember(committed, added), truth)
  {
    hide Remember, RowsOf, Group, Numbered;
    RememberKeeps(committed, added);
    forall column
      ensures Complete(Stored(companions, column), History(Remember(committed, added), column), truth)
    {
      assert Complete(Stored(companions, column), History(committed, column), truth);
    }
  }

  lemma {:induction false} PresentCommitted(rows: seq<Row>, committed: map<RowId, map<Column, string>>, column: Column)
    requires DistinctIds(rows) && RowsCommitted(rows, committed)
    ensures DistinctRows(Present(rows, column))
    ensures Committed(Present(rows, column), History(committed, column))
  {}

  /** One column's reconciliation keeps the invariant, brings that column into agreement, and touches no other. */
  lemma {:induction false} ReconcileOneAgrees(
    embedder: Option<Embedder>, rows: seq<Row>, companions: Companions, column: Column,
    committed: map<RowId, map<Column, string>>, truth: Truth)
    requires embedder.Some? ==> Faithful(embedder.value, truth)
    requires DistinctIds(rows) && RowsCommitted(rows, committed) && AllComplete(companions, committed, truth)
    requires ReconcileOne(embedder, rows, companions, column).Success?
    ensures AllComplete(ReconcileOne(embedder, rows, companions, column).value, committed, truth)
    ensures Agrees(
      Stored(ReconcileOne(embedder, rows, companions, column).value, column), Present(rows, column), truth)
    ensures ReconcileOne(embedder, rows, ReconcileOne(embedder, rows, companions, column).value, column)
         == ReconcileOne(embedder, rows, companions, column)
  {
    hide Faithful, Agrees, Complete, VectorsOf, Rebuild, RowsOf, LiveRows, DistinctIds, RowsCommitted, History, Present;
    var present, stored := Present(rows, column), Stored(companions, column);
    var after := ReconcileColumn(embedder, present, stored).value;
    var now := ReconcileOne(embedder, rows, companions, column).value;
    PresentCommitted(rows, committed, column);
    ReconcileAgrees(embedder, present, stored, History(committed, column), truth);
    ReconcileIdempotent(embedder, present, stored, after, History(committed, column), truth);
    assert Stored(now, column) == after;
    assert UpToDate(present, stored) || now[column := after] == now;
    forall other
      ensures Complete(Stored(now, other), History(committed, other), truth)
    {
      assert Complete(Stored(companions, other), History(committed, other), truth);
    }
  }

  /** Reconciling this column again succeeds and changes nothing. */
  ghost predicate Settled(embedder: Option<Embedder>, rows: seq<Row>, companions: Companions, column: Column) {
    ReconcileOne(embedder, rows, companions, column) == Success(companions)
  }

  /** A column's reconciliation looks at nothing but that column's companion table. */
  lemma {:induction false} ReconcileOneIsLocal(
    embedder: Option<Embedder>, rows: seq<Row>, a: Companions, b: Companions, column: Column)
    requires Settled(embedder, rows, a, column)
    requires (column in a <==> column in b) && (column in a ==> a[column] == b[column])
    ensures Settled(embedder, rows, b, column)
  {
    hide ReconcileColumn, UpToDate, Present;
    if !UpToDate(Present(rows, column), Stored(a, column)) {
      assert column in a[column := ReconcileColumn(embedder, Present(rows, column), Stored(a, column)).value];
      assert b[column := b[column]] == b;
    }
  }

  lemma {:induction false} ReconcileAllIsLocal(
    embedder: Option<Embedder>, rows: seq<Row>, companions: Companions, columns: seq<Column>, reach: nat, other: Column)
    requires other !in columns
    ensures var after := ReconcileAll(embedder, rows, companions, columns, reach).0;
      (other in after <==> other in companions) && (other in after ==> after[other] == companions[other])
    decreases |columns|
  {
    hide ReconcileColumn, UpToDate, Present;
    if columns != [] && reach != 0 && ReconcileOne(embedder, rows, companions, columns[0]).Success? {
      var next := ReconcileOne(embedder, rows, companions, columns[0]).value;
      ReconcileAllIsLocal(embedder, rows, next, columns[1..], reach - 1, other);
    }
  }

  /**
   However far it gets, reconciling the columns leaves no part of a row's embedding behind; and if it gets
   to the end, every column agrees with the live rows and reconciling it again changes nothing.
   */
  lemma {:induction false} ReconcileAllAgrees(
    embedder: Option<Embedder>, rows: seq<Row>, companions: Companions, columns: seq<Column>, reach: nat,
    committed: map<RowId, map<Column, string>>, truth: Truth)
    requires embedder.Some? ==> Faithful(embedder.value, truth)
    requires DistinctIds(rows) && RowsCommitted(rows, committed) && AllComplete(companions, committed, truth)
    ensures AllComplete(ReconcileAll(embedder, rows, companions, columns, reach).0, committed, truth)
    ensures ReconcileAll(embedder, rows, companions, columns, reach).1.None? ==>
      InAgreement(rows, ReconcileAll(embedder, rows, companions, columns, reach).0, columns, truth)
    ensures ReconcileAll(embedder, rows, companions, columns, reach).1.None? ==>
      forall column :: column in columns ==>
        Settled(embedder, rows, ReconcileAll(embedder, rows, companions, columns, reach).0, column)
    decreases |columns|
  {
    hide Faithful, AllComplete, DistinctIds, RowsCommitted, Agrees, Present, ReconcileOne;
    if columns != [] && reach != 0 && ReconcileOne(embedder, rows, companions, columns[0]).Success? {
      var first, rest := columns[0], columns[1..];
      var next := ReconcileOne(embedder, rows, companions, first).value;
      ReconcileOneAgrees(embedder, rows, companions, first, committed, truth);
      ReconcileAllAgrees(embedder, rows, next, rest, reach - 1, committed, truth);
      assert forall column :: column in columns ==> column == first || column in rest;
      if first !in rest {
        var after := ReconcileAll(embedder, rows, next, rest, reach - 1).0;
        ReconcileAllIsLocal(embedder, rows, next, rest, reach - 1, first);
        if ReconcileAll(embedder, rows, next, rest, reach - 1).1.None? {
          ReconcileOneIsLocal(embedder, rows, next, after, first);
        }
      }
    }
  }

  lemma {:induction false} SettledChangesNothing(
    embedder: Option<Embedder>, rows: seq<Row>, companions: Companions, columns: seq<Column>)
    requires forall column :: column in columns ==> Settled(embedder, rows, companions, column)
    ensures ReconcileAll(embedder, rows, companions, columns, |columns|) == (companions, None)
    decreases |columns|
  {
    hide ReconcileOne;
    if columns != [] {
      assert Settled(embedder, rows, companions, columns[0]);
      SettledChangesNothing(embedder, rows, companions, columns[1..]);
    }
  }

  // ---------------------------------------------------------------- main results

  /** A write, wherever it stopped, keeps the invariant. */
  lemma {:induction false} StepSound(t: Table, w: Write, truth: Truth)
    requires Sound(t, truth) && Permitted(t, w, truth)
    ensures Sound(Step(t, w).0, truth)
    ensures Step(t, w).1.None? ==>
      && InAgreement(Step(t, w).0.rows, Step(t, w).0.companions, t.columns, truth)
      && ReconcileAll(w.embedder, Step(t, w).0.rows, Step(t, w).0.companions, t.columns, |t.columns|)
         == (Step(t, w).0.companions, None)
  {
    var survivors := Survivors(t.rows, w.gone);
    var rows, committed := survivors + w.added, Remember(t.committed, w.added);
    SurvivorsKept(t.rows, w.gone, t.committed);
    RememberKeeps(t.committed, w.added);
    CompleteKept(t.companions, t.committed, w.added, truth);
    forall i, j | 0 <= i < j < |rows|
      ensures rows[i].id != rows[j].id
    {
      if i < |survivors| <= j {
        assert rows[i].id in t.committed && rows[j] == w.added[j - |survivors|];
      }
    }
    hide Survivors, Remember, AllComplete, InAgreement, Settled, ReconcileAll, Faithful;
    if w.logged {
      ReconcileAllAgrees(w.embedder, rows, t.companions, t.columns, w.reach, committed, truth);
      if Step(t, w).1.None? {
        SettledChangesNothing(w.embedder, rows, Step(t, w).0.companions, t.columns);
      }
    }
  }

  /** In every reachable state no companion table holds part of a row's embedding. */
  lemma {:induction false} RunSound(t: Table, writes: seq<Write>, truth: Truth)
    requires Sound(t, truth) && PermittedRun(t, writes, truth)
    ensures Sound(Run(t, writes), truth)
    decreases |writes|
  {
    hide Sound, Step, Permitted;
    if writes != [] {
      StepSound(t, writes[0], truth);
      RunSound(Step(t, writes[0]).0, writes[1..], truth);
    }
  }

  lemma {:induction false} NewSound(columns: seq<Column>, truth: Truth)
    ensures Sound(New(columns), truth)
  {
    forall column
      ensures Complete(Stored(map[], column), History(map[], column), truth)
    {
      assert RowsOf([]) == {};
    }
  }

  /**
   Whatever writes came before, finished or not, one write that succeeds leaves every auto-embedding column
   holding exactly the live rows' embeddings.
   */
  lemma {:induction false} OneSuccessHeals(columns: seq<Column>, writes: seq<Write>, last: Write, truth: Truth)
    requires PermittedRun(New(columns), writes, truth)
    requires Permitted(Run(New(columns), writes), last, truth)
    requires Step(Run(New(columns), writes), last).1.None?
    ensures var t := Step(Run(New(columns), writes), last).0;
      InAgreement(t.rows, t.companions, columns, truth)
  {
    NewSound(columns, truth);
    RunSound(New(columns), writes, truth);
    RunColumns(New(columns), writes);
    StepSound(Run(New(columns), writes), last, truth);
  }

  /**
   Nothing in the reconciliation itself makes a write fail: with its audit entry written, the process alive, a
   working embedder, and a handle that may read the companion tables, it succeeds.
   */
  lemma {:induction false} WorkingEmbedderSucceeds(t: Table, w: Write, truth: Truth)
    requires Sound(t, truth) && Permitted(t, w, truth)
    requires w.logged && w.reach >= |t.columns|
    requires w.embedder.Some? && Working(w.embedder.value, truth)
    ensures Step(t, w).1.None?
  {
    var rows, committed := Survivors(t.rows, w.gone) + w.added, Remember(t.committed, w.added);
    StepSound(t, w, truth);
    CompleteKept(t.companions, t.committed, w.added, truth);
    hide Survivors, Remember, AllComplete, ReconcileAll, Faithful, Working, DistinctIds, RowsCommitted;
    AllSucceed(w.embedder, rows, t.companions, t.columns, w.reach, committed, truth);
  }

  lemma {:induction false} AllSucceed(
    embedder: Option<Embedder>, rows: seq<Row>, companions: Companions, columns: seq<Column>, reach: nat,
    committed: map<RowId, map<Column, string>>, truth: Truth)
    requires embedder.Some? && Faithful(embedder.value, truth) && Working(embedder.value, truth)
    requires DistinctIds(rows) && RowsCommitted(rows, committed) && AllComplete(companions, committed, truth)
    requires reach >= |columns|
    ensures ReconcileAll(embedder, rows, companions, columns, reach).1.None?
    decreases |columns|
  {
    if columns != [] {
      var column := columns[0];
      PresentCommitted(rows, committed, column);
      assert Complete(Stored(companions, column), History(committed, column), truth);
      hide Faithful, Working, AllComplete, Complete, DistinctIds, RowsCommitted, Present, ReconcileColumn, UpToDate;
      ReconcileSucceeds(
        embedder, Present(rows, column), Stored(companions, column), History(committed, column), truth);
      var next := ReconcileOne(embedder, rows, companions, column).value;
      ReconcileOneAgrees(embedder, rows, companions, column, committed, truth);
      AllSucceed(embedder, rows, next, columns[1..], reach - 1, committed, truth);
    }
  }

  lemma {:induction false} RunColumns(t: Table, writes: seq<Write>)
    ensures Run(t, writes).columns == t.columns
    decreases |writes|
  {
    if writes != [] {
      RunColumns(Step(t, writes[0]).0, writes[1..]);
    }
  }
}
