/**
 What a write leaves live and what it leaves stored, said of the rows it was given and the rows before it, and how
 far a write that fails got.
 */
module TableLaws {
  import opened EmbeddedTable
  import opened Reconcile
  import opened Wrappers

  // ---------------------------------------------------------------- what is live

  predicate AllInOrder(at: seq<nat>) {
    forall i, j :: 0 <= i < j < |at| ==> at[i] < at[j]
  }

  /** `kept` are the rows at the positions `at`, in order, and these are the positions of all that are not gone. */
  predicate KeptAt(rows: seq<Row>, gone: set<RowId>, kept: seq<Row>, at: seq<nat>) {
    && |kept| == |at| && AllInOrder(at)
    && (forall k :: 0 <= k < |at| ==> at[k] < |rows| && kept[k] == rows[at[k]])
    && (forall i :: 0 <= i < |rows| ==> (i in at <==> rows[i].id !in gone))
  }

  lemma {:induction false} SurvivorsSnoc(rows: seq<Row>, last: Row, gone: set<RowId>)
    ensures Survivors(rows + [last], gone) == Survivors(rows, gone) + if last.id in gone then [] else [last]
  {
    if rows == [] {
      assert [] + [last] == [last] && [last][1..] == [];
      assert Survivors([], gone) == [];
    } else {
      SurvivorsSnoc(rows[1..], last, gone);
      assert (rows + [last])[1..] == rows[1..] + [last];
    }
  }

  lemma {:induction false} KeptSnoc(rows: seq<Row>, gone: set<RowId>, kept: seq<Row>, at: seq<nat>, last: Row)
    requires KeptAt(rows, gone, kept, at)
    ensures if last.id in gone then KeptAt(rows + [last], gone, kept, at)
            else KeptAt(rows + [last], gone, kept + [last], at + [|rows|])
  {
    var all := rows + [last];
    assert |rows| !in at;
    forall i | 0 <= i < |all|
      ensures i in at + [|rows|] <==> i in at || i == |rows|
      ensures i < |rows| ==> all[i] == rows[i]
    {
    }
  }

  lemma {:induction false} SurvivorsInOrder(rows: seq<Row>, gone: set<RowId>) returns (at: seq<nat>)
    ensures KeptAt(rows, gone, Survivors(rows, gone), at)
  {
    if rows == [] {
      at := [];
    } else {
      var front, last := rows[..|rows| - 1], rows[|rows| - 1];
      at := SurvivorsInOrder(front, gone);
      SurvivorsSnoc(front, last, gone);
      KeptSnoc(front, gone, Survivors(front, gone), at, last);
      hide *;
      assert front + [last] == rows;
      if last.id in gone {
        assert Survivors(front, gone) + [] == Survivors(front, gone);
      } else {
        at := at + [|front|];
      }
    }
  }

  /**
   After a write, finished or not, live are the rows that were live and are not gone, in the order they had, and
   behind them the rows that were added; no embedding is touched unless the write's audit entry was written.
   */
  lemma {:induction false} WriteRows(t: Table, w: Write) returns (at: seq<nat>)
    ensures var (after, failed) := Step(t, w);
            && |after.rows| == |at| + |w.added|
            && KeptAt(t.rows, w.gone, after.rows[..|at|], at) && after.rows[|at|..] == w.added
            && after.columns == t.columns
            && (!w.logged ==> failed == Some(NotLogged) && after.companions == t.companions)
  {
    at := SurvivorsInOrder(t.rows, w.gone);
    hide Survivors, Remember, ReconcileAll, KeptAt;
    var kept := Survivors(t.rows, w.gone);
    assert |kept| == |at| by {
      KeptCount(t.rows, w.gone, kept, at);
    }
    assert (kept + w.added)[..|at|] == kept && (kept + w.added)[|at|..] == w.added;
  }

  lemma KeptCount(rows: seq<Row>, gone: set<RowId>, kept: seq<Row>, at: seq<nat>)
    requires KeptAt(rows, gone, kept, at)
    ensures |kept| == |at|
  {}

  /** A row is live after a write if and only if the write added it, or it was live before and its id is not gone. */
  lemma {:induction false} WriteLive(t: Table, w: Write, r: Row)
    ensures r in Step(t, w).0.rows <==> r in w.added || (r in t.rows && r.id !in w.gone)
  {
    SurvivorsHold(t.rows, w.gone, r);
    hide Survivors, Remember, ReconcileAll;
  }

  lemma {:induction false} SurvivorsHold(rows: seq<Row>, gone: set<RowId>, r: Row)
    ensures r in Survivors(rows, gone) <==> r in rows && r.id !in gone
  {
    if rows != [] {
      SurvivorsHold(rows[1..], gone, r);
      assert rows == [rows[0]] + rows[1..];
    }
  }

  // ---------------------------------------------------------------- what is stored

  /** A text that a row has, whole and in order, under that row's id; a column the row lacks counts as empty. */
  ghost predicate HoldsText(stored: seq<RowVector>, r: Row, column: Column, truth: Truth) {
    && (column in r.texts ==> Group(stored, r.id) == Numbered(r.id, truth(r.texts[column])))
    && (column !in r.texts ==> Group(stored, r.id) == Numbered(r.id, truth("")))
  }

  /**
   After a write that succeeds, whatever writes came before, each auto-embedding column stores for every row that
   was added, or was live and is not gone, the embedding of that row's own text, and stores nothing else.
   */
  lemma {:induction false} WriteStores(
    columns: seq<Column>, writes: seq<Write>, w: Write, truth: Truth, column: Column)
    requires PermittedRun(New(columns), writes, truth)
    requires Permitted(Run(New(columns), writes), w, truth)
    requires Step(Run(New(columns), writes), w).1.None? && column in columns
    ensures var t := Run(New(columns), writes);
            var stored := Stored(Step(t, w).0.companions, column);
            && (forall r :: r in w.added || (r in t.rows && r.id !in w.gone) ==> HoldsText(stored, r, column, truth))
            && (forall v :: v in stored ==>
                  (exists r :: (r in w.added || (r in t.rows && r.id !in w.gone)) && r.id == v.row))
  {
    OneSuccessHeals(columns, writes, w, truth);
    var t := Run(New(columns), writes);
    var after := Step(t, w).0;
    assert Agrees(Stored(after.companions, column), Present(after.rows, column), truth);
    hide Step, Run, Permitted, PermittedRun, InAgreement, Agrees, HoldsText;
    AgreementHolds(after.rows, Stored(after.companions, column), column, truth);
    forall r
      ensures r in after.rows <==> r in w.added || (r in t.rows && r.id !in w.gone)
    {
      WriteLive(t, w, r);
    }
  }

  lemma {:induction false} AgreementHolds(rows: seq<Row>, stored: seq<RowVector>, column: Column, truth: Truth)
    requires Agrees(stored, Present(rows, column), truth)
    ensures forall r :: r in rows ==> HoldsText(stored, r, column, truth)
    ensures forall v :: v in stored ==> exists r :: r in rows && r.id == v.row
  {
    hide Group, Numbered;
    var present := Present(rows, column);
    forall r | r in rows
      ensures HoldsText(stored, r, column, truth)
    {
      var i :| 0 <= i < |rows| && rows[i] == r;
      assert present[i].0 == r.id;
    }
    forall v | v in stored
      ensures exists r :: r in rows && r.id == v.row
    {
      assert v.row in RowsOf(stored);
      var i :| 0 <= i < |present| && present[i].0 == v.row;
      assert rows[i] in rows && rows[i].id == v.row;
    }
  }

  // ---------------------------------------------------------------- over every run

  /** The row was added by one of the writes. */
  predicate WasAdded(writes: seq<Write>, r: Row) {
    exists k :: 0 <= k < |writes| && r in writes[k].added
  }

  predicate CommittedBy(committed: map<RowId, map<Column, string>>, writes: seq<Write>) {
    forall row :: row in committed ==> WasAdded(writes, Row(row, committed[row]))
  }

  lemma {:induction false} RememberedRow(
    committed: map<RowId, map<Column, string>>, added: seq<Row>, row: RowId)
    requires row in Remember(committed, added)
    ensures (row in committed && Remember(committed, added)[row] == committed[row])
         || Row(row, Remember(committed, added)[row]) in added
    decreases |added|
  {
    if added != [] {
      var next := committed[added[0].id := added[0].texts];
      RememberedRow(next, added[1..], row);
      assert added == [added[0]] + added[1..];
    }
  }

  lemma {:induction false} CommittedGrows(committed: map<RowId, map<Column, string>>, writes: seq<Write>, w: Write)
    requires CommittedBy(committed, writes)
    ensures CommittedBy(Remember(committed, w.added), writes + [w])
  {
    hide Remember;
    var all := writes + [w];
    assert all[|writes|] == w && forall k :: 0 <= k < |writes| ==> all[k] == writes[k];
    forall row | row in Remember(committed, w.added)
      ensures WasAdded(all, Row(row, Remember(committed, w.added)[row]))
    {
      RememberedRow(committed, w.added, row);
      if Row(row, Remember(committed, w.added)[row]) in w.added {
        assert Row(row, Remember(committed, w.added)[row]) in all[|writes|].added;
      } else {
        var k :| 0 <= k < |writes| && Row(row, committed[row]) in writes[k].added;
        assert Row(row, committed[row]) in all[k].added;
      }
    }
  }

  lemma {:induction false} RunCommitted(t: Table, before: seq<Write>, writes: seq<Write>)
    requires CommittedBy(t.committed, before)
    ensures CommittedBy(Run(t, writes).committed, before + writes)
    decreases |writes|
  {
    hide CommittedBy, Remember, ReconcileAll;
    if writes == [] {
      assert before + writes == before;
    } else {
      var w := writes[0];
      CommittedGrows(t.committed, before, w);
      assert Step(t, w).0.committed == Remember(t.committed, w.added);
      RunCommitted(Step(t, w).0, before + [w], writes[1..]);
      assert (before + [w]) + writes[1..] == before + writes;
    }
  }

  /**
   In every reachable state, wherever its writes stopped, every row id that a companion table stores is the id of
   a row that was added, and is stored with the whole embedding of that row's own text.
   */
  lemma {:induction false} StoredWasAdded(
    columns: seq<Column>, writes: seq<Write>, truth: Truth, column: Column, v: RowVector)
    requires PermittedRun(New(columns), writes, truth)
    requires v in Stored(Run(New(columns), writes).companions, column)
    ensures exists r :: WasAdded(writes, r) && r.id == v.row
              && HoldsText(Stored(Run(New(columns), writes).companions, column), r, column, truth)
  {
    NewSound(columns, truth);
    RunSound(New(columns), writes, truth);
    RunCommitted(New(columns), [], writes);
    assert [] + writes == writes;
    var t := Run(New(columns), writes);
    var stored := Stored(t.companions, column);
    assert Complete(stored, History(t.committed, column), truth);
    hide Run, PermittedRun, Group, Numbered, WasAdded, DistinctIds, RowsCommitted;
    assert v.row in RowsOf(stored);
    var r := Row(v.row, t.committed[v.row]);
    assert WasAdded(writes, r);
    assert HoldsText(stored, r, column, truth);
  }

  // ---------------------------------------------------------------- where a write stops

  predicate Untouched(before: Companions, after: Companions, column: Column) {
    (column in after <==> column in before) && (column in after ==> after[column] == before[column])
  }

  /**
   A reconciliation takes the columns in order and stops at the first it cannot do: those before it agree with
   the live rows, no other is touched, and what is answered is the end of the process or that column's own error.
   */
  lemma {:induction false} ReconcileStops(
    embedder: Option<Embedder>, rows: seq<Row>, companions: Companions, columns: seq<Column>, reach: nat,
    committed: map<RowId, map<Column, string>>, truth: Truth)
    returns (done: nat)
    requires embedder.Some? ==> Faithful(embedder.value, truth)
    requires DistinctIds(rows) && RowsCommitted(rows, committed) && AllComplete(companions, committed, truth)
    ensures done <= |columns| && done <= reach
    ensures var (after, failed) := ReconcileAll(embedder, rows, companions, columns, reach);
            && (forall i :: 0 <= i < done ==> Agrees(Stored(after, columns[i]), Present(rows, columns[i]), truth))
            && (forall column :: column !in columns[..done] ==> Untouched(companions, after, column))
            && (match failed
                case None => done == |columns|
                case Some(NotLogged) => false
                case Some(Interrupted) => done == reach < |columns|
                case Some(NotReconciled(e)) =>
                  done < |columns| && ReconcileOne(embedder, rows, after, columns[done]) == Failure(e))
  {
    done := Reached(embedder, rows, companions, columns, reach);
    var (after, failed) := ReconcileAll(embedder, rows, companions, columns, reach);
    hide ReconcileOne, Faithful, AllComplete, Agrees, DistinctIds, RowsCommitted, Untouched, Stored, Present;
    ReconcileAllAgrees(embedder, rows, companions, columns[..done], done, committed, truth);
    hide ReconcileAll;
    forall i | 0 <= i < done
      ensures Agrees(Stored(after, columns[i]), Present(rows, columns[i]), truth)
    {
      assert columns[..done][i] == columns[i];
    }
    forall column | column !in columns[..done]
      ensures Untouched(companions, after, column)
    {
      LeftUntouched(embedder, rows, companions, columns[..done], done, column);
    }
  }

  lemma LeftUntouched(
    embedder: Option<Embedder>, rows: seq<Row>, companions: Companions, columns: seq<Column>, reach: nat,
    column: Column)
    requires column !in columns
    ensures Untouched(companions, ReconcileAll(embedder, rows, companions, columns, reach).0, column)
  {
    hide ReconcileAll;
    ReconcileAllIsLocal(embedder, rows, companions, columns, reach, column);
  }

  lemma {:induction false} Reached(
    embedder: Option<Embedder>, rows: seq<Row>, companions: Companions, columns: seq<Column>, reach: nat)
    returns (done: nat)
    ensures done <= |columns| && done <= reach
    ensures ReconcileAll(embedder, rows, companions, columns[..done], done)
         == (ReconcileAll(embedder, rows, companions, columns, reach).0, None)
    ensures var (after, failed) := ReconcileAll(embedder, rows, companions, columns, reach);
            match failed
            case None => done == |columns|
            case Some(NotLogged) => false
            case Some(Interrupted) => done == reach < |columns|
            case Some(NotReconciled(e)) =>
              done < |columns| && ReconcileOne(embedder, rows, after, columns[done]) == Failure(e)
    decreases |columns|
  {
    hide ReconcileOne;
    done := 0;
    assert columns[..0] == [];
    if columns != [] && reach != 0 && ReconcileOne(embedder, rows, companions, columns[0]).Success? {
      var next := ReconcileOne(embedder, rows, companions, columns[0]).value;
      var more := Reached(embedder, rows, next, columns[1..], reach - 1);
      done := more + 1;
      assert columns[..done][1..] == columns[1..][..more] && columns[..done][0] == columns[0];
    }
  }

  /**
   A write without its audit entry reconciles nothing; any other reconciles column after column, answers as the
   first that it cannot do, and leaves those before it in agreement with the rows that are now live.
   */
  lemma {:induction false} WriteStops(columns: seq<Column>, writes: seq<Write>, w: Write, truth: Truth)
    returns (done: nat)
    requires PermittedRun(New(columns), writes, truth)
    requires Permitted(Run(New(columns), writes), w, truth)
    ensures var t := Run(New(columns), writes);
            var (after, failed) := Step(t, w);
            && done <= |columns| && (w.logged ==> done <= w.reach)
            && (forall i :: 0 <= i < done ==>
                  Agrees(Stored(after.companions, columns[i]), Present(after.rows, columns[i]), truth))
            && (forall column :: column !in columns[..done] ==> Untouched(t.companions, after.companions, column))
            && (match failed
                case None => w.logged && done == |columns|
                case Some(NotLogged) => !w.logged && done == 0
                case Some(Interrupted) => w.logged && done == w.reach < |columns|
                case Some(NotReconciled(e)) =>
                  && w.logged && done < |columns|
                  && ReconcileOne(w.embedder, after.rows, after.companions, columns[done]) == Failure(e))
  {
    var t := Run(New(columns), writes);
    var after := Step(t, w).0;
    RunColumns(New(columns), writes);
    NewSound(columns, truth);
    RunSound(New(columns), writes, truth);
    done := 0;
    if w.logged {
      StepSound(t, w, truth);
      CompanionsBefore(t, w, truth);
      hide Run, PermittedRun, Sound, Survivors, Remember, ReconcileOne, DistinctIds, RowsCommitted, AllComplete;
      hide Agrees, Untouched, Present, Stored, Faithful;
      done := ReconcileStops(w.embedder, after.rows, t.companions, columns, w.reach, after.committed, truth);
    }
  }

  /** A write's own reconciliation begins from companion tables that hold nothing in part. */
  lemma {:induction false} CompanionsBefore(t: Table, w: Write, truth: Truth)
    requires Sound(t, truth) && Permitted(t, w, truth)
    ensures var after := Step(t, w).0;
            && DistinctIds(after.rows) && RowsCommitted(after.rows, after.committed)
            && AllComplete(t.companions, after.committed, truth)
  {
    StepSound(t, w, truth);
    CompleteKept(t.companions, t.committed, w.added, truth);
    hide Survivors, Remember, ReconcileAll, AllComplete, DistinctIds, RowsCommitted, Faithful;
  }
}
