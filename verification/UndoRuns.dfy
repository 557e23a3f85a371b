/** Undoing and redoing whole runs of changes (flashback_sql.go; the statements are stored in the order of
    the changes, flashback_run.go:235-261). */
module UndoRuns {
  import opened Options
  import opened Sql
  import opened Values
  import opened UndoRedo

  /** Each change of the run is applicable when its turn comes. */
  ghost predicate Applicable(s: Schema, es: seq<Entry>, t: Table)
    decreases |es|
  {
    es == [] ||
    (var a := es[0].act;
     Logged(s, es[0]) && Fits(s, t, a.Gone(), a.Come()) && Applicable(s, es[1..], Replaced(t, a.Gone(), a.Come())))
  }

  function Applied(es: seq<Entry>, t: Table): Table
    decreases |es|
  {
    if es == [] then t else Applied(es[1..], Replaced(t, es[0].act.Gone(), es[0].act.Come()))
  }

  /** All values the run replaces or leaves can be written back. */
  ghost predicate AllFaithful(s: Schema, es: seq<Entry>) {
    forall i :: 0 <= i < |es| ==> Faithful(s, es[i].act)
  }

  ghost function ExecAll(s: Schema, sts: seq<Statement>, t: Table): Option<Table>
    decreases |sts|
  {
    if sts == [] then Some(t)
    else
      var t' := Exec(s, sts[0], t);
      if t'.None? then None else ExecAll(s, sts[1..], t'.value)
  }

  function RedoStatements(es: seq<Entry>): seq<Statement> {
    if es == [] then [] else [Redo(es[0].ch)] + RedoStatements(es[1..])
  }

  /** The undo statements in the order they are stored: that of the changes. */
  function UndoStored(es: seq<Entry>): seq<Statement> {
    if es == [] then [] else [Undo(es[0].ch)] + UndoStored(es[1..])
  }

  function UndoNewestFirst(es: seq<Entry>): seq<Statement> {
    if es == [] then [] else UndoNewestFirst(es[1..]) + [Undo(es[0].ch)]
  }

  lemma {:induction false} ExecAppend(s: Schema, a: seq<Statement>, b: seq<Statement>, t: Table)
    ensures ExecAll(s, a + b, t)
         == (var t' := ExecAll(s, a, t); if t'.None? then None else ExecAll(s, b, t'.value))
    decreases |a|
  {
    hide Exec;
    if a == [] {
      assert a + b == b;
    } else {
      assert (a + b)[0] == a[0] && (a + b)[1..] == a[1..] + b;
      var t' := Exec(s, a[0], t);
      if t'.Some? {
        ExecAppend(s, a[1..], b, t'.value);
      }
    }
  }

  lemma ExecOne(s: Schema, st: Statement, rest: seq<Statement>, t: Table)
    ensures ExecAll(s, [st] + rest, t)
            == if Exec(s, st, t).None? then None else ExecAll(s, rest, Exec(s, st, t).value)
  {
    hide Exec;
    assert ([st] + rest)[1..] == rest;
  }

  lemma ExecNone(s: Schema, t: Table)
    ensures ExecAll(s, [], t) == Some(t)
  {
  }

  /** Redo of a change whose values come back, and undo of it. */
  lemma RedoExec(s: Schema, e: Entry, t: Table)
    requires Logged(s, e) && TableOk(s, t) && Fits(s, t, e.act.Gone(), e.act.Come()) && Faithful(s, e.act)
    ensures Exec(s, Redo(e.ch), t) == Some(Replaced(t, e.act.Gone(), e.act.Come()))
  {
    hide *;
    RedoIff(s, e, t);
    FaithfulSides(s, e.act);
  }

  lemma UndoExec(s: Schema, e: Entry, t: Table)
    requires Logged(s, e) && TableOk(s, t) && Fits(s, t, e.act.Come(), e.act.Gone()) && Faithful(s, e.act)
    ensures Exec(s, Undo(e.ch), t) == Some(Replaced(t, e.act.Come(), e.act.Gone()))
  {
    hide *;
    UndoIff(s, e, t);
    FaithfulSides(s, e.act);
  }

  lemma LoggedValid(s: Schema, e: Entry)
    requires Logged(s, e)
    ensures s.Valid() && (forall r :: r in e.act.Gone() ==> s.RowOk(r)) && forall r :: r in e.act.Come() ==> s.RowOk(r)
  {
    hide Schema.Valid, Schema.RowOk;
  }

  lemma {:induction false} RunRedone(s: Schema, es: seq<Entry>, t: Table)
    requires TableOk(s, t) && Applicable(s, es, t) && AllFaithful(s, es)
    ensures ExecAll(s, RedoStatements(es), t) == Some(Applied(es, t)) && TableOk(s, Applied(es, t))
    decreases |es|
  {
    hide Exec, Fits, TableOk, Replaced, Act.Gone, Act.Come, AtMostOne, Redo, Faithful, Logged, Schema.Valid;
    if es != [] {
      var e := es[0];
      LoggedValid(s, e);
      RedoExec(s, e, t);
      OneRowEach(e.act);
      TakenBack(s, t, e.act.Gone(), e.act.Come());
      RunRedone(s, es[1..], Replaced(t, e.act.Gone(), e.act.Come()));
      ExecOne(s, Redo(e.ch), RedoStatements(es[1..]), t);
    }
  }

  /** Undoing a run newest first restores the table it started from. */
  lemma {:induction false} NewestFirstRestores(s: Schema, es: seq<Entry>, t: Table)
    requires TableOk(s, t) && Applicable(s, es, t) && AllFaithful(s, es)
    ensures ExecAll(s, UndoNewestFirst(es), Applied(es, t)) == Some(t)
    decreases |es|
  {
    hide Exec, Fits, TableOk, Replaced, Act.Gone, Act.Come, AtMostOne, Undo, Faithful, Logged, Schema.Valid;
    if es != [] {
      var e := es[0];
      var t' := Replaced(t, e.act.Gone(), e.act.Come());
      LoggedValid(s, e);
      OneRowEach(e.act);
      TakenBack(s, t, e.act.Gone(), e.act.Come());
      NewestFirstRestores(s, es[1..], t');
      UndoExec(s, e, t');
      ExecAppend(s, UndoNewestFirst(es[1..]), [Undo(e.ch)], Applied(es, t));
      assert [Undo(e.ch)] + [] == [Undo(e.ch)];
      ExecOne(s, Undo(e.ch), [], t');
      ExecNone(s, t);
    }
  }

  // ---- The stored order, no key touched twice ----

  ghost predicate Apart(s: Schema, a: set<SqlRow>, b: set<SqlRow>) {
    forall r, q :: r in a && q in b ==> !SameKey(s, r, q)
  }

  function Touched(e: Entry): set<SqlRow> {
    e.act.Gone() + e.act.Come()
  }

  /** No key is touched by two changes of the run. */
  ghost predicate TouchedOnce(s: Schema, es: seq<Entry>) {
    forall i, j :: 0 <= i < j < |es| ==> Apart(s, Touched(es[i]), Touched(es[j]))
  }

  /** Two replacements that touch no common key can be made in either order. */
  lemma Commute(s: Schema, t: Table, g: set<SqlRow>, c: set<SqlRow>, g': set<SqlRow>, c': set<SqlRow>)
    requires s.Valid() && TableOk(s, t) && Fits(s, t, g, c) && Fits(s, Replaced(t, g, c), g', c')
    requires Apart(s, g + c, g' + c') && (forall r :: r in g' ==> s.RowOk(r))
    ensures Fits(s, t, g', c') && Fits(s, Replaced(t, g', c'), g, c)
    ensures Replaced(Replaced(t, g, c), g', c') == Replaced(Replaced(t, g', c'), g, c)
  {
    hide SameKey, Schema.RowOk, Schema.Valid;
    forall r | r in g' + c'
      ensures r !in g + c
    {
      OwnKey(s, r);
    }
    assert g' <= t;
    forall r, q | r in c' && q in t - g'
      ensures !SameKey(s, r, q)
    {
      KeySymmetric(s, r, q);
    }
  }

  /** A replacement apart from a whole run can be made before it or after it. */
  lemma {:induction false} CommuteRun(s: Schema, t: Table, g: set<SqlRow>, c: set<SqlRow>, es: seq<Entry>)
    requires s.Valid() && TableOk(s, t) && Fits(s, t, g, c) && AtMostOne(c)
    requires Applicable(s, es, Replaced(t, g, c))
    requires forall i :: 0 <= i < |es| ==> Apart(s, g + c, Touched(es[i]))
    ensures Applicable(s, es, t) && Fits(s, Applied(es, t), g, c) && TableOk(s, Applied(es, t))
    ensures Applied(es, Replaced(t, g, c)) == Replaced(Applied(es, t), g, c)
    decreases |es|
  {
    hide Fits, TableOk, Replaced, Act.Gone, Act.Come, AtMostOne, Logged, Apart, Schema.Valid, Schema.RowOk;
    if es != [] {
      var e := es[0];
      var a := e.act;
      assert Apart(s, g + c, a.Gone() + a.Come());
      LoggedValid(s, e);
      Commute(s, t, g, c, a.Gone(), a.Come());
      OneRowEach(a);
      TakenBack(s, t, a.Gone(), a.Come());
      CommuteRun(s, Replaced(t, a.Gone(), a.Come()), g, c, es[1..]);
    }
  }

  /** Undoing in the stored order, oldest first, restores the table when no key is touched twice. */
  lemma {:induction false} StoredOrderRestores(s: Schema, es: seq<Entry>, t: Table)
    requires TableOk(s, t) && Applicable(s, es, t) && TouchedOnce(s, es) && AllFaithful(s, es)
    ensures ExecAll(s, UndoStored(es), Applied(es, t)) == Some(t)
    decreases |es|
  {
    hide Exec, Fits, TableOk, Replaced, Act.Gone, Act.Come, AtMostOne, Undo, Apart, Logged, Faithful, Schema.Valid,
         Schema.RowOk;
    if es != [] {
      var e, rest := es[0], es[1..];
      LoggedValid(s, e);
      OneRowEach(e.act);
      assert forall i :: 0 <= i < |rest| ==> Apart(s, Touched(e), Touched(rest[i]));
      assert TouchedOnce(s, rest);
      CommuteRun(s, t, e.act.Gone(), e.act.Come(), rest);
      TakenBack(s, Applied(rest, t), e.act.Gone(), e.act.Come());
      UndoExec(s, e, Applied(es, t));
      ExecOne(s, Undo(e.ch), UndoStored(rest), Applied(es, t));
      StoredOrderRestores(s, rest, t);
    }
  }
}
