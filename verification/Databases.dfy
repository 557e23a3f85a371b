/** Undo and redo statements on a database of many tables: which table each one names and changes
    (flashback_sql.go:41-49, 70-75). */
module Databases {
  import opened Options
  import opened Texts
  import opened Changes
  import opened Sql
  import opened SqlReader
  import opened Values
  import opened UndoRedo
  import opened UndoRuns
  import opened UndoText

  datatype Name = Name(schema: string, table: string)

  /** The tables of a database, their definitions, and the schema a session uses where none is named. */
  datatype Database = Database(session: string, schemas: map<Name, Schema>, rows: map<Name, Table>)

  /** The table a statement names. */
  function Resolved(t: Target, session: string): Name {
    Name(if t.schema.Some? then t.schema.value else session, t.table)
  }

  predicate NamesTable(st: Statement) {
    st.InsertInto? || st.DeleteFrom? || st.UpdateSet?
  }

  /** Executing a statement on the table it names; nothing if there is none or the table refuses. */
  ghost function ExecOn(db: Database, st: Statement): Option<Database> {
    if !NamesTable(st) then None
    else
      var name := Resolved(st.target, db.session);
      if name !in db.rows || name !in db.schemas then None
      else
        var t := Exec(db.schemas[name], st, db.rows[name]);
        if t.None? then None else Some(db.(rows := db.rows[name := t.value]))
  }

  /** The table a change is of: without a schema, `public` on PostgreSQL and the session's on MySQL. */
  function TableName(ch: Change, session: string): Name {
    var none := forall i :: 0 <= i < |ch.schema| ==> IsSpace(ch.schema[i]);
    Name(if !none then ch.schema else if ch.mysql then session else "public", ch.table)
  }

  /** Both statements of a change name its table. */
  lemma NamesItsTable(ch: Change, session: string)
    ensures NamesTable(Undo(ch)) ==> Resolved(Undo(ch).target, session) == TableName(ch, session)
    ensures NamesTable(Redo(ch)) ==> Resolved(Redo(ch).target, session) == TableName(ch, session)
  {
    hide Conditions, Assignments, Pinned, IsSpace;
  }

  // ---- One change ----

  /** The database holds the change's table, and the change fits it. */
  ghost predicate FitsOn(db: Database, e: Entry) {
    var name := TableName(e.ch, db.session);
    && name in db.rows && name in db.schemas && Logged(db.schemas[name], e) && TableOk(db.schemas[name], db.rows[name])
    && Fits(db.schemas[name], db.rows[name], e.act.Gone(), e.act.Come())
  }

  /** The database after the change: only its own table is another. */
  ghost function DoneOn(db: Database, e: Entry): Database
    requires TableName(e.ch, db.session) in db.rows
  {
    var name := TableName(e.ch, db.session);
    db.(rows := db.rows[name := Replaced(db.rows[name], e.act.Gone(), e.act.Come())])
  }

  lemma StatementsName(s: Schema, e: Entry)
    requires Logged(s, e)
    ensures NamesTable(Undo(e.ch)) && NamesTable(Redo(e.ch))
  {
    hide Undo, Redo, Logged;
    LoggedStatements(s, e);
  }

  lemma ExecOnIs(db: Database, st: Statement, name: Name, t: Table)
    requires NamesTable(st) && Resolved(st.target, db.session) == name && name in db.rows && name in db.schemas
    ensures ExecOn(db, st) == Some(db.(rows := db.rows[name := t]))
            <==> Exec(db.schemas[name], st, db.rows[name]) == Some(t)
  {
    hide Exec;
    var t' := Exec(db.schemas[name], st, db.rows[name]);
    if t'.Some? { assert db.rows[name := t'.value][name] == t'.value && db.rows[name := t][name] == t; }
  }

  /** Redo and undo of a change act on exactly the table the change names and leave every other as it was;
      together they restore the whole database if and only if all values of the rows come back. */
  lemma InvertsOnIff(db: Database, e: Entry)
    requires FitsOn(db, e)
    ensures
      var name, db' := TableName(e.ch, db.session), DoneOn(db, e);
      && (forall other :: other in db.rows && other != name ==> other in db'.rows && db'.rows[other] == db.rows[other])
      && (ExecOn(db, Redo(e.ch)) == Some(db') && ExecOn(db', Undo(e.ch)) == Some(db)
          <==> Faithful(db.schemas[name], e.act) || (e.act.Upd? && Harmless(db.schemas[name], db.rows[name],
                                                                            e.act.old_, e.act.new_)))
  {
    hide Exec, Undo, Redo, Logged, TableOk, Fits, Replaced, Faithful, Harmless, ExecOn, TableName, Resolved, NamesTable;
    var name, db' := TableName(e.ch, db.session), DoneOn(db, e);
    var s, t := db.schemas[name], db.rows[name];
    StatementsName(s, e);
    NamesItsTable(e.ch, db.session);
    UndoInvertsIff(s, e, t);
    ExecOnIs(db, Redo(e.ch), name, db'.rows[name]);
    ExecOnIs(db', Undo(e.ch), name, t);
    assert db'.rows[name := t] == db.rows;
  }

  /** The same for the texts, read back. */
  lemma TextInvertsOnIff(db: Database, e: Entry, esc: bool)
    requires FitsOn(db, e) && AllOk(e.ch.before, esc) && AllOk(e.ch.after, esc)
    ensures
      var name, db' := TableName(e.ch, db.session), DoneOn(db, e);
      var redo := ReadStatement(Print(Redo(e.ch), e.ch.mysql), e.ch.mysql, esc);
      var undo := ReadStatement(Print(Undo(e.ch), e.ch.mysql), e.ch.mysql, esc);
      && redo.Some? && undo.Some?
      && (ExecOn(db, redo.value) == Some(db') && ExecOn(db', undo.value) == Some(db)
          <==> Faithful(db.schemas[name], e.act) || (e.act.Upd? && Harmless(db.schemas[name], db.rows[name],
                                                                            e.act.old_, e.act.new_)))
  {
    hide Exec, Undo, Redo, Logged, TableOk, Fits, Replaced, Faithful, Harmless, ExecOn, TableName, Print, ReadStatement,
         AllOk;
    LoggedStatements(db.schemas[TableName(e.ch, db.session)], e);
    RedoTextRead(e.ch, esc);
    UndoTextRead(e.ch, esc);
    InvertsOnIff(db, e);
  }

  // ---- Runs of changes of several tables ----

  ghost predicate ApplicableOn(db: Database, es: seq<Entry>)
    decreases |es|
  {
    es == [] || (FitsOn(db, es[0]) && Faithful(db.schemas[TableName(es[0].ch, db.session)], es[0].act)
                 && ApplicableOn(DoneOn(db, es[0]), es[1..]))
  }

  ghost function AppliedOn(db: Database, es: seq<Entry>): Database
    requires ApplicableOn(db, es)
    decreases |es|
  {
    if es == [] then db else AppliedOn(DoneOn(db, es[0]), es[1..])
  }

  ghost function ExecAllOn(db: Database, sts: seq<Statement>): Option<Database>
    decreases |sts|
  {
    if sts == [] then Some(db)
    else
      var db' := ExecOn(db, sts[0]);
      if db'.None? then None else ExecAllOn(db'.value, sts[1..])
  }

  lemma {:induction false} ExecAllAppend(db: Database, a: seq<Statement>, b: seq<Statement>)
    ensures ExecAllOn(db, a + b)
            == (var db' := ExecAllOn(db, a); if db'.None? then None else ExecAllOn(db'.value, b))
    decreases |a|
  {
    hide ExecOn;
    if a == [] {
      assert a + b == b;
    } else {
      assert (a + b)[0] == a[0] && (a + b)[1..] == a[1..] + b;
      var db' := ExecOn(db, a[0]);
      if db'.Some? { ExecAllAppend(db'.value, a[1..], b); }
    }
  }

  lemma ExecOneOn(db: Database, st: Statement, rest: seq<Statement>)
    ensures ExecAllOn(db, [st] + rest)
            == if ExecOn(db, st).None? then None else ExecAllOn(ExecOn(db, st).value, rest)
    ensures ExecAllOn(db, []) == Some(db)
  {
    hide ExecOn;
    assert ([st] + rest)[1..] == rest;
  }

  lemma HasTable(db: Database, e: Entry)
    requires FitsOn(db, e)
    ensures TableName(e.ch, db.session) in db.rows
  {
    hide TableName, Logged, TableOk, Fits;
  }

  /** Over any number of tables, the redo statements in order do what the run did, and the undo statements
      newest first restore the whole database. */
  lemma {:induction false} RunInvertsOn(db: Database, es: seq<Entry>)
    requires ApplicableOn(db, es)
    ensures ExecAllOn(db, RedoStatements(es)) == Some(AppliedOn(db, es))
    ensures ExecAllOn(AppliedOn(db, es), UndoNewestFirst(es)) == Some(db)
    decreases |es|
  {
    hide ExecOn, FitsOn, Faithful, Undo, Redo, Harmless, DoneOn, TableName;
    if es != [] {
      var e, rest := es[0], es[1..];
      HasTable(db, e);
      var db' := DoneOn(db, e);
      InvertsOnIff(db, e);
      RunInvertsOn(db', rest);
      ExecOneOn(db, Redo(e.ch), RedoStatements(rest));
      ExecAllAppend(AppliedOn(db, es), UndoNewestFirst(rest), [Undo(e.ch)]);
      assert [Undo(e.ch)] + [] == [Undo(e.ch)];
      ExecOneOn(db', Undo(e.ch), []);
      ExecOneOn(db, Undo(e.ch), []);
    }
  }
}
