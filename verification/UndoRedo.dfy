/** What undo and redo statements do to a table with a primary key: exactly when each is the inverse of
    the other (flashback_sql.go:193-286). */
module UndoRedo {
  import opened Options
  import opened Texts
  import opened Changes
  import opened Sql
  import opened Values

  // ---- Tables and statements on them ----

  type Table = set<SqlRow>

  ghost predicate SameKey(s: Schema, r: SqlRow, q: SqlRow) {
    forall c :: c in s.pk ==> c in r && c in q && r[c] == q[c]
  }

  ghost predicate TableOk(s: Schema, t: Table) {
    && (forall r :: r in t ==> s.RowOk(r))
    && (forall r, q :: r in t && q in t && SameKey(s, r, q) ==> r == q)
  }

  /** SQL's three-valued equality seen from WHERE: null equals nothing. A place pins rows of tables
      without a primary key only, and holds of none of these rows. */
  predicate CondHolds(s: Schema, r: SqlRow, c: Cond) {
    match c
    case Equals(col, lit) => col in r && s.Meaning(col, lit) != Nil && r[col] == s.Meaning(col, lit)
    case IsNull(col) => col !in r || r[col] == Nil
    case CtidIs(_) => false
  }

  predicate Matches(s: Schema, r: SqlRow, where: seq<Cond>) {
    where == [] || (Matches(s, r, where[..|where| - 1]) && CondHolds(s, r, where[|where| - 1]))
  }

  function Assigned(s: Schema, r: SqlRow, xs: seq<Assign>): SqlRow {
    if xs == [] then r
    else
      var x := xs[|xs| - 1];
      Assigned(s, r, xs[..|xs| - 1])[x.col := s.Meaning(x.col, x.lit)]
  }

  function Rewritten(s: Schema, r: SqlRow, xs: seq<Assign>, where: seq<Cond>): SqlRow {
    if Matches(s, r, where) then Assigned(s, r, xs) else r
  }

  function Blanks(s: Schema): SqlRow {
    map c | c in s.cols :: Nil
  }

  predicate KeyIsNull(s: Schema, r: SqlRow) {
    exists c :: c in s.pk && c in r && r[c] == Nil
  }

  /** Executing a statement; nothing if it would put a null or a repeated value into the primary key. */
  ghost function Exec(s: Schema, st: Statement, t: Table): Option<Table> {
    match st
    case InsertInto(_, vals) =>
      var r := Assigned(s, Blanks(s), vals);
      if KeyIsNull(s, r) || exists q :: q in t && SameKey(s, r, q) then None else Some(t + {r})
    case DeleteFrom(_, where) => Some(set r | r in t && !Matches(s, r, where))
    case UpdateSet(_, xs, where) =>
      if (exists r :: r in t && KeyIsNull(s, Rewritten(s, r, xs, where)))
         || exists r, q ::
              r in t && q in t && r != q && SameKey(s, Rewritten(s, r, xs, where), Rewritten(s, q, xs, where))
      then None else Some(set r | r in t :: Rewritten(s, r, xs, where))
    case Verbatim(_) => None
    case NoStatement => None
  }

  // ---- What a change did to the table ----

  /** A row inserted, deleted, or replaced by another. */
  datatype Act = Ins(row: SqlRow) | Del(row: SqlRow) | Upd(old_: SqlRow, new_: SqlRow) {
    function Gone(): set<SqlRow> {
      match this
      case Ins(_) => {}
      case Del(r) => {r}
      case Upd(o, _) => {o}
    }

    function Come(): set<SqlRow> {
      match this
      case Ins(r) => {r}
      case Del(_) => {}
      case Upd(_, n) => {n}
    }
  }

  /** A logged change and what it did. */
  datatype Entry = Entry(ch: Change, act: Act)

  /** The change carries the full images of the rows it replaced and left. */
  ghost predicate Logged(s: Schema, e: Entry) {
    && s.Valid() && e.ch.pkCols == s.pk && !e.ch.noPK
    && (forall r :: r in e.act.Gone() + e.act.Come() ==> s.RowOk(r))
    && match e.act
       case Ins(r) => e.ch.op.Insert? && e.ch.after == s.ImageOf(r)
       case Del(r) => e.ch.op.Delete? && e.ch.before == s.ImageOf(r)
       case Upd(o, n) => e.ch.op.Update? && e.ch.before == s.ImageOf(o) && e.ch.after == s.ImageOf(n)
  }

  /** `gone` can be replaced by `come` in the table without breaking the key. */
  ghost predicate Fits(s: Schema, t: Table, gone: set<SqlRow>, come: set<SqlRow>) {
    && gone <= t && (forall r :: r in come ==> s.RowOk(r))
    && (forall r, q :: r in come && q in t - gone ==> !SameKey(s, r, q))
  }

  function Replaced(t: Table, gone: set<SqlRow>, come: set<SqlRow>): Table {
    t - gone + come
  }

  /** Every value the change replaced or left can be written back. */
  ghost predicate Faithful(s: Schema, a: Act) {
    forall r :: r in a.Gone() + a.Come() ==> s.Survives(r)
  }

  // ---- What the generated clauses mean ----

  lemma {:induction false} AssignedOn(s: Schema, r: SqlRow, cols: seq<string>, row: SqlRow)
    requires forall c :: c in cols ==> c in row && !DroppedCol(c)
    ensures
      var a := Assigned(s, r, AssignmentsOn(cols, s.ImageOf(row)));
      && a.Keys == r.Keys + (set c | c in cols)
      && (forall c :: c in a ==> a[c] == if c in cols then s.Back(c, row[c]) else r[c])
    decreases |cols|
  {
    hide Literal, DroppedCol, Schema.Meaning, Schema.Shown;
    if cols != [] {
      var front, col := cols[..|cols| - 1], cols[|cols| - 1];
      assert cols == front + [col];
      AssignedOn(s, r, front, row);
      var xs := AssignmentsOn(front, s.ImageOf(row));
      assert (xs + [Assign(col, Literal(s.ImageOf(row)[col]))])[..|xs|] == xs;
    }
  }

  /** Assigning every column of a row's image gives what comes back of it, whatever was there. */
  lemma AssignedAll(s: Schema, r: SqlRow, row: SqlRow)
    requires s.Valid() && r.Keys == s.cols && row.Keys == s.cols
    ensures Assigned(s, r, Assignments(s.ImageOf(row))) == s.BackRow(row)
  {
    hide Literal, DroppedCol, Sorted, Assigned, AssignmentsOn, Schema.Back, Schema.Shown, Schema.Sound;
    var image := s.ImageOf(row);
    SortedLists(image.Keys);
    AssignedOn(s, r, Sorted(image.Keys), row);
    assert r.Keys + (set c | c in Sorted(image.Keys)) == s.cols;
  }

  /** A key column's condition asks for what comes back of the value. */
  lemma CondAsks(s: Schema, r: SqlRow, c: string, row: SqlRow)
    requires c in row && c in r && r[c] != Nil
    ensures CondHolds(s, r, Condition(c, s.ImageOf(row))) <==> r[c] == s.Back(c, row[c])
  {
    hide Schema.Shown;
  }

  lemma {:induction false} MatchesOn(s: Schema, r: SqlRow, cols: seq<string>, row: SqlRow)
    requires forall c :: c in cols ==> c in row && !DroppedCol(c) && c in r && r[c] != Nil
    ensures Matches(s, r, ConditionsOn(cols, s.ImageOf(row))) <==> forall c :: c in cols ==> r[c] == s.Back(c, row[c])
    decreases |cols|
  {
    hide Condition, CondHolds, DroppedCol, Schema.Back, Schema.ImageOf;
    if cols != [] {
      var front, col := cols[..|cols| - 1], cols[|cols| - 1];
      assert cols == front + [col];
      MatchesOn(s, r, front, row);
      CondAsks(s, r, col, row);
      var cs := ConditionsOn(front, s.ImageOf(row));
      assert (cs + [Condition(col, s.ImageOf(row))])[..|cs|] == cs;
    }
  }

  /** The key conditions of a row's image hold of exactly the rows with the key that comes back. */
  lemma MatchesKey(s: Schema, r: SqlRow, row: SqlRow)
    requires s.Valid() && s.RowOk(r) && s.RowOk(row)
    ensures Matches(s, r, Conditions(s.pk, s.ImageOf(row))) <==> SameKey(s, r, s.BackRow(row))
  {
    hide DroppedCol, Schema.Back, Schema.Sound, Schema.Typed, Schema.ImageOf, Matches;
    MatchesOn(s, r, s.pk, row);
  }

  lemma KeySymmetric(s: Schema, r: SqlRow, q: SqlRow)
    ensures SameKey(s, r, q) <==> SameKey(s, q, r)
  {
  }

  lemma KeyTransitive(s: Schema, r: SqlRow, q: SqlRow, p: SqlRow)
    requires SameKey(s, r, q)
    ensures SameKey(s, r, p) <==> SameKey(s, q, p)
  {
  }

  lemma OwnKey(s: Schema, r: SqlRow)
    requires s.Valid() && s.RowOk(r)
    ensures SameKey(s, r, r) && !KeyIsNull(s, r)
  {
    hide Schema.Sound, Schema.Typed;
  }

  lemma KeyComesBack(s: Schema, r: SqlRow)
    requires s.Valid() && s.RowOk(r)
    ensures SameKey(s, r, s.BackRow(r)) <==> s.KeySurvives(r)
  {
    hide Schema.Sound, Schema.Typed, Schema.Back;
  }

  // ---- The three statements ----

  lemma InsertIff(s: Schema, target: Target, row: SqlRow, t: Table)
    requires s.Valid() && s.RowOk(row) && TableOk(s, t) && Fits(s, t, {}, {row})
    ensures Exec(s, InsertInto(target, Assignments(s.ImageOf(row))), t) == Some(t + {row}) <==> s.Survives(row)
  {
    hide Assignments, Schema.Sound, Schema.Typed, Schema.Back, Schema.ImageOf, SameKey, KeyIsNull, Assigned, DroppedCol;
    AssignedAll(s, Blanks(s), row);
    SurvivingRow(s, row);
    OwnKey(s, row);
    assert row !in t;
  }

  lemma DeleteIff(s: Schema, target: Target, row: SqlRow, t: Table)
    requires s.Valid() && TableOk(s, t) && row in t
    ensures Exec(s, DeleteFrom(target, Conditions(s.pk, s.ImageOf(row))), t) == Some(t - {row}) <==> s.KeySurvives(row)
  {
    hide Matches, Conditions, Schema.Valid, Schema.RowOk, Schema.KeySurvives, Schema.BackRow, Schema.ImageOf, SameKey;
    var back, where := s.BackRow(row), Conditions(s.pk, s.ImageOf(row));
    KeyComesBack(s, row);
    forall r | r in t ensures Matches(s, r, where) <==> SameKey(s, r, back) { MatchesKey(s, r, row); }
    var left := set r | r in t && !Matches(s, r, where);
    if SameKey(s, row, back) {
      forall r | r in t ensures SameKey(s, r, back) <==> r == row {
        KeySymmetric(s, r, back);
        KeySymmetric(s, row, back);
        KeyTransitive(s, back, row, r);
        KeySymmetric(s, r, row);
      }
      assert left == t - {row};
    } else {
      assert row in left;
    }
  }

  /** What an update keyed by one row's image and setting another's makes of each row. */
  lemma UpdateEffect(s: Schema, old_: SqlRow, new_: SqlRow, t: Table)
    requires s.Valid() && s.RowOk(old_) && s.RowOk(new_) && TableOk(s, t)
    ensures forall r :: r in t ==>
              Rewritten(s, r, Assignments(s.ImageOf(new_)), Conditions(s.pk, s.ImageOf(old_)))
              == if SameKey(s, r, s.BackRow(old_)) then s.BackRow(new_) else r
  {
    hide Matches, Conditions, Assignments, Assigned, Schema.Sound, Schema.Typed, Schema.Back, Schema.BackRow, SameKey;
    forall r | r in t
      ensures Rewritten(s, r, Assignments(s.ImageOf(new_)), Conditions(s.pk, s.ImageOf(old_)))
              == if SameKey(s, r, s.BackRow(old_)) then s.BackRow(new_) else r
    {
      MatchesKey(s, r, old_);
      AssignedAll(s, r, new_);
    }
  }

  /** An update that changes nothing, and hits at most a row that is already what it sets. */
  ghost predicate Harmless(s: Schema, t: Table, old_: SqlRow, new_: SqlRow) {
    old_ == new_ && forall q :: q in t && SameKey(s, q, s.BackRow(old_)) ==> q == s.BackRow(old_)
  }

  /** The rows the update hits: the one with the key that comes back, if any. */
  lemma HitsOne(s: Schema, t: Table, k: SqlRow, r: SqlRow, q: SqlRow)
    requires TableOk(s, t) && r in t && q in t && SameKey(s, r, k) && SameKey(s, q, k)
    ensures r == q
  {
    KeySymmetric(s, r, k);
    KeyTransitive(s, r, k, q);
    KeySymmetric(s, q, k);
    KeySymmetric(s, r, q);
    hide SameKey;
    assert SameKey(s, r, q);
  }

  lemma KeyOfSurviving(s: Schema, old_: SqlRow, r: SqlRow, t: Table)
    requires s.Valid() && TableOk(s, t) && old_ in t && s.KeySurvives(old_) && r in t
    ensures SameKey(s, r, s.BackRow(old_)) <==> r == old_
  {
    KeyComesBack(s, old_);
    hide Schema.Valid, Schema.KeySurvives, Schema.BackRow, Schema.RowOk;
    var k := s.BackRow(old_);
    if SameKey(s, r, k) { HitsOne(s, t, k, r, old_); }
  }

  /** The rewriting of a table in which one row is replaced. */
  lemma OneRewritten(t: Table, f: map<SqlRow, SqlRow>, row: SqlRow, row': SqlRow)
    requires row in t && f.Keys == t && forall r :: r in t ==> f[r] == if r == row then row' else r
    ensures (set r | r in t :: f[r]) == t - {row} + {row'}
  {
    var t' := set r | r in t :: f[r];
    assert f[row] in t';
    forall r | r in t - {row} ensures r in t' { assert f[r] == r; }
  }

  ghost function RewriteMap(s: Schema, t: Table, xs: seq<Assign>, where: seq<Cond>): map<SqlRow, SqlRow> {
    map r | r in t :: Rewritten(s, r, xs, where)
  }

  /** Executing an update, by its effect on each row. */
  lemma ExecByRows(s: Schema, target: Target, xs: seq<Assign>, where: seq<Cond>, t: Table)
    ensures
      var f := RewriteMap(s, t, xs, where);
      Exec(s, UpdateSet(target, xs, where), t)
      == if (exists r :: r in t && KeyIsNull(s, f[r]))
        || exists r, q :: r in t && q in t && r != q && SameKey(s, f[r], f[q])
         then None else Some(set r | r in t :: f[r])
  {
    hide Rewritten, KeyIsNull, SameKey;
    var f := RewriteMap(s, t, xs, where);
    assert (set r | r in t :: f[r]) == (set r | r in t :: Rewritten(s, r, xs, where));
    if r :| r in t && KeyIsNull(s, Rewritten(s, r, xs, where)) { assert KeyIsNull(s, f[r]); }
    if r, q :| r in t && q in t && r != q && SameKey(s, Rewritten(s, r, xs, where), Rewritten(s, q, xs, where)) {
      assert SameKey(s, f[r], f[q]);
    }
  }

  /** The row whose key survives is replaced by what comes back of the other. */
  lemma UpdateReplaces(s: Schema, target: Target, old_: SqlRow, new_: SqlRow, t: Table)
    requires s.Valid() && s.RowOk(old_) && s.RowOk(new_) && TableOk(s, t) && Fits(s, t, {old_}, {new_})
    requires s.KeySurvives(old_) && s.Survives(new_)
    ensures Exec(s, UpdateSet(target, Assignments(s.ImageOf(new_)), Conditions(s.pk, s.ImageOf(old_))), t)
            == Some(t - {old_} + {new_})
  {
    hide Conditions, Assignments, Rewritten, Schema.Valid, Schema.RowOk, Schema.Survives, Schema.KeySurvives, SameKey,
         Exec, KeyIsNull, Schema.ImageOf, Schema.BackRow;
    var xs, where := Assignments(s.ImageOf(new_)), Conditions(s.pk, s.ImageOf(old_));
    var f := RewriteMap(s, t, xs, where);
    UpdateEffect(s, old_, new_, t);
    SurvivingRow(s, new_);
    assert old_ in t;
    forall r | r in t ensures f[r] == if r == old_ then new_ else r { KeyOfSurviving(s, old_, r, t); }
    OneRewritten(t, f, old_, new_);
    forall r | r in t ensures !KeyIsNull(s, f[r]) { OwnKey(s, r); OwnKey(s, new_); }
    forall r, q | r in t && q in t && r != q ensures !SameKey(s, f[r], f[q]) {
      KeySymmetric(s, f[r], f[q]);
    }
    ExecByRows(s, target, xs, where, t);
  }

  lemma UpdateLeaves(s: Schema, target: Target, row: SqlRow, t: Table)
    requires s.Valid() && s.RowOk(row) && TableOk(s, t) && row in t && Harmless(s, t, row, row)
    ensures Exec(s, UpdateSet(target, Assignments(s.ImageOf(row)), Conditions(s.pk, s.ImageOf(row))), t) == Some(t)
  {
    hide Conditions, Assignments, Rewritten, Schema.Valid, Schema.RowOk, SameKey, Exec, KeyIsNull, Schema.ImageOf,
         Schema.BackRow;
    var xs, where := Assignments(s.ImageOf(row)), Conditions(s.pk, s.ImageOf(row));
    var f := RewriteMap(s, t, xs, where);
    UpdateEffect(s, row, row, t);
    forall r | r in t ensures f[r] == r && !KeyIsNull(s, f[r]) { OwnKey(s, r); }
    OneRewritten(t, f, row, row);
    ExecByRows(s, target, xs, where, t);
    assert t - {row} + {row} == t;
  }

  lemma UpdateDemands(s: Schema, target: Target, old_: SqlRow, new_: SqlRow, t: Table)
    requires s.Valid() && s.RowOk(old_) && s.RowOk(new_) && TableOk(s, t) && Fits(s, t, {old_}, {new_})
    requires Exec(s, UpdateSet(target, Assignments(s.ImageOf(new_)), Conditions(s.pk, s.ImageOf(old_))), t)
             == Some(t - {old_} + {new_})
    ensures (s.KeySurvives(old_) && s.Survives(new_)) || Harmless(s, t, old_, new_)
  {
    hide Conditions, Assignments, Rewritten, Schema.Valid, Schema.RowOk, Schema.Survives, Schema.KeySurvives, SameKey,
         Exec, KeyIsNull, Schema.ImageOf, Schema.BackRow;
    var xs, where := Assignments(s.ImageOf(new_)), Conditions(s.pk, s.ImageOf(old_));
    var f := RewriteMap(s, t, xs, where);
    var back, put := s.BackRow(old_), s.BackRow(new_);
    ExecByRows(s, target, xs, where, t);
    UpdateEffect(s, old_, new_, t);
    var t' := set r | r in t :: f[r];
    assert t' == t - {old_} + {new_};
    assert old_ in t;
    if s.KeySurvives(old_) {
      forall r | r in t ensures f[r] == if r == old_ then put else r { KeyOfSurviving(s, old_, r, t); }
      OneRewritten(t, f, old_, put);
      OwnKey(s, new_);
      assert new_ in t' && new_ !in t - {old_};
      SurvivingRow(s, new_);
    } else {
      KeyComesBack(s, old_);
      assert f[old_] == old_ && old_ in t';
      forall q | q in t && SameKey(s, q, back) ensures q == back {
        assert q in t';
        var p :| p in t && f[p] == q;
        assert f[q] == put;
      }
    }
  }

  /** An update puts the new row in the old one's place exactly when the old key and the new row come
      back, or when nothing was to change and nothing does. */
  lemma UpdateIff(s: Schema, target: Target, old_: SqlRow, new_: SqlRow, t: Table)
    requires s.Valid() && s.RowOk(old_) && s.RowOk(new_) && TableOk(s, t) && Fits(s, t, {old_}, {new_})
    ensures Exec(s, UpdateSet(target, Assignments(s.ImageOf(new_)), Conditions(s.pk, s.ImageOf(old_))), t)
            == Some(t - {old_} + {new_})
            <==> (s.KeySurvives(old_) && s.Survives(new_)) || Harmless(s, t, old_, new_)
  {
    hide Conditions, Assignments, Schema.Valid, Schema.RowOk, Schema.Survives, Schema.KeySurvives, Exec, Schema.ImageOf;
    if s.KeySurvives(old_) && s.Survives(new_) {
      UpdateReplaces(s, target, old_, new_, t);
    } else if Harmless(s, t, old_, new_) {
      UpdateLeaves(s, target, old_, t);
      assert t - {old_} + {new_} == t;
    }
    if Exec(s, UpdateSet(target, Assignments(s.ImageOf(new_)), Conditions(s.pk, s.ImageOf(old_))), t)
       == Some(t - {old_} + {new_}) {
      UpdateDemands(s, target, old_, new_, t);
    }
  }

  // ---- Undo and redo ----

  lemma SomeCondition(cols: seq<string>, vals: Row)
    requires cols != [] && forall c :: c in cols ==> !DroppedCol(c)
    ensures ConditionsOn(cols, vals) != []
  {
  }

  /** The statements of a change with full images. */
  lemma SomeClauses(s: Schema, row: SqlRow)
    requires s.Valid() && s.RowOk(row)
    ensures s.ImageOf(row) != map[] && Assignments(s.ImageOf(row)) != [] && Conditions(s.pk, s.ImageOf(row)) != []
  {
    hide DroppedCol, Literal, Sorted, Schema.Shown, Schema.Sound, Schema.Typed;
    var image := s.ImageOf(row);
    SortedLists(image.Keys);
    assert s.pk[0] in s.pk && s.pk[0] in image.Keys;
    assert s.pk[0] in Sorted(image.Keys);
    SomeCondition(s.pk, image);
  }

  /** A redo does what the change did exactly when the values it writes and compares come back. */
  ghost predicate RedoWorks(s: Schema, a: Act, t: Table) {
    match a
    case Ins(r) => s.Survives(r)
    case Del(r) => s.KeySurvives(r)
    case Upd(o, n) => (s.KeySurvives(o) && s.Survives(n)) || Harmless(s, t, o, n)
  }

  ghost predicate UndoWorks(s: Schema, a: Act, t: Table) {
    match a
    case Ins(r) => s.KeySurvives(r)
    case Del(r) => s.Survives(r)
    case Upd(o, n) => (s.KeySurvives(n) && s.Survives(o)) || Harmless(s, t, n, o)
  }

  lemma RedoIff(s: Schema, e: Entry, t: Table)
    requires Logged(s, e) && TableOk(s, t) && Fits(s, t, e.act.Gone(), e.act.Come())
    ensures Exec(s, Redo(e.ch), t) == Some(Replaced(t, e.act.Gone(), e.act.Come())) <==> RedoWorks(s, e.act, t)
  {
    hide Exec, Assignments, Conditions, Schema.Valid, Schema.RowOk, Schema.Survives, Schema.KeySurvives, Harmless,
         Schema.ImageOf, TargetOf, TableOk;
    var target := TargetOf(e.ch);
    match e.act {
      case Ins(r) =>
        assert r in e.act.Come();
        SomeClauses(s, r);
        assert t - {} + {r} == t + {r};
        InsertIff(s, target, r, t);
      case Del(r) =>
        assert r in e.act.Gone();
        SomeClauses(s, r);
        assert t - {r} + {} == t - {r};
        DeleteIff(s, target, r, t);
      case Upd(o, n) =>
        assert o in e.act.Gone() && n in e.act.Come();
        SomeClauses(s, o);
        SomeClauses(s, n);
        UpdateIff(s, target, o, n, t);
    }
  }

  lemma UndoIff(s: Schema, e: Entry, t: Table)
    requires Logged(s, e) && TableOk(s, t) && Fits(s, t, e.act.Come(), e.act.Gone())
    ensures Exec(s, Undo(e.ch), t) == Some(Replaced(t, e.act.Come(), e.act.Gone())) <==> UndoWorks(s, e.act, t)
  {
    hide Exec, Assignments, Conditions, Schema.Valid, Schema.RowOk, Schema.Survives, Schema.KeySurvives, Harmless,
         Schema.ImageOf, TargetOf, TableOk;
    var target := TargetOf(e.ch);
    match e.act {
      case Ins(r) =>
        assert r in e.act.Come();
        SomeClauses(s, r);
        assert t - {r} + {} == t - {r};
        DeleteIff(s, target, r, t);
      case Del(r) =>
        assert r in e.act.Gone();
        SomeClauses(s, r);
        assert t - {} + {r} == t + {r};
        InsertIff(s, target, r, t);
      case Upd(o, n) =>
        assert o in e.act.Gone() && n in e.act.Come();
        SomeClauses(s, o);
        SomeClauses(s, n);
        UpdateIff(s, target, n, o, t);
    }
  }

  ghost predicate AtMostOne(rows: set<SqlRow>) {
    forall r, q :: r in rows && q in rows ==> r == q
  }

  lemma OneRowEach(a: Act)
    ensures AtMostOne(a.Gone()) && AtMostOne(a.Come())
  {
  }

  /** A replacement that fits can be taken back. */
  lemma TakenBack(s: Schema, t: Table, gone: set<SqlRow>, come: set<SqlRow>)
    requires s.Valid() && TableOk(s, t) && Fits(s, t, gone, come) && AtMostOne(come)
    ensures
      var t' := Replaced(t, gone, come);
      && TableOk(s, t') && Fits(s, t', come, gone) && Replaced(t', come, gone) == t
  {
    hide SameKey, Schema.RowOk, Schema.Valid;
    var t' := Replaced(t, gone, come);
    forall r | r in come
      ensures r !in t - gone
    {
      OwnKey(s, r);
    }
    assert t' - come == t - gone;
    forall r, q | r in t' && q in t' && SameKey(s, r, q)
      ensures r == q
    {
      KeySymmetric(s, r, q);
    }
    forall r, q | r in gone && q in t' - come
      ensures !SameKey(s, r, q)
    {
      KeySymmetric(s, r, q);
    }
  }

  lemma FaithfulSides(s: Schema, a: Act)
    ensures Faithful(s, a) <==> match a
                                case Ins(r) => s.Survives(r)
                                case Del(r) => s.Survives(r)
                                case Upd(o, n) => s.Survives(o) && s.Survives(n)
    ensures Faithful(s, a) ==> forall t :: RedoWorks(s, a, t) && UndoWorks(s, a, t)
  {
    hide Schema.Survives, Schema.KeySurvives, Harmless;
    match a
    case Ins(r) => SurvivingRow(s, r); assert r in a.Gone() + a.Come();
    case Del(r) => SurvivingRow(s, r); assert r in a.Gone() + a.Come();
    case Upd(o, n) =>
      SurvivingRow(s, o);
      SurvivingRow(s, n);
      assert o in a.Gone() + a.Come() && n in a.Gone() + a.Come();
  }

  /** Redo gives the table after the change and undo the one before, for every applicable change of a
      table with a primary key, key-changing updates included, exactly when all values of the rows
      replaced and left come back; the one other way is an update that changes nothing and hits nothing. */
  lemma UndoInvertsIff(s: Schema, e: Entry, t: Table)
    requires Logged(s, e) && TableOk(s, t) && Fits(s, t, e.act.Gone(), e.act.Come())
    ensures
      var t' := Replaced(t, e.act.Gone(), e.act.Come());
      TableOk(s, t')
      && (Exec(s, Redo(e.ch), t) == Some(t') && Exec(s, Undo(e.ch), t') == Some(t)
          <==> Faithful(s, e.act) || (e.act.Upd? && Harmless(s, t, e.act.old_, e.act.new_)))
  {
    hide Exec, TableOk, Fits, Replaced, Undo, Redo, AtMostOne, Schema.Valid, Schema.Survives, Schema.KeySurvives,
         Faithful, SameKey;
    var a := e.act;
    var t' := Replaced(t, a.Gone(), a.Come());
    RedoIff(s, e, t);
    OneRowEach(a);
    TakenBack(s, t, a.Gone(), a.Come());
    UndoIff(s, e, t');
    FaithfulSides(s, a);
    match a
    case Ins(r) => SurvivingRow(s, r);
    case Del(r) => SurvivingRow(s, r);
    case Upd(o, n) => SurvivingRow(s, o); SurvivingRow(s, n); SameTable(s, t, o, n);
  }

  lemma SameTable(s: Schema, t: Table, o: SqlRow, n: SqlRow)
    requires Fits(s, t, {o}, {n})
    ensures Replaced(t, {o}, {o}) == t
  {
  }

  /** The condition on what is stored: no text is a null word or marker, or marked as an expression other
      than one that computes it. */
  lemma FaithfulIff(s: Schema, e: Entry)
    requires Logged(s, e)
    ensures Faithful(s, e.act) <==> forall r, c :: r in e.act.Gone() + e.act.Come() && c in r ==> s.Writable(c, r[c])
  {
    hide Schema.Survives, Schema.Writable, Schema.RowOk, Schema.ImageOf;
    var rows := e.act.Gone() + e.act.Come();
    forall r | r in rows
      ensures s.Survives(r) <==> forall c :: c in r ==> s.Writable(c, r[c])
    {
      RowComesBackIff(s, r);
    }
  }

  // ---- A text that is lost ----

  /** A system whose tables hold text only. */
  const TEXTS_ONLY := System("\\N", (_, _) => "", (_, _) => Nil, (_, _) => Nil)

  const NOTES := Schema({"id", "v"}, {"id", "v"}, ["id"], TEXTS_ONLY)

  function Note(id: string, v: string): SqlRow {
    map["id" := Str(id), "v" := Str(v)]
  }

  lemma NotesAreValid()
    ensures NOTES.Valid()
  {
    assert forall c :: c in {"id", "v"} ==> |c| <= 2;
    assert !DroppedCol("id") by { ShortName("id"); }
    assert !DroppedCol("v") by { ShortName("v"); }
  }

  lemma {:induction false} ShortName(c: string)
    requires |c| <= 2
    ensures !DroppedCol(c)
    decreases |c|
  {
    if c != [] { ShortName(c[1..]); }
  }

  function Edited(before: SqlRow, after: SqlRow): Entry {
    Entry(Change(0, 0, None, "", "notes", Update, NOTES.ImageOf(before), NOTES.ImageOf(after), ["id"], false,
                 0, 0, 0, 0, "", "", "", false), Upd(before, after))
  }

  lemma EditedIsLogged(before: SqlRow, after: SqlRow)
    requires NOTES.RowOk(before) && NOTES.RowOk(after)
    ensures Logged(NOTES, Edited(before, after))
  {
    NotesAreValid();
    hide Schema.Valid, Schema.RowOk;
  }

  lemma NoteIsRow(id: string, v: string)
    ensures NOTES.RowOk(Note(id, v))
    ensures NOTES.Survives(Note(id, v)) <==> !Reserved(id) && !Reserved(v)
  {
    hide FoldsToNull;
    var r := Note(id, v);
    assert r.Keys == {"id", "v"};
    assert NOTES.Survives(r) <==> NOTES.Back("id", Str(id)) == Str(id) && NOTES.Back("v", Str(v)) == Str(v) by {
      assert r["id"] == Str(id) && r["v"] == Str(v);
    }
    NilOrRaw(id);
    NilOrRaw(v);
  }

  /** A column that holds the word null: undoing an edit of it does not bring the word back. */
  lemma NullWordIsLost()
    ensures
      var was, now := Note("1", "null"), Note("1", "x");
      var e := Edited(was, now);
      Logged(NOTES, e) && Fits(NOTES, {was}, {was}, {now}) && Exec(NOTES, Undo(e.ch), {now}) != Some({was})
  {
    hide Exec, Undo, Schema.Survives, Schema.RowOk, SameKey;
    var was, now := Note("1", "null"), Note("1", "x");
    var e := Edited(was, now);
    NoteIsRow("1", "null");
    NoteIsRow("1", "x");
    EditedIsLogged(was, now);
    OneRowTable(NOTES, was);
    OneRowTable(NOTES, now);
    UndoIff(NOTES, e, {now});
    assert was["v"] != now["v"];
    assert {now} - {now} + {was} == {was};
  }

  lemma OneRowTable(s: Schema, r: SqlRow)
    requires s.RowOk(r)
    ensures TableOk(s, {r})
  {
  }
}
