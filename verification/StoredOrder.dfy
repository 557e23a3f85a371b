/** Undoing a run in the order its statements are stored, oldest first: exactly when that restores the
    table, for runs that never change a key (flashback_run.go:235-261). */
module StoredOrder {
  import opened Options
  import opened Sql
  import opened Values
  import opened UndoRedo
  import opened UndoRuns

  // ---- The history of one key ----

  /** What undoing leaves of a key's row; nothing comes of an insert where a row is. */
  datatype Outcome = Refused | Now(row: Option<SqlRow>)

  function UndoneAt(a: Act, x: Option<SqlRow>): Outcome {
    match a
    case Ins(_) => Now(None)
    case Del(r) => if x.Some? then Refused else Now(Some(r))
    case Upd(o, _) => Now(if x.Some? then Some(o) else None)
  }

  /** Undoing a key's changes oldest first, starting with row `x`. */
  function UndoneAll(acts: seq<Act>, x: Option<SqlRow>): Outcome
    decreases |acts|
  {
    if acts == [] then Now(x)
    else
      var o := UndoneAt(acts[0], x);
      if o.Refused? then Refused else UndoneAll(acts[1..], o.row)
  }

  function After(a: Act): Option<SqlRow> {
    match a
    case Ins(r) => Some(r)
    case Del(_) => None
    case Upd(_, n) => Some(n)
  }

  function Before(a: Act): Option<SqlRow> {
    match a
    case Ins(_) => None
    case Del(r) => Some(r)
    case Upd(o, _) => Some(o)
  }

  /** The changes follow each other from row `x`. */
  predicate Follow(acts: seq<Act>, x: Option<SqlRow>)
    decreases |acts|
  {
    acts == [] || (Before(acts[0]) == x && Follow(acts[1..], After(acts[0])))
  }

  function Left(acts: seq<Act>, x: Option<SqlRow>): Option<SqlRow> {
    if acts == [] then x else After(acts[|acts| - 1])
  }

  /** The inserts and deletes among a key's changes. */
  function Switches(acts: seq<Act>): seq<Act> {
    if acts == [] then [] else (if acts[0].Upd? then [] else [acts[0]]) + Switches(acts[1..])
  }

  /** Undoing a key's changes oldest first comes back to where they began: updates alone, if the last one
      began where the first did; with inserts and deletes, if the last of them is of the first one's
      kind, and for deletes if the last deleted the row that was there at the beginning. */
  predicate Retraced(acts: seq<Act>) {
    acts == []
    || var moves := Switches(acts);
       if moves == [] then Before(acts[|acts| - 1]) == Before(acts[0])
       else if moves[0].Ins? then moves[|moves| - 1].Ins?
       else moves[|moves| - 1].Del? && Before(moves[|moves| - 1]) == Before(acts[0])
  }

  lemma {:induction false} SwitchKinds(acts: seq<Act>)
    ensures forall i :: 0 <= i < |Switches(acts)| ==> !Switches(acts)[i].Upd?
  {
    if acts != [] { SwitchKinds(acts[1..]); }
  }

  /** What undoing oldest first comes to: updates leave the last one's old row, and after inserts and
      deletes only the last of them matters. */
  lemma {:induction false} UndoneIs(acts: seq<Act>, x0: Option<SqlRow>, x: Option<SqlRow>)
    requires Follow(acts, x0)
    ensures var moves := Switches(acts);
            UndoneAll(acts, x)
            == if moves == [] then Now(if x.Some? && acts != [] then Before(acts[|acts| - 1]) else x)
               else if moves[0].Del? && x.Some? then Refused
               else Now(Before(moves[|moves| - 1]))
    decreases |acts|
  {
    if acts != [] {
      var a, rest := acts[0], acts[1..];
      var o := UndoneAt(a, x);
      assert rest != [] ==> rest[|rest| - 1] == acts[|acts| - 1];
      SwitchKinds(acts);
      SwitchKinds(rest);
      FirstSwitch(rest, After(a));
      if o.Now? { UndoneIs(rest, After(a), o.row); }
    }
  }

  /** Where a row is, the first insert or delete is a delete; where none is, it comes first, an insert. */
  lemma {:induction false} FirstSwitch(acts: seq<Act>, x: Option<SqlRow>)
    requires Follow(acts, x)
    ensures var moves := Switches(acts);
            if x.Some? then moves == [] || moves[0].Del?
            else acts == [] || (moves != [] && moves[0].Ins? && acts[0].Ins?)
    decreases |acts|
  {
    if acts != [] && acts[0].Upd? { FirstSwitch(acts[1..], After(acts[0])); }
  }

  lemma {:induction false} LeftIs(acts: seq<Act>, x: Option<SqlRow>)
    requires Follow(acts, x)
    ensures var moves := Switches(acts);
            Left(acts, x).Some? <==> if moves == [] then x.Some? else moves[|moves| - 1].Ins?
    decreases |acts|
  {
    hide Follow;
    if acts != [] { FollowOn(acts, x); }
    if acts != [] {
      var rest := acts[1..];
      LeftIs(rest, After(acts[0]));
      LastSwitch(acts[0], Switches(rest));
      assert rest != [] ==> rest[|rest| - 1] == acts[|acts| - 1];
    }
  }

  lemma FollowOn(acts: seq<Act>, x: Option<SqlRow>)
    requires acts != [] && Follow(acts, x)
    ensures Before(acts[0]) == x && Follow(acts[1..], After(acts[0]))
  {
  }

  lemma LastSwitch(a: Act, moves: seq<Act>)
    ensures moves != [] ==> ([] + moves)[|moves| - 1] == ([a] + moves)[|moves|] == moves[|moves| - 1]
  {
  }

  /** For every key's history. */
  lemma RetracedIff(acts: seq<Act>, x0: Option<SqlRow>)
    requires Follow(acts, x0)
    ensures UndoneAll(acts, Left(acts, x0)) == Now(x0) <==> Retraced(acts)
  {
    hide UndoneAll;
    UndoneIs(acts, x0, Left(acts, x0));
    LeftIs(acts, x0);
    FirstSwitch(acts, x0);
    SwitchKinds(acts);
  }

  // ---- Tables by key ----

  type Key = map<string, Value>

  function KeyOf(s: Schema, r: SqlRow): Key {
    map c | c in s.pk && c in r :: r[c]
  }

  lemma KeysAgree(s: Schema, r: SqlRow, q: SqlRow)
    requires s.Valid() && s.RowOk(r) && s.RowOk(q)
    ensures SameKey(s, r, q) <==> KeyOf(s, r) == KeyOf(s, q)
  {
    hide Schema.Sound, Schema.Typed;
    if KeyOf(s, r) == KeyOf(s, q) {
      forall c | c in s.pk ensures c in r && c in q && r[c] == q[c] { assert c in KeyOf(s, r) && c in KeyOf(s, q); }
    }
  }

  /** The row with a key. */
  ghost function At(s: Schema, t: Table, k: Key): (x: Option<SqlRow>)
    ensures x.Some? ==> x.value in t && KeyOf(s, x.value) == k
    ensures x.None? ==> forall r :: r in t ==> KeyOf(s, r) != k
  {
    if r :| r in t && KeyOf(s, r) == k then Some(r) else None
  }

  lemma AtIs(s: Schema, t: Table, r: SqlRow)
    requires s.Valid() && TableOk(s, t) && r in t
    ensures At(s, t, KeyOf(s, r)) == Some(r)
  {
    var x := At(s, t, KeyOf(s, r));
    KeysAgree(s, x.value, r);
  }

  /** The table with `x` as the row of a key. */
  ghost function With(s: Schema, t: Table, k: Key, x: Option<SqlRow>): Table {
    (set r | r in t && KeyOf(s, r) != k) + if x.Some? then {x.value} else {}
  }

  lemma WithIs(s: Schema, t: Table, k: Key, x: Option<SqlRow>)
    requires s.Valid() && TableOk(s, t) && (x.Some? ==> s.RowOk(x.value) && KeyOf(s, x.value) == k)
    ensures TableOk(s, With(s, t, k, x))
    ensures forall j :: At(s, With(s, t, k, x), j) == if j == k then x else At(s, t, j)
  {
    hide Schema.RowOk, Schema.Valid, SameKey, KeyOf;
    var u := With(s, t, k, x);
    forall r, q | r in u && q in u && SameKey(s, r, q) ensures r == q { KeysAgree(s, r, q); }
    forall j ensures At(s, u, j) == if j == k then x else At(s, t, j) {
      if j == k {
        if x.Some? { AtIs(s, u, x.value); }
      } else if At(s, t, j).Some? {
        AtIs(s, u, At(s, t, j).value);
      }
    }
  }

  lemma SameRows(s: Schema, t: Table, u: Table)
    requires s.Valid() && TableOk(s, t) && TableOk(s, u) && forall k :: At(s, t, k) == At(s, u, k)
    ensures t == u
  {
    hide Schema.Valid, SameKey, KeyOf, At;
    forall r | r in t ensures r in u { AtIs(s, t, r); InTable(s, u, KeyOf(s, r)); }
    forall r | r in u ensures r in t { AtIs(s, u, r); InTable(s, t, KeyOf(s, r)); }
  }

  lemma InTable(s: Schema, t: Table, k: Key)
    ensures At(s, t, k).Some? ==> At(s, t, k).value in t
  {
  }

  // ---- One change ----

  /** A change that leaves its row's key alone. */
  ghost predicate KeepsKey(s: Schema, a: Act) {
    a.Upd? ==> SameKey(s, a.old_, a.new_)
  }

  function ActKey(s: Schema, a: Act): Key {
    match a
    case Ins(r) => KeyOf(s, r)
    case Del(r) => KeyOf(s, r)
    case Upd(o, _) => KeyOf(s, o)
  }

  lemma DeletesKey(s: Schema, target: Target, row: SqlRow, t: Table)
    requires s.Valid() && TableOk(s, t) && s.RowOk(row) && s.Survives(row)
    ensures Exec(s, DeleteFrom(target, Conditions(s.pk, s.ImageOf(row))), t) == Some(With(s, t, KeyOf(s, row), None))
  {
    hide Matches, Conditions, Schema.Valid, Schema.RowOk, Schema.Survives, Schema.BackRow, Schema.ImageOf, SameKey,
         KeyOf;
    SurvivingRow(s, row);
    var where := Conditions(s.pk, s.ImageOf(row));
    forall r | r in t ensures Matches(s, r, where) <==> KeyOf(s, r) == KeyOf(s, row) {
      MatchesKey(s, r, row);
      KeysAgree(s, r, row);
    }
    assert (set r | r in t && !Matches(s, r, where)) == With(s, t, KeyOf(s, row), None);
  }

  lemma InsertsKey(s: Schema, target: Target, row: SqlRow, t: Table)
    requires s.Valid() && TableOk(s, t) && s.RowOk(row) && s.Survives(row)
    ensures Exec(s, InsertInto(target, Assignments(s.ImageOf(row))), t)
            == if At(s, t, KeyOf(s, row)).Some? then None else Some(With(s, t, KeyOf(s, row), Some(row)))
  {
    hide Assignments, Schema.Valid, Schema.Survives, Schema.BackRow, Schema.ImageOf, SameKey, KeyIsNull, Assigned,
         KeyOf, At;
    SurvivingRow(s, row);
    OwnKey(s, row);
    AssignedAll(s, Blanks(s), row);
    var k := KeyOf(s, row);
    forall q | q in t ensures SameKey(s, row, q) <==> KeyOf(s, q) == k { KeysAgree(s, row, q); }
    if At(s, t, k).Some? {
      KeyAt(s, t, k);
    } else {
      NoKeyAt(s, t, k);
      assert (set r | r in t && KeyOf(s, r) != k) == t;
    }
  }

  lemma KeyAt(s: Schema, t: Table, k: Key)
    requires At(s, t, k).Some?
    ensures At(s, t, k).value in t && KeyOf(s, At(s, t, k).value) == k
  {
  }

  lemma NoKeyAt(s: Schema, t: Table, k: Key)
    requires At(s, t, k).None?
    ensures forall r :: r in t ==> KeyOf(s, r) != k
  {
  }

  /** An update from one row's key to another row's values, both with the key `k`. */
  lemma UpdatesKey(s: Schema, target: Target, from: SqlRow, to: SqlRow, t: Table)
    requires s.Valid() && TableOk(s, t) && s.RowOk(from) && s.RowOk(to) && s.Survives(from) && s.Survives(to)
    requires SameKey(s, from, to)
    ensures Exec(s, UpdateSet(target, Assignments(s.ImageOf(to)), Conditions(s.pk, s.ImageOf(from))), t)
            == Some(if At(s, t, KeyOf(s, to)).Some? then With(s, t, KeyOf(s, to), Some(to)) else t)
  {
    hide Conditions, Assignments, Rewritten, Schema.Valid, Schema.RowOk, Schema.Survives, SameKey, Exec, KeyIsNull,
         Schema.ImageOf, Schema.BackRow, KeyOf, At;
    var xs, where := Assignments(s.ImageOf(to)), Conditions(s.pk, s.ImageOf(from));
    var f, k := RewriteMap(s, t, xs, where), KeyOf(s, to);
    SurvivingRow(s, from);
    SurvivingRow(s, to);
    UpdateEffect(s, from, to, t);
    KeysAgree(s, from, to);
    forall r | r in t ensures f[r] == (if KeyOf(s, r) == k then to else r) && !KeyIsNull(s, f[r]) {
      KeysAgree(s, r, from);
      OwnKey(s, r);
      OwnKey(s, to);
    }
    forall r, q | r in t && q in t && r != q ensures !SameKey(s, f[r], f[q]) {
      KeysAgree(s, r, q);
      KeysAgree(s, f[r], f[q]);
    }
    ExecByRows(s, target, xs, where, t);
    if At(s, t, k).Some? {
      KeyAt(s, t, k);
      RewrittenAt(s, t, f, k, to);
    } else {
      NoKeyAt(s, t, k);
      assert (set r | r in t :: f[r]) == t by { Unchanged(t, f); }
    }
  }

  lemma Unchanged(t: Table, f: map<SqlRow, SqlRow>)
    requires f.Keys == t && forall r :: r in t ==> f[r] == r
    ensures (set r | r in t :: f[r]) == t
  {
    forall r | r in t ensures r in (set q | q in t :: f[q]) { assert f[r] == r; }
  }

  lemma RewrittenAt(s: Schema, t: Table, f: map<SqlRow, SqlRow>, k: Key, to: SqlRow)
    requires f.Keys == t && (forall r :: r in t ==> f[r] == if KeyOf(s, r) == k then to else r)
    requires exists r :: r in t && KeyOf(s, r) == k
    ensures (set r | r in t :: f[r]) == With(s, t, k, Some(to))
  {
    hide KeyOf;
    var u := set r | r in t :: f[r];
    var q :| q in t && KeyOf(s, q) == k;
    assert f[q] in u;
    forall r | r in t && KeyOf(s, r) != k ensures r in u { assert f[r] == r; }
  }

  /** Undoing one change of any table: its key's row becomes what undoing makes of it, or the statement fails. */
  lemma UndoAtKey(s: Schema, e: Entry, t: Table)
    requires Logged(s, e) && TableOk(s, t) && Faithful(s, e.act) && KeepsKey(s, e.act)
    ensures var k := ActKey(s, e.act);
            var o := UndoneAt(e.act, At(s, t, k));
            Exec(s, Undo(e.ch), t)
            == if o.Refused? then None
               else Some(if e.act.Upd? && At(s, t, k).None? then t else With(s, t, k, o.row))
  {
    hide Exec, Assignments, Conditions, Schema.Valid, Schema.RowOk, Schema.Survives, Schema.ImageOf, TargetOf, TableOk,
         With, At, KeyOf, SameKey;
    var target := TargetOf(e.ch);
    FaithfulSides(s, e.act);
    match e.act {
      case Ins(r) =>
        assert r in e.act.Come();
        SomeClauses(s, r);
        DeletesKey(s, target, r, t);
      case Del(r) =>
        assert r in e.act.Gone();
        SomeClauses(s, r);
        InsertsKey(s, target, r, t);
      case Upd(o, n) =>
        assert o in e.act.Gone() && n in e.act.Come();
        SomeClauses(s, o);
        SomeClauses(s, n);
        KeySymmetric(s, o, n);
        UpdatesKey(s, target, n, o, t);
    }
  }

  /** The row undoing puts back has the change's key. */
  lemma UndoneRow(s: Schema, e: Entry, x: Option<SqlRow>)
    requires Logged(s, e)
    ensures var o := UndoneAt(e.act, x);
            o.Now? && o.row.Some? ==> s.RowOk(o.row.value) && KeyOf(s, o.row.value) == ActKey(s, e.act)
  {
    hide Schema.RowOk, Schema.Valid, Schema.ImageOf, KeyOf;
    match e.act
    case Ins(_) =>
    case Del(r) => assert r in e.act.Gone();
    case Upd(o, _) => assert o in e.act.Gone();
  }

  lemma UndoStep(s: Schema, e: Entry, t: Table)
    requires Logged(s, e) && TableOk(s, t) && Faithful(s, e.act) && KeepsKey(s, e.act)
    ensures var k := ActKey(s, e.act);
            var o, u := UndoneAt(e.act, At(s, t, k)), Exec(s, Undo(e.ch), t);
            if o.Refused? then u.None?
            else
              && u.Some? && TableOk(s, u.value)
              && forall j :: At(s, u.value, j) == if j == k then o.row else At(s, t, j)
  {
    hide Exec, Schema.Valid, Schema.RowOk, TableOk, With, At, KeyOf, SameKey, Undo, ActKey, Logged, Faithful;
    var k := ActKey(s, e.act);
    UndoAtKey(s, e, t);
    UndoneRow(s, e, At(s, t, k));
    LoggedValid(s, e);
    var o := UndoneAt(e.act, At(s, t, k));
    if o.Now? { WithIs(s, t, k, o.row); }
  }

  // ---- Whole runs ----

  /** The changes of one key, in order. */
  function OnKey(s: Schema, es: seq<Entry>, k: Key): seq<Act> {
    if es == [] then []
    else (if ActKey(s, es[0].act) == k then [es[0].act] else []) + OnKey(s, es[1..], k)
  }

  ghost predicate AllKeepKeys(s: Schema, es: seq<Entry>) {
    forall i :: 0 <= i < |es| ==> KeepsKey(s, es[i].act)
  }

  ghost predicate AllLogged(s: Schema, es: seq<Entry>) {
    forall i :: 0 <= i < |es| ==> Logged(s, es[i])
  }

  lemma OnKeyStep(s: Schema, es: seq<Entry>, k: Key, x: Option<SqlRow>)
    requires es != []
    ensures var a := es[0].act;
            UndoneAll(OnKey(s, es, k), x)
            == if ActKey(s, a) != k then UndoneAll(OnKey(s, es[1..], k), x)
               else if UndoneAt(a, x).Refused? then Refused
               else UndoneAll(OnKey(s, es[1..], k), UndoneAt(a, x).row)
    ensures Follow(OnKey(s, es, k), x)
            == if ActKey(s, es[0].act) != k then Follow(OnKey(s, es[1..], k), x)
               else Before(es[0].act) == x && Follow(OnKey(s, es[1..], k), After(es[0].act))
    ensures Left(OnKey(s, es, k), x)
            == Left(OnKey(s, es[1..], k), if ActKey(s, es[0].act) == k then After(es[0].act) else x)
  {
    hide UndoneAt, ActKey, After, Before;
    var rest := OnKey(s, es[1..], k);
    assert ([es[0].act] + rest)[1..] == rest;
    assert [] + rest == rest;
  }

  /** Undoing in stored order, key by key: it fails if some key's undoing is refused, and otherwise each
      key ends where its own undoing ends. */
  lemma {:induction false} UndoStoredByKey(s: Schema, es: seq<Entry>, t: Table)
    requires AllLogged(s, es) && AllFaithful(s, es) && AllKeepKeys(s, es) && TableOk(s, t)
    ensures var u := ExecAll(s, UndoStored(es), t);
            if u.None? then exists k :: UndoneAll(OnKey(s, es, k), At(s, t, k)).Refused?
            else TableOk(s, u.value) && forall k :: UndoneAll(OnKey(s, es, k), At(s, t, k)) == Now(At(s, u.value, k))
    decreases |es|
  {
    hide Exec, TableOk, At, Undo, ActKey, Logged, Faithful, KeepsKey, UndoneAt, OnKey;
    if es == [] {
      NoneOnKey(s);
    } else {
      var e, rest := es[0], es[1..];
      UndoStep(s, e, t);
      ExecOne(s, Undo(e.ch), UndoStored(rest), t);
      var k0, u := ActKey(s, e.act), Exec(s, Undo(e.ch), t);
      if u.None? {
        OnKeyStep(s, es, k0, At(s, t, k0));
      } else {
        UndoStoredByKey(s, rest, u.value);
        forall k ensures UndoneAll(OnKey(s, es, k), At(s, t, k)) == UndoneAll(OnKey(s, rest, k), At(s, u.value, k)) {
          OnKeyStep(s, es, k, At(s, t, k));
        }
      }
    }
  }

  lemma NoneOnKey(s: Schema)
    ensures forall k :: OnKey(s, [], k) == []
  {
  }

  /** What an applicable change does, key by key. */
  lemma ActByKey(s: Schema, e: Entry, t: Table)
    requires Logged(s, e) && KeepsKey(s, e.act) && TableOk(s, t) && Fits(s, t, e.act.Gone(), e.act.Come())
    ensures var k := ActKey(s, e.act);
            Before(e.act) == At(s, t, k) && Replaced(t, e.act.Gone(), e.act.Come()) == With(s, t, k, After(e.act))
            && (After(e.act).Some? ==> s.RowOk(After(e.act).value) && KeyOf(s, After(e.act).value) == k)
  {
    hide Schema.RowOk, Schema.Valid, Schema.ImageOf, KeyOf, SameKey, At;
    var k := ActKey(s, e.act);
    match e.act {
      case Ins(r) =>
        assert r in e.act.Come();
        forall q | q in t ensures KeyOf(s, q) != k { KeysAgree(s, r, q); }
        if At(s, t, k).Some? { KeyAt(s, t, k); }
      case Del(r) =>
        assert r in e.act.Gone();
        AtIs(s, t, r);
        forall q | q in t ensures KeyOf(s, q) == k <==> q == r { KeysAgree(s, r, q); }
      case Upd(o, n) =>
        assert o in e.act.Gone() && n in e.act.Come();
        AtIs(s, t, o);
        KeysAgree(s, o, n);
        forall q | q in t ensures KeyOf(s, q) == k <==> q == o { KeysAgree(s, o, q); }
    }
  }

  lemma {:induction false} RunByKey(s: Schema, es: seq<Entry>, t: Table)
    requires Applicable(s, es, t) && AllKeepKeys(s, es) && TableOk(s, t)
    ensures AllLogged(s, es) && TableOk(s, Applied(es, t))
    ensures forall k ::
              && Follow(OnKey(s, es, k), At(s, t, k))
              && At(s, Applied(es, t), k) == Left(OnKey(s, es, k), At(s, t, k))
    decreases |es|
  {
    hide TableOk, At, ActKey, Logged, Fits, KeepsKey, OnKey, Replaced, With, Schema.Valid, Schema.RowOk, KeyOf, After,
         Before;
    if es == [] {
      NoneOnKey(s);
    } else {
      var e, rest := es[0], es[1..];
      var k0, t' := ActKey(s, e.act), Replaced(t, e.act.Gone(), e.act.Come());
      LoggedValid(s, e);
      ActByKey(s, e, t);
      WithIs(s, t, k0, After(e.act));
      assert AllKeepKeys(s, rest);
      RunByKey(s, rest, t');
      forall k
        ensures Follow(OnKey(s, es, k), At(s, t, k)) && At(s, Applied(es, t), k) == Left(OnKey(s, es, k), At(s, t, k))
      {
        OnKeyStep(s, es, k, At(s, t, k));
      }
    }
  }

  ghost predicate AllRetraced(s: Schema, es: seq<Entry>) {
    forall k :: Retraced(OnKey(s, es, k))
  }

  lemma SomeNotRetraced(s: Schema, es: seq<Entry>) returns (k: Key)
    requires !AllRetraced(s, es)
    ensures !Retraced(OnKey(s, es, k))
  {
    hide Retraced, OnKey;
    k :| !Retraced(OnKey(s, es, k));
  }

  lemma IsRetraced(s: Schema, es: seq<Entry>, k: Key)
    requires AllRetraced(s, es)
    ensures Retraced(OnKey(s, es, k))
  {
    hide Retraced, OnKey;
  }

  /** Undoing oldest first restores the table exactly when every key's history is retraced, for runs that
      change no row's key and whose values come back. */
  lemma StoredOrderIff(s: Schema, es: seq<Entry>, t: Table)
    requires s.Valid() && TableOk(s, t) && Applicable(s, es, t) && AllFaithful(s, es) && AllKeepKeys(s, es)
    ensures ExecAll(s, UndoStored(es), Applied(es, t)) == Some(t) <==> AllRetraced(s, es)
  {
    hide TableOk, At, Applicable, AllFaithful, AllKeepKeys, AllLogged, OnKey, Applied, Schema.Valid, Retraced, Follow,
         Left, UndoneAll, ExecAll, UndoStored, AllRetraced;
    RunByKey(s, es, t);
    var last := Applied(es, t);
    UndoStoredByKey(s, es, last);
    var u := ExecAll(s, UndoStored(es), last);
    forall k ensures UndoneAll(OnKey(s, es, k), At(s, last, k)) == Now(At(s, t, k)) <==> Retraced(OnKey(s, es, k)) {
      RetracedIff(OnKey(s, es, k), At(s, t, k));
    }
    if !AllRetraced(s, es) {
      var k := SomeNotRetraced(s, es);
      assert u.Some? ==> At(s, u.value, k) != At(s, t, k);
    } else if u.None? {
      var k :| UndoneAll(OnKey(s, es, k), At(s, last, k)).Refused?;
      IsRetraced(s, es, k);
    } else {
      forall k ensures At(s, u.value, k) == At(s, t, k) { IsRetraced(s, es, k); }
      SameRows(s, u.value, t);
    }
  }

  lemma TwoOnKey(s: Schema, e: Entry, f: Entry, k: Key)
    ensures OnKey(s, [e, f], k)
            == (if ActKey(s, e.act) == k then [e.act] else []) + (if ActKey(s, f.act) == k then [f.act] else [])
  {
    hide ActKey;
    var two, one := [e, f], [f];
    assert two[1..] == one && one[1..] == [];
    assert OnKey(s, one, k) == (if ActKey(s, f.act) == k then [f.act] else []) + [];
  }

  lemma TwoRetraced(a: SqlRow, b: SqlRow, c: SqlRow, d: SqlRow)
    ensures Retraced([Upd(a, b), Upd(c, d)]) <==> a == c
    ensures Retraced([])
  {
    var acts, rest := [Upd(a, b), Upd(c, d)], [Upd(c, d)];
    assert acts[1..] == rest && rest[1..] == [];
    assert Switches([]) == [];
    assert Switches(rest) == [] + Switches([]);
    assert Switches(acts) == [] + Switches(rest);
  }

  // ---- A run the stored order does not undo ----

  lemma EditApplies(before: SqlRow, after: SqlRow)
    requires NOTES.RowOk(before) && NOTES.RowOk(after) && NOTES.Survives(before) && NOTES.Survives(after)
    ensures Logged(NOTES, Edited(before, after)) && Faithful(NOTES, Edited(before, after).act)
    ensures Fits(NOTES, {before}, {before}, {after}) && Replaced({before}, {before}, {after}) == {after}
  {
    hide Schema.RowOk, Schema.Survives, Logged, SameKey;
    EditedIsLogged(before, after);
    FaithfulSides(NOTES, Edited(before, after).act);
  }

  lemma TwoEdits(a: SqlRow, b: SqlRow, c: SqlRow)
    requires KeyOf(NOTES, a) == KeyOf(NOTES, b)
    ensures OnKey(NOTES, [Edited(a, b), Edited(b, c)], KeyOf(NOTES, a)) == [Upd(a, b), Upd(b, c)]
  {
    hide KeyOf;
    TwoOnKey(NOTES, Edited(a, b), Edited(b, c), KeyOf(NOTES, a));
  }

  lemma TwoApply(a: SqlRow, b: SqlRow, c: SqlRow)
    requires Logged(NOTES, Edited(a, b)) && Logged(NOTES, Edited(b, c))
    requires Fits(NOTES, {a}, {a}, {b}) && Fits(NOTES, {b}, {b}, {c})
    ensures Applicable(NOTES, [Edited(a, b), Edited(b, c)], {a}) && Applied([Edited(a, b), Edited(b, c)], {a}) == {c}
  {
    hide Logged, Fits;
    var two, one := [Edited(a, b), Edited(b, c)], [Edited(b, c)];
    assert two[1..] == one && one[1..] == [];
    assert {a} - {a} + {b} == {b} && {b} - {b} + {c} == {c};
    assert Applicable(NOTES, [], {c}) && Applied([], {c}) == {c};
    assert Applicable(NOTES, one, {b}) && Applied(one, {b}) == {c};
  }

  /** A row edited twice: undone oldest first it ends as it was between the edits. */
  lemma TwoEditsAreNotUndone()
    ensures
      var a, b, c := Note("1", "a"), Note("1", "b"), Note("1", "c");
      var es := [Edited(a, b), Edited(b, c)];
      Applicable(NOTES, es, {a}) && Applied(es, {a}) == {c} && ExecAll(NOTES, UndoStored(es), {c}) != Some({a})
  {
    hide Applicable, Applied, ExecAll, UndoStored, Logged, Fits, Schema.RowOk, Schema.Survives, Schema.Valid, Retraced,
         OnKey, Faithful, TableOk, Reserved;
    var a, b, c := Note("1", "a"), Note("1", "b"), Note("1", "c");
    var es := [Edited(a, b), Edited(b, c)];
    PlainWords();
    NoteIsRow("1", "a");
    NoteIsRow("1", "b");
    NoteIsRow("1", "c");
    NotesAreValid();
    EditApplies(a, b);
    EditApplies(b, c);
    TwoApply(a, b, c);
    OneRowTable(NOTES, a);
    SameNotes("1", "a", "b");
    SameNotes("1", "b", "c");
    TwoEdits(a, b, c);
    TwoRetraced(a, b, b, c);
    assert a["v"] != b["v"];
    if AllRetraced(NOTES, es) { IsRetraced(NOTES, es, KeyOf(NOTES, a)); }
    StoredOrderIff(NOTES, es, {a});
  }

  lemma PlainWords()
    ensures !Reserved("1") && !Reserved("a") && !Reserved("b") && !Reserved("c")
  {
  }

  lemma SameNotes(id: string, v: string, w: string)
    ensures SameKey(NOTES, Note(id, v), Note(id, w)) && KeyOf(NOTES, Note(id, v)) == KeyOf(NOTES, Note(id, w))
  {
  }
}
