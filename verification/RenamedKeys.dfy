/** Undoing a run in stored order, oldest first, when its updates may change keys: exactly when that
    restores the table, told by the log alone and apart for keys that no rename links
    (flashback_run.go:235-261). */
module RenamedKeys {
  import opened Options
  import opened Sql
  import opened Values
  import opened UndoRedo
  import opened UndoRuns
  import opened StoredOrder

  // ---- Rows by key ----

  type Rows = map<Key, SqlRow>

  /** What undoing one change makes of the rows: nothing if a row is in the way. An update whose new key has
      no row does nothing. */
  function Undone(s: Schema, a: Act, m: Rows): Option<Rows> {
    match a
    case Ins(r) => Some(m - {KeyOf(s, r)})
    case Del(r) => if KeyOf(s, r) in m then None else Some(m[KeyOf(s, r) := r])
    case Upd(o, n) =>
      if KeyOf(s, n) !in m then Some(m)
      else if KeyOf(s, o) != KeyOf(s, n) && KeyOf(s, o) in m then None
      else Some((m - {KeyOf(s, n)})[KeyOf(s, o) := o])
  }

  function UndoneRun(s: Schema, es: seq<Entry>, m: Rows): Option<Rows>
    decreases |es|
  {
    if es == [] then Some(m)
    else
      var u := Undone(s, es[0].act, m);
      if u.None? then None else UndoneRun(s, es[1..], u.value)
  }

  /** What a change made of them. */
  function Done(s: Schema, a: Act, m: Rows): Rows {
    match a
    case Ins(r) => m[KeyOf(s, r) := r]
    case Del(r) => m - {KeyOf(s, r)}
    case Upd(o, n) => (m - {KeyOf(s, o)})[KeyOf(s, n) := n]
  }

  function DoneRun(s: Schema, es: seq<Entry>, m: Rows): Rows
    decreases |es|
  {
    if es == [] then m else DoneRun(s, es[1..], Done(s, es[0].act, m))
  }

  function KeysOf(s: Schema, a: Act): set<Key> {
    match a
    case Ins(r) => {KeyOf(s, r)}
    case Del(r) => {KeyOf(s, r)}
    case Upd(o, n) => {KeyOf(s, o), KeyOf(s, n)}
  }

  function AllKeys(s: Schema, es: seq<Entry>): set<Key> {
    if es == [] then {} else KeysOf(s, es[0].act) + AllKeys(s, es[1..])
  }

  /** The row a change took, by its key. */
  function Taken(s: Schema, a: Act): Rows {
    match a
    case Ins(_) => map[]
    case Del(r) => map[KeyOf(s, r) := r]
    case Upd(o, _) => map[KeyOf(s, o) := o]
  }

  /** The rows the log's keys had at the beginning, and those they have at the end, as the log tells. */
  function Starts(s: Schema, es: seq<Entry>): Rows {
    if es == [] then map[] else Starts(s, es[1..]) - KeysOf(s, es[0].act) + Taken(s, es[0].act)
  }

  function Ends(s: Schema, es: seq<Entry>): Rows {
    DoneRun(s, es, Starts(s, es))
  }

  /** Undone oldest first, the rows of the log's keys come back to those of the beginning. */
  predicate Returns(s: Schema, es: seq<Entry>) {
    UndoneRun(s, es, Ends(s, es)) == Some(Starts(s, es))
  }

  // ---- Some of the keys ----

  function Only(m: Rows, ks: set<Key>): Rows {
    map k | k in m && k in ks :: m[k]
  }

  lemma OutInside(m: Rows, k: Key, ks: set<Key>)
    requires k in ks
    ensures Only(m - {k}, ks) == Only(m, ks) - {k} && m - {k} - ks == m - ks && (k in Only(m, ks) <==> k in m)
  {
  }

  lemma PutInside(m: Rows, k: Key, r: SqlRow, ks: set<Key>)
    requires k in ks
    ensures Only(m[k := r], ks) == Only(m, ks)[k := r] && m[k := r] - ks == m - ks
  {
  }

  /** A change of keys in `ks` acts there alone, and in the same way whatever the other keys have. */
  lemma ActsInside(s: Schema, a: Act, m: Rows, ks: set<Key>)
    requires KeysOf(s, a) <= ks
    ensures var u, v := Undone(s, a, m), Undone(s, a, Only(m, ks));
            u.Some? == v.Some? && (u.Some? ==> v.value == Only(u.value, ks) && u.value - ks == m - ks)
    ensures Done(s, a, Only(m, ks)) == Only(Done(s, a, m), ks) && Done(s, a, m) - ks == m - ks
  {
    hide KeyOf, Only;
    match a
    case Ins(r) =>
      OutInside(m, KeyOf(s, r), ks);
      PutInside(m, KeyOf(s, r), r, ks);
    case Del(r) =>
      OutInside(m, KeyOf(s, r), ks);
      PutInside(m, KeyOf(s, r), r, ks);
    case Upd(o, n) =>
      OutInside(m, KeyOf(s, o), ks);
      OutInside(m, KeyOf(s, n), ks);
      PutInside(m - {KeyOf(s, n)}, KeyOf(s, o), o, ks);
      PutInside(m - {KeyOf(s, o)}, KeyOf(s, n), n, ks);
  }

  lemma OutOutside(m: Rows, k: Key, ks: set<Key>)
    requires k !in ks
    ensures Only(m - {k}, ks) == Only(m, ks) && m - {k} - ks == m - ks - {k} && (k in m - ks <==> k in m)
  {
  }

  lemma PutOutside(m: Rows, k: Key, r: SqlRow, ks: set<Key>)
    requires k !in ks
    ensures Only(m[k := r], ks) == Only(m, ks) && m[k := r] - ks == (m - ks)[k := r]
  {
  }

  /** A change of other keys leaves those in `ks` alone, and acts in the same way whatever they have. */
  lemma ActsOutside(s: Schema, a: Act, m: Rows, ks: set<Key>)
    requires KeysOf(s, a) !! ks
    ensures var u, v := Undone(s, a, m), Undone(s, a, m - ks);
            u.Some? == v.Some? && (u.Some? ==> v.value == u.value - ks && Only(u.value, ks) == Only(m, ks))
    ensures Done(s, a, m - ks) == Done(s, a, m) - ks && Only(Done(s, a, m), ks) == Only(m, ks)
  {
    hide KeyOf, Only;
    match a
    case Ins(r) =>
      OutOutside(m, KeyOf(s, r), ks);
      PutOutside(m, KeyOf(s, r), r, ks);
    case Del(r) =>
      OutOutside(m, KeyOf(s, r), ks);
      PutOutside(m, KeyOf(s, r), r, ks);
    case Upd(o, n) =>
      OutOutside(m, KeyOf(s, o), ks);
      OutOutside(m, KeyOf(s, n), ks);
      PutOutside(m - {KeyOf(s, n)}, KeyOf(s, o), o, ks);
      PutOutside(m - {KeyOf(s, o)}, KeyOf(s, n), n, ks);
  }

  lemma {:induction false} RunInside(s: Schema, es: seq<Entry>, m: Rows, ks: set<Key>)
    requires AllKeys(s, es) <= ks
    ensures var u, v := UndoneRun(s, es, m), UndoneRun(s, es, Only(m, ks));
            u.Some? == v.Some? && (u.Some? ==> v.value == Only(u.value, ks) && u.value - ks == m - ks)
    ensures DoneRun(s, es, Only(m, ks)) == Only(DoneRun(s, es, m), ks) && DoneRun(s, es, m) - ks == m - ks
    decreases |es|
  {
    hide KeysOf, Undone, Done, Only;
    if es != [] {
      var a, rest := es[0].act, es[1..];
      ActsInside(s, a, m, ks);
      RunInside(s, rest, Done(s, a, m), ks);
      if Undone(s, a, m).Some? { RunInside(s, rest, Undone(s, a, m).value, ks); }
    }
  }

  // ---- The run on a table ----

  /** The table's rows by key. */
  ghost function Keyed(s: Schema, t: Table): (m: Rows)
    ensures forall k :: k in m <==> At(s, t, k).Some?
    ensures forall k :: k in m ==> At(s, t, k) == Some(m[k])
  {
    var keys := set r | r in t :: KeyOf(s, r);
    assert forall k :: At(s, t, k).Some? ==> k in keys;
    map k | k in keys && At(s, t, k).Some? :: At(s, t, k).value
  }

  lemma KeyedIs(s: Schema, t: Table, m: Rows)
    requires forall k :: At(s, t, k) == if k in m then Some(m[k]) else None
    ensures Keyed(s, t) == m
  {
    hide At, KeyOf;
    var n := Keyed(s, t);
    forall k ensures k in n <==> k in m { assert At(s, t, k).Some? <==> k in m; }
    forall k | k in m ensures n[k] == m[k] { assert At(s, t, k) == Some(m[k]); }
  }

  lemma SameKeyed(s: Schema, t: Table, u: Table)
    requires s.Valid() && TableOk(s, t) && TableOk(s, u) && Keyed(s, t) == Keyed(s, u)
    ensures t == u
  {
    hide Schema.Valid, TableOk, Keyed, At;
    forall k ensures At(s, t, k) == At(s, u, k) {
      assert At(s, t, k).Some? <==> At(s, u, k).Some?;
      if At(s, t, k).Some? { assert k in Keyed(s, t) && k in Keyed(s, u); }
    }
    SameRows(s, t, u);
  }

  lemma AtOf(s: Schema, t: Table, k: Key)
    ensures At(s, t, k) == if k in Keyed(s, t) then Some(Keyed(s, t)[k]) else None
  {
    hide Keyed, At;
  }

  /** An update from one row's key to another row's values, under another key. */
  lemma MovesRow(s: Schema, target: Target, from: SqlRow, to: SqlRow, t: Table)
    requires s.Valid() && TableOk(s, t) && s.RowOk(from) && s.RowOk(to) && s.Survives(from) && s.Survives(to)
    requires !SameKey(s, from, to)
    ensures var x := At(s, t, KeyOf(s, from));
            Exec(s, UpdateSet(target, Assignments(s.ImageOf(to)), Conditions(s.pk, s.ImageOf(from))), t)
            == if x.None? then Some(t)
               else if At(s, t, KeyOf(s, to)).Some? then None
               else Some(t - {x.value} + {to})
  {
    hide Conditions, Assignments, Rewritten, Schema.Valid, Schema.RowOk, Schema.Survives, SameKey, Exec, KeyIsNull,
         Schema.ImageOf, Schema.BackRow, KeyOf, At;
    var xs, where := Assignments(s.ImageOf(to)), Conditions(s.pk, s.ImageOf(from));
    var f, k, j := RewriteMap(s, t, xs, where), KeyOf(s, from), KeyOf(s, to);
    SurvivingRow(s, from);
    SurvivingRow(s, to);
    UpdateEffect(s, from, to, t);
    KeysAgree(s, from, to);
    forall r | r in t ensures f[r] == (if KeyOf(s, r) == k then to else r) && !KeyIsNull(s, f[r]) {
      KeysAgree(s, r, from);
      OwnKey(s, r);
      OwnKey(s, to);
    }
    ExecByRows(s, target, xs, where, t);
    if At(s, t, k).None? {
      NoKeyAt(s, t, k);
      Unchanged(t, f);
      forall r, q | r in t && q in t && r != q ensures !SameKey(s, f[r], f[q]) {}
    } else {
      KeyAt(s, t, k);
      MovesOne(s, t, f, k, to);
    }
  }

  lemma MovesOne(s: Schema, t: Table, f: map<SqlRow, SqlRow>, k: Key, to: SqlRow)
    requires s.Valid() && TableOk(s, t) && s.RowOk(to) && KeyOf(s, to) != k && At(s, t, k).Some?
    requires f.Keys == t && forall r :: r in t ==> f[r] == if KeyOf(s, r) == k then to else r
    ensures if At(s, t, KeyOf(s, to)).Some?
            then exists r, q :: r in t && q in t && r != q && SameKey(s, f[r], f[q])
            else && (set r | r in t :: f[r]) == t - {At(s, t, k).value} + {to}
                 && forall r, q :: r in t && q in t && r != q ==> !SameKey(s, f[r], f[q])
  {
    hide Schema.Valid, Schema.RowOk, SameKey, KeyOf, At;
    KeyAt(s, t, k);
    var row, j := At(s, t, k).value, KeyOf(s, to);
    forall r | r in t ensures KeyOf(s, r) == k <==> r == row { KeysAgree(s, r, row); }
    if At(s, t, j).Some? {
      KeyAt(s, t, j);
      var q := At(s, t, j).value;
      KeysAgree(s, to, q);
      assert SameKey(s, f[row], f[q]);
    } else {
      NoKeyAt(s, t, j);
      OneRewritten(t, f, row, to);
      forall r, q | r in t && q in t && r != q ensures !SameKey(s, f[r], f[q]) {
        KeysAgree(s, f[r], f[q]);
        KeysAgree(s, r, q);
      }
    }
  }

  /** A row taken out of a table and another put in. */
  lemma MovedTable(s: Schema, t: Table, k: Key, to: SqlRow)
    requires s.Valid() && TableOk(s, t) && s.RowOk(to) && KeyOf(s, to) != k
    requires At(s, t, k).Some? && At(s, t, KeyOf(s, to)).None?
    ensures var u := t - {At(s, t, k).value} + {to};
            TableOk(s, u) && Keyed(s, u) == (Keyed(s, t) - {k})[KeyOf(s, to) := to]
  {
    hide Schema.Valid, Schema.RowOk, SameKey, KeyOf, At, TableOk, With, Keyed;
    var u, j := t - {At(s, t, k).value} + {to}, KeyOf(s, to);
    TakenOut(s, t, k);
    var w := With(s, t, k, None);
    WithIs(s, t, k, None);
    WithIs(s, w, j, Some(to));
    PutIn(s, w, to);
    forall i ensures At(s, u, i) == if i == j then Some(to) else if i == k then None else At(s, t, i) {}
    forall i ensures At(s, t, i) == if i in Keyed(s, t) then Some(Keyed(s, t)[i]) else None { AtOf(s, t, i); }
    KeyedIs(s, u, (Keyed(s, t) - {k})[j := to]);
  }

  lemma TakenOut(s: Schema, t: Table, k: Key)
    requires s.Valid() && TableOk(s, t) && At(s, t, k).Some?
    ensures With(s, t, k, None) == t - {At(s, t, k).value}
  {
    hide Schema.Valid, Schema.RowOk, SameKey, KeyOf, At;
    KeyAt(s, t, k);
    var row := At(s, t, k).value;
    forall r | r in t ensures KeyOf(s, r) == k <==> r == row { KeysAgree(s, r, row); }
  }

  lemma PutIn(s: Schema, t: Table, to: SqlRow)
    requires At(s, t, KeyOf(s, to)).None?
    ensures With(s, t, KeyOf(s, to), Some(to)) == t + {to}
  {
    hide KeyOf, At;
    NoKeyAt(s, t, KeyOf(s, to));
  }

  /** Undoing one change of any table, told by its rows by key. */
  lemma ExecIsUndone(s: Schema, e: Entry, t: Table)
    requires Logged(s, e) && TableOk(s, t) && Faithful(s, e.act)
    ensures var u, m := Exec(s, Undo(e.ch), t), Undone(s, e.act, Keyed(s, t));
            u.Some? == m.Some? && (u.Some? ==> TableOk(s, u.value) && Keyed(s, u.value) == m.value)
  {
    hide Exec, Schema.Valid, Schema.RowOk, TableOk, At, KeyOf, SameKey, Logged, Faithful, Keyed;
    forall k ensures At(s, t, k) == if k in Keyed(s, t) then Some(Keyed(s, t)[k]) else None { AtOf(s, t, k); }
    if KeepsKey(s, e.act) {
      UndoStep(s, e, t);
      KeptKeys(s, e);
      var m := Undone(s, e.act, Keyed(s, t));
      if m.Some? { KeyedIs(s, Exec(s, Undo(e.ch), t).value, m.value); }
    } else {
      ExecMoves(s, e, t);
    }
  }

  lemma KeptKeys(s: Schema, e: Entry)
    requires Logged(s, e)
    ensures s.Valid() && (e.act.Upd? ==> (KeepsKey(s, e.act) <==> KeyOf(s, e.act.old_) == KeyOf(s, e.act.new_)))
  {
    hide Schema.Valid, Schema.RowOk, SameKey, KeyOf;
    if e.act.Upd? {
      assert e.act.old_ in e.act.Gone() && e.act.new_ in e.act.Come();
      LoggedValid(s, e);
      KeysAgree(s, e.act.old_, e.act.new_);
    }
  }

  lemma ExecMoves(s: Schema, e: Entry, t: Table)
    requires Logged(s, e) && TableOk(s, t) && Faithful(s, e.act) && !KeepsKey(s, e.act)
    ensures var u, m := Exec(s, Undo(e.ch), t), Undone(s, e.act, Keyed(s, t));
            u.Some? == m.Some? && (u.Some? ==> TableOk(s, u.value) && Keyed(s, u.value) == m.value)
  {
    hide Exec, Assignments, Conditions, Schema.Valid, Schema.RowOk, Schema.Survives, Schema.ImageOf, TargetOf, TableOk,
         At, KeyOf, SameKey, Keyed, Faithful;
    var o, n := e.act.old_, e.act.new_;
    assert o in e.act.Gone() && n in e.act.Come();
    FaithfulSides(s, e.act);
    LoggedValid(s, e);
    SomeClauses(s, o);
    SomeClauses(s, n);
    KeptKeys(s, e);
    KeySymmetric(s, o, n);
    MovesRow(s, TargetOf(e.ch), n, o, t);
    AtOf(s, t, KeyOf(s, o));
    AtOf(s, t, KeyOf(s, n));
    if KeyOf(s, n) in Keyed(s, t) && KeyOf(s, o) !in Keyed(s, t) { MovedTable(s, t, KeyOf(s, n), o); }
  }

  lemma {:induction false} ExecIsUndoneRun(s: Schema, es: seq<Entry>, t: Table)
    requires AllLogged(s, es) && AllFaithful(s, es) && TableOk(s, t)
    ensures var u, m := ExecAll(s, UndoStored(es), t), UndoneRun(s, es, Keyed(s, t));
            u.Some? == m.Some? && (u.Some? ==> TableOk(s, u.value) && Keyed(s, u.value) == m.value)
    decreases |es|
  {
    hide Exec, TableOk, Undo, Logged, Faithful, Undone, Keyed;
    if es != [] {
      var e, rest := es[0], es[1..];
      ExecIsUndone(s, e, t);
      ExecOne(s, Undo(e.ch), UndoStored(rest), t);
      var u := Exec(s, Undo(e.ch), t);
      if u.Some? { ExecIsUndoneRun(s, rest, u.value); }
    }
  }

  /** An applicable change, told by rows by key. */
  lemma ActIsDone(s: Schema, e: Entry, t: Table)
    requires Logged(s, e) && TableOk(s, t) && Fits(s, t, e.act.Gone(), e.act.Come())
    ensures var t', m := Replaced(t, e.act.Gone(), e.act.Come()), Keyed(s, t);
            && TableOk(s, t') && Keyed(s, t') == Done(s, e.act, m)
            && Only(m, KeysOf(s, e.act)) == Taken(s, e.act)
  {
    hide Schema.Valid, Schema.RowOk, TableOk, At, KeyOf, SameKey, Logged, Keyed, With, Fits, Replaced;
    LoggedValid(s, e);
    KeptKeys(s, e);
    forall k ensures At(s, t, k) == if k in Keyed(s, t) then Some(Keyed(s, t)[k]) else None { AtOf(s, t, k); }
    if KeepsKey(s, e.act) {
      ActByKey(s, e, t);
      WithIs(s, t, ActKey(s, e.act), After(e.act));
      KeyedIs(s, Replaced(t, e.act.Gone(), e.act.Come()), Done(s, e.act, Keyed(s, t)));
    } else {
      MoveIsDone(s, e, t);
    }
  }

  lemma MoveIsDone(s: Schema, e: Entry, t: Table)
    requires Logged(s, e) && TableOk(s, t) && Fits(s, t, e.act.Gone(), e.act.Come()) && !KeepsKey(s, e.act)
    ensures var o, n, m := e.act.old_, e.act.new_, Keyed(s, t);
            var t' := Replaced(t, e.act.Gone(), e.act.Come());
            && TableOk(s, t') && Keyed(s, t') == (m - {KeyOf(s, o)})[KeyOf(s, n) := n]
            && KeyOf(s, o) in m && m[KeyOf(s, o)] == o && KeyOf(s, n) !in m && KeyOf(s, o) != KeyOf(s, n)
  {
    hide Schema.Valid, Schema.RowOk, TableOk, At, KeyOf, SameKey, Keyed, Schema.ImageOf;
    var o, n := e.act.old_, e.act.new_;
    assert o in e.act.Gone() && n in e.act.Come();
    LoggedValid(s, e);
    KeptKeys(s, e);
    AtIs(s, t, o);
    forall q | q in t ensures KeyOf(s, q) != KeyOf(s, n) {
      TableRow(s, t, q);
      KeysAgree(s, n, q);
      KeysAgree(s, n, o);
    }
    if At(s, t, KeyOf(s, n)).Some? { KeyAt(s, t, KeyOf(s, n)); }
    AtOf(s, t, KeyOf(s, o));
    AtOf(s, t, KeyOf(s, n));
    MovedTable(s, t, KeyOf(s, o), n);
  }

  lemma TableRow(s: Schema, t: Table, q: SqlRow)
    requires TableOk(s, t) && q in t
    ensures s.RowOk(q)
  {
    hide Schema.RowOk;
  }

  lemma {:induction false} RunIsDone(s: Schema, es: seq<Entry>, t: Table)
    requires TableOk(s, t) && Applicable(s, es, t)
    ensures AllLogged(s, es) && TableOk(s, Applied(es, t)) && Keyed(s, Applied(es, t)) == DoneRun(s, es, Keyed(s, t))
    ensures Only(Keyed(s, t), AllKeys(s, es)) == Starts(s, es)
    decreases |es|
  {
    hide TableOk, Logged, Fits, Replaced, Keyed, Done, Only, KeysOf, Starts;
    if es == [] {
      NoKeys(s, Keyed(s, t));
    } else {
      var e, rest := es[0], es[1..];
      var t' := Replaced(t, e.act.Gone(), e.act.Come());
      ActIsDone(s, e, t);
      RunIsDone(s, rest, t');
      ActsInside(s, e.act, Keyed(s, t), KeysOf(s, e.act));
      OnlyJoined(Keyed(s, t), Keyed(s, t'), KeysOf(s, e.act), AllKeys(s, rest));
      UndoneFirst(s, es, map[]);
    }
  }

  lemma NoKeys(s: Schema, m: Rows)
    ensures Only(m, AllKeys(s, [])) == Starts(s, [])
  {
  }

  lemma OnlyJoined(m: Rows, n: Rows, ks: set<Key>, js: set<Key>)
    requires m - ks == n - ks
    ensures Only(m, ks + js) == Only(n, js) - ks + Only(m, ks)
  {
    forall k | k in js && k !in ks ensures k in m <==> k in n { assert k in m - ks <==> k in n - ks; }
    forall k | k in js && k in m && k !in ks ensures m[k] == n[k] { assert (m - ks)[k] == (n - ks)[k]; }
  }

  /** Undoing oldest first restores the table, for any applicable run whose values come back, if and only if
      the rows of the log's keys return; which the log alone tells. */
  lemma StoredOrderRestoresIff(s: Schema, es: seq<Entry>, t: Table)
    requires s.Valid() && TableOk(s, t) && Applicable(s, es, t) && AllFaithful(s, es)
    ensures ExecAll(s, UndoStored(es), Applied(es, t)) == Some(t) <==> Returns(s, es)
  {
    hide TableOk, Applicable, AllFaithful, AllLogged, Applied, Schema.Valid, ExecAll, UndoStored, UndoneRun, DoneRun,
         Starts, Keyed, AllKeys, Only;
    RunIsDone(s, es, t);
    var last, m, ks := Applied(es, t), Keyed(s, t), AllKeys(s, es);
    RunInside(s, es, m, ks);
    RunInside(s, es, Keyed(s, last), ks);
    ExecIsUndoneRun(s, es, last);
    var u := UndoneRun(s, es, Keyed(s, last));
    if u.Some? {
      if Only(u.value, ks) == Only(m, ks) {
        SameParts(u.value, m, ks);
        SameKeyed(s, ExecAll(s, UndoStored(es), last).value, t);
      }
    }
  }

  lemma SameParts(m: Rows, n: Rows, ks: set<Key>)
    requires Only(m, ks) == Only(n, ks) && m - ks == n - ks
    ensures m == n
  {
    forall k ensures k in m <==> k in n { assert k in Only(m, ks) + (m - ks) <==> k in Only(n, ks) + (n - ks); }
    forall k | k in m ensures m[k] == n[k] {
      if k in ks { assert Only(m, ks)[k] == Only(n, ks)[k]; } else { assert (m - ks)[k] == (n - ks)[k]; }
    }
  }

  // ---- Keys that no rename links ----

  /** Every change is of keys in `ks` alone or of other keys alone. */
  predicate Separates(s: Schema, es: seq<Entry>, ks: set<Key>) {
    forall i :: 0 <= i < |es| ==> KeysOf(s, es[i].act) <= ks || KeysOf(s, es[i].act) !! ks
  }

  /** The changes of keys in `ks`, or the others. */
  function Part(s: Schema, es: seq<Entry>, ks: set<Key>, inside: bool): seq<Entry> {
    if es == [] then []
    else (if (KeysOf(s, es[0].act) <= ks) == inside then [es[0]] else []) + Part(s, es[1..], ks, inside)
  }

  lemma PartFirst(s: Schema, es: seq<Entry>, ks: set<Key>)
    requires es != []
    ensures var inside := KeysOf(s, es[0].act) <= ks; var part := Part(s, es, ks, inside);
            && part != [] && part[0] == es[0] && part[1..] == Part(s, es[1..], ks, inside)
            && Part(s, es, ks, !inside) == Part(s, es[1..], ks, !inside)
  {
    hide KeysOf;
  }

  lemma UndoneFirst(s: Schema, es: seq<Entry>, m: Rows)
    requires es != []
    ensures UndoneRun(s, es, m)
            == if Undone(s, es[0].act, m).None? then None else UndoneRun(s, es[1..], Undone(s, es[0].act, m).value)
    ensures DoneRun(s, es, m) == DoneRun(s, es[1..], Done(s, es[0].act, m))
    ensures Starts(s, es) == Starts(s, es[1..]) - KeysOf(s, es[0].act) + Taken(s, es[0].act)
  {
  }

  /** The two parts are undone and done each on its own rows. */
  lemma {:induction false} RunByParts(s: Schema, es: seq<Entry>, ks: set<Key>, m: Rows)
    requires Separates(s, es, ks)
    ensures var u := UndoneRun(s, es, m);
            var a, b := UndoneRun(s, Part(s, es, ks, true), Only(m, ks)), UndoneRun(s, Part(s, es, ks, false), m - ks);
            u.Some? == (a.Some? && b.Some?) && (u.Some? ==> Only(u.value, ks) == a.value && u.value - ks == b.value)
    ensures var d := DoneRun(s, es, m);
            && Only(d, ks) == DoneRun(s, Part(s, es, ks, true), Only(m, ks))
            && d - ks == DoneRun(s, Part(s, es, ks, false), m - ks)
    decreases |es|
  {
    hide KeysOf, Undone, Done, Only, UndoneRun, DoneRun, Part;
    if es == [] {
      NothingByParts(s, ks, m);
    } else {
      var a, rest := es[0].act, es[1..];
      var inside := KeysOf(s, a) <= ks;
      PartFirst(s, es, ks);
      UndoneFirst(s, es, m);
      if inside {
        ActsInside(s, a, m, ks);
        UndoneFirst(s, Part(s, es, ks, true), Only(m, ks));
      } else {
        assert KeysOf(s, es[0].act) !! ks;
        ActsOutside(s, a, m, ks);
        UndoneFirst(s, Part(s, es, ks, false), m - ks);
      }
      RunByParts(s, rest, ks, Done(s, a, m));
      if Undone(s, a, m).Some? { RunByParts(s, rest, ks, Undone(s, a, m).value); }
    }
  }

  lemma NothingByParts(s: Schema, ks: set<Key>, m: Rows)
    ensures UndoneRun(s, [], m) == Some(m) && DoneRun(s, [], m) == m && Starts(s, []) == map[]
    ensures Part(s, [], ks, true) == Part(s, [], ks, false) == []
    ensures UndoneRun(s, [], Only(m, ks)) == Some(Only(m, ks)) && DoneRun(s, [], Only(m, ks)) == Only(m, ks)
    ensures UndoneRun(s, [], m - ks) == Some(m - ks) && DoneRun(s, [], m - ks) == m - ks
  {
  }

  lemma TakenKeys(s: Schema, a: Act)
    ensures Taken(s, a).Keys <= KeysOf(s, a)
  {
  }

  lemma StartsStep(m: Rows, taken: Rows, keys: set<Key>, ks: set<Key>)
    requires taken.Keys <= keys
    ensures var n := m - keys + taken;
            && (keys <= ks ==> Only(n, ks) == Only(m, ks) - keys + taken && n - ks == m - ks)
            && (keys !! ks ==> Only(n, ks) == Only(m, ks) && n - ks == m - ks - keys + taken)
  {
  }

  lemma {:induction false} StartsByParts(s: Schema, es: seq<Entry>, ks: set<Key>)
    requires Separates(s, es, ks)
    ensures Only(Starts(s, es), ks) == Starts(s, Part(s, es, ks, true))
    ensures Starts(s, es) - ks == Starts(s, Part(s, es, ks, false))
    decreases |es|
  {
    hide KeysOf, Only, UndoneRun, DoneRun, Part, Starts, Taken;
    if es == [] {
      NothingByParts(s, ks, map[]);
      NoRows(ks);
    } else {
      var a, rest := es[0].act, es[1..];
      PartFirst(s, es, ks);
      UndoneFirst(s, es, map[]);
      UndoneFirst(s, Part(s, es, ks, KeysOf(s, a) <= ks), map[]);
      assert KeysOf(s, es[0].act) <= ks || KeysOf(s, es[0].act) !! ks;
      TakenKeys(s, a);
      StartsStep(Starts(s, rest), Taken(s, a), KeysOf(s, a), ks);
      StartsByParts(s, rest, ks);
    }
  }

  lemma NoRows(ks: set<Key>)
    ensures var none: Rows := map[]; Only(none, ks) == none && none - ks == none
  {
  }

  /** Keys that no change links to others can be judged by themselves: the whole log returns if and only if
      the part on them and the part on the others do. */
  lemma ReturnsByParts(s: Schema, es: seq<Entry>, ks: set<Key>)
    requires Separates(s, es, ks)
    ensures Returns(s, es) <==> Returns(s, Part(s, es, ks, true)) && Returns(s, Part(s, es, ks, false))
  {
    hide KeysOf, Only, UndoneRun, DoneRun, Part, Starts, Separates;
    var m := Starts(s, es);
    StartsByParts(s, es, ks);
    RunByParts(s, es, ks, m);
    RunByParts(s, es, ks, DoneRun(s, es, m));
    var u := UndoneRun(s, es, DoneRun(s, es, m));
    if u.Some? && Only(u.value, ks) == Only(m, ks) && u.value - ks == m - ks { SameParts(u.value, m, ks); }
  }

  // ---- A key by itself ----

  function RowAt(k: Key, x: Option<SqlRow>): Rows {
    if x.Some? then map[k := x.value] else map[]
  }

  lemma OneKeyStep(s: Schema, a: Act, k: Key, x: Option<SqlRow>)
    requires KeysOf(s, a) == {k}
    ensures ActKey(s, a) == k
    ensures Undone(s, a, RowAt(k, x))
            == if UndoneAt(a, x).Refused? then None else Some(RowAt(k, UndoneAt(a, x).row))
    ensures Before(a) == x ==> Done(s, a, RowAt(k, x)) == RowAt(k, After(a)) && Taken(s, a) == RowAt(k, x)
  {
    hide KeyOf;
    OneKeyActs(s, a, k);
    if x.Some? { assert RowAt(k, x) - {k} == map[] && forall r :: RowAt(k, x)[k := r] == map[k := r]; }
  }

  lemma OneKeyActs(s: Schema, a: Act, k: Key)
    requires KeysOf(s, a) == {k}
    ensures a.Upd? ==> KeyOf(s, a.old_) == k && KeyOf(s, a.new_) == k
    ensures !a.Upd? ==> KeyOf(s, a.row) == k
  {
    hide KeyOf;
    if a.Upd? {
      assert KeyOf(s, a.old_) in KeysOf(s, a) && KeyOf(s, a.new_) in KeysOf(s, a);
    } else {
      assert KeyOf(s, a.row) in KeysOf(s, a);
    }
  }

  lemma {:induction false} OneKeyRun(s: Schema, es: seq<Entry>, k: Key, x: Option<SqlRow>)
    requires forall i :: 0 <= i < |es| ==> KeysOf(s, es[i].act) == {k}
    ensures var o := UndoneAll(OnKey(s, es, k), x);
            UndoneRun(s, es, RowAt(k, x)) == if o.Refused? then None else Some(RowAt(k, o.row))
    ensures Follow(OnKey(s, es, k), x) ==>
              && DoneRun(s, es, RowAt(k, x)) == RowAt(k, Left(OnKey(s, es, k), x))
              && (es != [] ==> Starts(s, es) == RowAt(k, x))
    decreases |es|
  {
    hide KeysOf, Undone, Done, UndoneAt, Before, After, Taken, ActKey, OnKey, RowAt;
    if es == [] {
      NoneOnKey(s);
    } else {
      var a := es[0].act;
      assert KeysOf(s, es[0].act) == {k};
      OneKeyStep(s, a, k, x);
      OnKeyStep(s, es, k, x);
      UndoneFirst(s, es, RowAt(k, x));
      OneKeyRun(s, es[1..], k, After(a));
      StartsOnKey(s, es[1..], k);
      if UndoneAt(a, x).Now? { OneKeyRun(s, es[1..], k, UndoneAt(a, x).row); }
    }
  }

  lemma {:induction false} StartsOnKey(s: Schema, es: seq<Entry>, k: Key)
    requires forall i :: 0 <= i < |es| ==> KeysOf(s, es[i].act) == {k}
    ensures Starts(s, es) - {k} == map[]
    decreases |es|
  {
    hide KeysOf;
    if es != [] {
      StartsOnKey(s, es[1..], k);
      TakenKeys(s, es[0].act);
      assert KeysOf(s, es[0].act) == {k};
    }
  }

  lemma RowAtIs(k: Key, x: Option<SqlRow>, y: Option<SqlRow>)
    ensures RowAt(k, x) == RowAt(k, y) <==> x == y
  {
    if x.Some? { assert k in RowAt(k, x) && RowAt(k, x)[k] == x.value; }
    if y.Some? { assert k in RowAt(k, y) && RowAt(k, y)[k] == y.value; }
  }

  /** For a key no rename touches the condition is that its history is retraced. */
  lemma OneKeyReturnsIff(s: Schema, es: seq<Entry>, k: Key, x: Option<SqlRow>)
    requires forall i :: 0 <= i < |es| ==> KeysOf(s, es[i].act) == {k}
    requires Follow(OnKey(s, es, k), x)
    ensures Returns(s, es) <==> Retraced(OnKey(s, es, k))
  {
    hide KeysOf, UndoneRun, DoneRun, Starts, OnKey, Follow, Left, UndoneAll, Retraced, RowAt;
    if es == [] {
      NoneOnKey(s);
      NothingByParts(s, {}, map[]);
      TwoRetraced(map[], map[], map[], map[]);
    } else {
      var acts := OnKey(s, es, k);
      RetracedIff(acts, x);
      OneKeyRun(s, es, k, x);
      OneKeyRun(s, es, k, Left(acts, x));
      var o := UndoneAll(acts, Left(acts, x));
      if o.Now? { RowAtIs(k, o.row, x); }
    }
  }

  lemma {:induction false} OnKeyOfPart(s: Schema, es: seq<Entry>, k: Key)
    requires Separates(s, es, {k})
    ensures var part := Part(s, es, {k}, true);
            OnKey(s, part, k) == OnKey(s, es, k) && forall i :: 0 <= i < |part| ==> KeysOf(s, part[i].act) == {k}
    decreases |es|
  {
    hide KeysOf, KeyOf, ActKey;
    if es != [] {
      OnKeyOfPart(s, es[1..], k);
      PartFirst(s, es, {k});
      KeyAmong(s, es[0].act);
      var inside := KeysOf(s, es[0].act) <= {k};
      assert inside || KeysOf(s, es[0].act) !! {k};
      var part, rest := Part(s, es, {k}, true), Part(s, es[1..], {k}, true);
      if inside { assert part == [es[0]] + rest; }
    }
  }

  lemma KeyAmong(s: Schema, a: Act)
    ensures ActKey(s, a) in KeysOf(s, a)
  {
    hide KeyOf;
  }

  /** A key no rename touches: it is judged by its history alone, the others without it. */
  lemma LoneKeyIff(s: Schema, es: seq<Entry>, k: Key, x: Option<SqlRow>)
    requires Separates(s, es, {k}) && Follow(OnKey(s, es, k), x)
    ensures Returns(s, es) <==> Retraced(OnKey(s, es, k)) && Returns(s, Part(s, es, {k}, false))
  {
    hide *;
    OnKeyOfPart(s, es, k);
    OneKeyReturnsIff(s, Part(s, es, {k}, true), k, x);
    ReturnsByParts(s, es, {k});
  }

  // ---- Two updates of one row ----

  lemma TwoUpdatesReturn(s: Schema, e: Entry, f: Entry)
    requires e.act.Upd? && f.act.Upd? && e.act.new_ == f.act.old_
    ensures var a, b, c := e.act.old_, e.act.new_, f.act.new_;
            Returns(s, [e, f]) <==> a == b || (KeyOf(s, a) != KeyOf(s, b) && KeyOf(s, b) == KeyOf(s, c))
  {
    hide KeyOf, Undone, Done, Starts, UndoneRun, DoneRun;
    var a, b, c := e.act.old_, e.act.new_, f.act.new_;
    var ka, kb, kc := KeyOf(s, a), KeyOf(s, b), KeyOf(s, c);
    assert e.act == Upd(a, b) && f.act == Upd(b, c);
    StartsOfTwo(s, e, f);
    RunOfTwo(s, e, f, map[ka := a]);
    RunOfTwo(s, e, f, map[kc := c]);
    UpdateOfOne(s, a, b, ka, a);
    UpdateOfOne(s, b, c, kb, b);
    UpdateOfOne(s, a, b, kc, c);
    UpdateOfOne(s, b, c, kc, c);
    UpdateOfOne(s, b, c, ka, a);
    assert Ends(s, [e, f]) == map[kc := c];
    assert map[ka := a] == map[kb := b] <==> a == b by { assert ka in map[ka := a] && kb in map[kb := b]; }
  }

  lemma StartsOfTwo(s: Schema, e: Entry, f: Entry)
    requires e.act.Upd? && f.act.Upd? && e.act.new_ == f.act.old_
    ensures Starts(s, [e, f]) == map[KeyOf(s, e.act.old_) := e.act.old_]
  {
    hide KeyOf;
    var two, one := [e, f], [f];
    assert two[1..] == one && one[1..] == [];
    assert Starts(s, []) == map[];
  }

  lemma RunOfOne(s: Schema, e: Entry, m: Rows)
    ensures DoneRun(s, [e], m) == Done(s, e.act, m) && UndoneRun(s, [e], m) == Undone(s, e.act, m)
  {
    hide Undone, Done;
    assert [e][1..] == [];
  }

  lemma RunOfTwo(s: Schema, e: Entry, f: Entry, m: Rows)
    ensures DoneRun(s, [e, f], m) == Done(s, f.act, Done(s, e.act, m))
    ensures UndoneRun(s, [e, f], m)
            == if Undone(s, e.act, m).None? then None else Undone(s, f.act, Undone(s, e.act, m).value)
  {
    hide Undone, Done;
    var two, one := [e, f], [f];
    assert two[1..] == one && one[1..] == [];
    RunOfOne(s, f, Done(s, e.act, m));
    if Undone(s, e.act, m).Some? { RunOfOne(s, f, Undone(s, e.act, m).value); }
  }

  /** An update on a single row. */
  lemma UpdateOfOne(s: Schema, o: SqlRow, n: SqlRow, k: Key, r: SqlRow)
    ensures Undone(s, Upd(o, n), map[k := r]) == Some(if KeyOf(s, n) == k then map[KeyOf(s, o) := o] else map[k := r])
    ensures Done(s, Upd(o, n), map[KeyOf(s, o) := o]) == map[KeyOf(s, n) := n]
  {
    hide KeyOf;
    assert map[k := r] - {k} == map[];
    assert map[KeyOf(s, o) := o] - {KeyOf(s, o)} == map[];
  }

  /** Two updates of one row in turn: undone oldest first the row is restored exactly when the first changed
      nothing, or gave it the key which the second kept. */
  lemma StoredOrderOnTwoUpdates(s: Schema, e: Entry, f: Entry, t: Table)
    requires s.Valid() && TableOk(s, t) && Applicable(s, [e, f], t) && AllFaithful(s, [e, f])
    requires e.act.Upd? && f.act.Upd? && e.act.new_ == f.act.old_
    ensures var a, b, c := e.act.old_, e.act.new_, f.act.new_;
            ExecAll(s, UndoStored([e, f]), Applied([e, f], t)) == Some(t)
            <==> a == b || (KeyOf(s, a) != KeyOf(s, b) && KeyOf(s, b) == KeyOf(s, c))
  {
    hide *;
    StoredOrderRestoresIff(s, [e, f], t);
    TwoUpdatesReturn(s, e, f);
  }

  /** A row whose key is changed twice: undone oldest first it keeps the key between. */
  lemma TwiceRenamedIsNotUndone()
    ensures
      var a, b, c := Note("1", "a"), Note("2", "a"), Note("3", "a");
      var es := [Edited(a, b), Edited(b, c)];
      Applicable(NOTES, es, {a}) && Applied(es, {a}) == {c} && ExecAll(NOTES, UndoStored(es), {c}) != Some({a})
  {
    hide Applicable, Applied, ExecAll, UndoStored, Logged, Fits, Schema.RowOk, Schema.Survives, Schema.Valid, Faithful,
         TableOk, Reserved;
    var a, b, c := Note("1", "a"), Note("2", "a"), Note("3", "a");
    OtherWords();
    NoteIsRow("1", "a");
    NoteIsRow("2", "a");
    NoteIsRow("3", "a");
    NotesAreValid();
    EditApplies(a, b);
    EditApplies(b, c);
    TwoApply(a, b, c);
    OneRowTable(NOTES, a);
    OtherKeys();
    StoredOrderOnTwoUpdates(NOTES, Edited(a, b), Edited(b, c), {a});
  }

  lemma OtherWords()
    ensures !Reserved("1") && !Reserved("2") && !Reserved("3") && !Reserved("a")
  {
  }

  lemma OtherKeys()
    ensures Note("1", "a") != Note("2", "a") && KeyOf(NOTES, Note("2", "a")) != KeyOf(NOTES, Note("3", "a"))
  {
    assert Note("1", "a")["id"] != Note("2", "a")["id"];
    assert KeyOf(NOTES, Note("2", "a"))["id"] != KeyOf(NOTES, Note("3", "a"))["id"];
  }
}
