/** The emitted text as a whole: reading a change's undo and redo text back and executing it. */
module UndoText {
  import opened Options
  import opened Texts
  import opened Changes
  import opened Sql
  import opened SqlReader
  import opened UndoRedo
  import opened Values

  lemma {:induction false} NoQuotesPlain(s: string)
    requires NoQuotes(s)
    ensures Plain(s)
    decreases |s|
  {
    if s != [] {
      NoQuotesPlain(s[1..]);
      assert s == [s[0]] + s[1..];
    }
  }

  lemma {:induction false} DecimalNoQuotes(n: nat)
    ensures NoQuotes(Decimal(n))
    decreases n
  {
    var d := "0123456789"[n % 10];
    assert d in "0123456789";
    if n >= 10 {
      DecimalNoQuotes(n / 10);
    }
  }

  lemma PlacePlain(block: nat, off: nat)
    ensures Plain(Place(block, off))
  {
    DecimalNoQuotes(block);
    DecimalNoQuotes(off);
    hide Decimal, Plain;
    NoQuotesPlain(Place(block, off));
  }

  /** Every value of the image is printed in a form that can be read back. */
  predicate AllOk(image: Row, esc: bool) {
    forall c :: c in image ==> LitOk(Literal(image[c]), esc)
  }

  lemma {:induction false} ConditionsOk(cols: seq<string>, vals: Row, esc: bool)
    requires AllOk(vals, esc)
    ensures forall i :: 0 <= i < |ConditionsOn(cols, vals)| ==> CondOk(ConditionsOn(cols, vals)[i], esc)
    decreases |cols|
  {
    hide Literal, DroppedCol, LitOk;
    if cols != [] {
      ConditionsOk(cols[..|cols| - 1], vals, esc);
    }
  }

  lemma {:induction false} AssignmentsOk(cols: seq<string>, vals: Row, esc: bool)
    requires AllOk(vals, esc) && forall c :: c in cols ==> c in vals
    ensures forall i :: 0 <= i < |AssignmentsOn(cols, vals)| ==> LitOk(AssignmentsOn(cols, vals)[i].lit, esc)
    decreases |cols|
  {
    hide Literal, DroppedCol, LitOk;
    if cols != [] {
      AssignmentsOk(cols[..|cols| - 1], vals, esc);
    }
  }

  lemma PinnedOk(cols: seq<string>, vals: Row, ch: Change, newSide: bool, esc: bool)
    requires AllOk(vals, esc) && Conditions(cols, vals) != []
    ensures CondsOk(Pinned(Conditions(cols, vals), ch, newSide), esc)
  {
    ConditionsOk(if cols == [] then Sorted(vals.Keys) else cols, vals, esc);
    PlacePlain(ch.block, ch.offnum);
    PlacePlain(ch.newBlock, ch.newOff);
    hide Place, Plain, ConditionsOn, AllOk;
  }

  lemma AllAssignsOk(vals: Row, esc: bool)
    requires AllOk(vals, esc) && Assignments(vals) != []
    ensures AssignsOk(Assignments(vals), esc)
  {
    hide Sorted;
    SortedLists(vals.Keys);
    AssignmentsOk(Sorted(vals.Keys), vals, esc);
  }

  /** A statement that names at least one column where it needs one. */
  predicate NamesColumns(st: Statement) {
    match st
    case InsertInto(_, xs) => xs != []
    case DeleteFrom(_, where) => where != []
    case UpdateSet(_, xs, where) => xs != [] && where != []
    case Verbatim(_) => false
    case NoStatement => false
  }

  lemma PinnedEmpty(where: seq<Cond>, ch: Change, newSide: bool)
    ensures Pinned(where, ch, newSide) == [] <==> where == []
  {
    hide Place;
  }

  /** Every undo statement of a change with readable values is read back as it was made. */
  lemma UndoTextRead(ch: Change, esc: bool)
    requires AllOk(ch.before, esc) && AllOk(ch.after, esc) && NamesColumns(Undo(ch))
    ensures ReadStatement(Print(Undo(ch), ch.mysql), ch.mysql, esc) == Some(Undo(ch))
  {
    hide AllOk, Print, ReadStatement, Conditions, Assignments, Pinned, TargetOf, CondsOk, AssignsOk;
    match ch.op {
      case Insert => PinnedOk(ch.pkCols, ch.after, ch, true, esc);
      case Delete => AllAssignsOk(ch.before, esc);
      case Update =>
        PinnedOk(ch.pkCols, if ch.after == map[] then ch.before else ch.after, ch, true, esc);
        AllAssignsOk(ch.before, esc);
    }
    PrintedIsRead(Undo(ch), ch.mysql, esc);
  }

  lemma RedoTextRead(ch: Change, esc: bool)
    requires AllOk(ch.before, esc) && AllOk(ch.after, esc) && NamesColumns(Redo(ch))
    ensures ReadStatement(Print(Redo(ch), ch.mysql), ch.mysql, esc) == Some(Redo(ch))
  {
    hide AllOk, Print, ReadStatement, Conditions, Assignments, Pinned, TargetOf, CondsOk, AssignsOk;
    match ch.op {
      case Insert => AllAssignsOk(ch.after, esc);
      case Delete => PinnedOk(ch.pkCols, ch.before, ch, false, esc);
      case Update =>
        var src := if ch.before == map[] then ch.after else ch.before;
        PinnedEmpty(Conditions(ch.pkCols, src), ch, false);
        PinnedOk(ch.pkCols, src, ch, false, esc);
        AllAssignsOk(ch.after, esc);
    }
    PrintedIsRead(Redo(ch), ch.mysql, esc);
  }

  lemma LoggedStatements(s: Schema, e: Entry)
    requires Logged(s, e)
    ensures NamesColumns(Undo(e.ch)) && NamesColumns(Redo(e.ch))
  {
    hide Assignments, Conditions, Schema.Valid, Schema.RowOk, Schema.ImageOf, TargetOf;
    match e.act {
      case Ins(r) =>
        assert r in e.act.Come();
        SomeClauses(s, r);
      case Del(r) =>
        assert r in e.act.Gone();
        SomeClauses(s, r);
      case Upd(o, n) =>
        assert o in e.act.Gone() && n in e.act.Come();
        SomeClauses(s, o);
        SomeClauses(s, n);
    }
    PinnedKept(e.ch);
  }

  lemma PinnedKept(ch: Change)
    ensures forall where, newSide :: Pinned(where, ch, newSide) == [] <==> where == []
  {
    hide Place;
  }

  /** From text to text: for a change whose printed values can be read back, the redo text and then the undo
      text, read and executed, do and undo what the change did, exactly when its statements do. */
  lemma TextInvertsIff(s: Schema, e: Entry, t: Table, esc: bool)
    requires Logged(s, e) && TableOk(s, t) && Fits(s, t, e.act.Gone(), e.act.Come())
    requires AllOk(e.ch.before, esc) && AllOk(e.ch.after, esc)
    ensures
      var redo := ReadStatement(Print(Redo(e.ch), e.ch.mysql), e.ch.mysql, esc);
      var undo := ReadStatement(Print(Undo(e.ch), e.ch.mysql), e.ch.mysql, esc);
      var t' := Replaced(t, e.act.Gone(), e.act.Come());
      && redo.Some? && undo.Some?
      && (Exec(s, redo.value, t) == Some(t') && Exec(s, undo.value, t') == Some(t)
          <==> Faithful(s, e.act) || (e.act.Upd? && Harmless(s, t, e.act.old_, e.act.new_)))
  {
    hide Print, ReadStatement, Exec, Undo, Redo, Fits, TableOk, Logged, Faithful, Harmless, AllOk, Replaced;
    LoggedStatements(s, e);
    RedoTextRead(e.ch, esc);
    UndoTextRead(e.ch, esc);
    UndoInvertsIff(s, e, t);
  }
}
