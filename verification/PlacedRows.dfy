/** Tables without a primary key: rows at places, which a statement pins where the place is known
    (flashback_sql.go:124-145). */
module PlacedRows {
  import opened Bytes
  import opened Options
  import opened Texts
  import opened Numerals
  import opened Changes
  import opened Sql
  import opened Values
  import opened UndoRedo

  /** A line number of a block. */
  datatype Spot = Spot(block: U32, off: U16)

  type Heap = map<Spot, SqlRow>

  /** A place in a condition is written as block and line number between parentheses. */
  predicate HoldsAt(s: Schema, x: Spot, r: SqlRow, c: Cond) {
    match c
    case Equals(col, lit) => col in r && s.Meaning(col, lit) != Nil && r[col] == s.Meaning(col, lit)
    case IsNull(col) => col !in r || r[col] == Nil
    case CtidIs(text) => text == "(" + Decimal(x.block) + "," + Decimal(x.off) + ")"
  }

  predicate AllHold(s: Schema, x: Spot, r: SqlRow, where: seq<Cond>) {
    where == [] || (AllHold(s, x, r, where[..|where| - 1]) && HoldsAt(s, x, r, where[|where| - 1]))
  }

  /** The rows a statement hits. */
  function Hit(s: Schema, h: Heap, where: seq<Cond>): (hit: set<Spot>)
    ensures hit <= h.Keys
  {
    set x | x in h && AllHold(s, x, h[x], where)
  }

  /** Without a key, deleting takes all rows hit and updating rewrites them. */
  function Left(s: Schema, st: Statement, h: Heap): Option<Heap> {
    match st
    case DeleteFrom(_, where) => Some(h - Hit(s, h, where))
    case UpdateSet(_, xs, where) =>
      Some(map x | x in h :: if x in Hit(s, h, where) then Assigned(s, h[x], xs) else h[x])
    case InsertInto(_, _) => None
    case Verbatim(_) => None
    case NoStatement => None
  }

  ghost predicate Keyless(s: Schema) {
    s.pk == [] && s.cols != {} && (forall c :: c in s.cols ==> !DroppedCol(c)) && s.Sound()
  }

  // ---- Which rows the conditions hold of ----

  /** A value that comes back is asked for; one that does not is not even found where it stands. */
  lemma CondAsksAny(s: Schema, x: Spot, r: SqlRow, c: string, row: SqlRow)
    requires s.Sound() && c in row && c in r
    ensures s.Back(c, row[c]) == row[c] ==> (HoldsAt(s, x, r, Condition(c, s.ImageOf(row))) <==> r[c] == row[c])
    ensures s.Back(c, row[c]) != row[c] && r[c] == row[c] ==> !HoldsAt(s, x, r, Condition(c, s.ImageOf(row)))
  {
  }

  lemma OneMoreAsked(s: Schema, x: Spot, r: SqlRow, front: seq<string>, col: string, row: SqlRow)
    requires !DroppedCol(col)
    ensures AllHold(s, x, r, ConditionsOn(front + [col], s.ImageOf(row)))
            <==> AllHold(s, x, r, ConditionsOn(front, s.ImageOf(row)))
                 && HoldsAt(s, x, r, Condition(col, s.ImageOf(row)))
  {
    hide Condition, HoldsAt, DroppedCol, Schema.ImageOf;
    assert (front + [col])[..|front|] == front;
    var cs := ConditionsOn(front, s.ImageOf(row));
    assert (cs + [Condition(col, s.ImageOf(row))])[..|cs|] == cs;
  }

  lemma {:induction false} AllAskedOn(s: Schema, x: Spot, r: SqlRow, cols: seq<string>, row: SqlRow)
    requires s.Sound() && forall c :: c in cols ==> c in row && !DroppedCol(c) && c in r && s.Back(c, row[c]) == row[c]
    ensures AllHold(s, x, r, ConditionsOn(cols, s.ImageOf(row))) <==> forall c :: c in cols ==> r[c] == row[c]
    decreases |cols|
  {
    hide Condition, HoldsAt, DroppedCol, Schema.Back, Schema.ImageOf, Schema.Sound, AllHold, ConditionsOn;
    if cols == [] {
      NothingAsked(s, x, r, row);
    } else {
      var front, col := cols[..|cols| - 1], cols[|cols| - 1];
      assert cols == front + [col];
      AllAskedOn(s, x, r, front, row);
      CondAsksAny(s, x, r, col, row);
      OneMoreAsked(s, x, r, front, col, row);
    }
  }

  lemma NothingAsked(s: Schema, x: Spot, r: SqlRow, row: SqlRow)
    ensures AllHold(s, x, r, ConditionsOn([], s.ImageOf(row)))
  {
  }

  lemma {:induction false} NotFound(s: Schema, x: Spot, cols: seq<string>, row: SqlRow, c: string)
    requires s.Sound() && c in cols && forall c :: c in cols ==> c in row && !DroppedCol(c)
    requires s.Back(c, row[c]) != row[c]
    ensures !AllHold(s, x, row, ConditionsOn(cols, s.ImageOf(row)))
    decreases |cols|
  {
    hide Condition, HoldsAt, DroppedCol, Schema.Back, Schema.ImageOf, Schema.Sound, AllHold, ConditionsOn;
    var front, col := cols[..|cols| - 1], cols[|cols| - 1];
    assert cols == front + [col];
    OneMoreAsked(s, x, row, front, col, row);
    if col == c { CondAsksAny(s, x, row, c, row); } else { NotFound(s, x, front, row, c); }
  }

  /** Of all columns, the conditions hold of exactly the rows that equal this one, if its values come back; if
      not, they do not hold of the row itself. */
  lemma AllAsked(s: Schema, x: Spot, r: SqlRow, row: SqlRow)
    requires Keyless(s) && r.Keys == s.cols && row.Keys == s.cols
    ensures s.Survives(row) ==> (AllHold(s, x, r, Conditions([], s.ImageOf(row))) <==> r == row)
    ensures !s.Survives(row) && r == row ==> !AllHold(s, x, r, Conditions([], s.ImageOf(row)))
    ensures Conditions([], s.ImageOf(row)) != []
  {
    hide DroppedCol, Schema.Back, Schema.Sound, Sorted, ConditionsOn, AllHold;
    var image := s.ImageOf(row);
    SortedLists(image.Keys);
    assert image.Keys == s.cols;
    var some :| some in s.cols;
    assert some in Sorted(image.Keys);
    SomeCondition(Sorted(image.Keys), image);
    if s.Survives(row) {
      AllAskedOn(s, x, r, Sorted(image.Keys), row);
    } else {
      var c :| c in row && s.Back(c, row[c]) != row[c];
      NotFound(s, x, Sorted(image.Keys), row, c);
    }
  }

  lemma NoPlaceText(block: nat, off: nat)
    ensures Place(block, off) == "" <==> off == 0
  {
    hide Decimal;
  }

  lemma {:induction false} SplitAtComma(a: string, r: string, b: string, q: string)
    requires (forall i :: 0 <= i < |a| ==> a[i] != ',') && (forall i :: 0 <= i < |b| ==> b[i] != ',')
    requires a + ("," + r) == b + ("," + q)
    ensures a == b && r == q
    decreases |a|
  {
    var w := a + ("," + r);
    assert w == b + ("," + q);
    assert (a == "" ==> w[0] == ',') && (b == "" ==> w[0] == ',');
    assert (a != "" ==> w[0] == a[0]) && (b != "" ==> w[0] == b[0]);
    assert (a == "" ==> w[1..] == r) && (b == "" ==> w[1..] == q);
    if a != "" && b != "" {
      assert w[1..] == a[1..] + ("," + r) && w[1..] == b[1..] + ("," + q);
      SplitAtComma(a[1..], r, b[1..], q);
    }
  }

  /** A printed place is that of one block and line number only. */
  lemma PlaceTold(x: Spot, block: U32, off: U16)
    requires off != 0
    ensures HoldsAt(NO_COLUMNS, x, map[], CtidIs(Place(block, off))) <==> x == Spot(block, off)
  {
    hide Decimal;
    var p, q := "(" + Decimal(block) + "," + Decimal(off) + ")", "(" + Decimal(x.block) + "," + Decimal(x.off) + ")";
    assert Place(block, off) == p;
    if p == q {
      DecimalDigits(block, block);
      DecimalDigits(x.block, x.block);
      assert p[1..] == Decimal(block) + ("," + (Decimal(off) + ")"));
      assert q[1..] == Decimal(x.block) + ("," + (Decimal(x.off) + ")"));
      SplitAtComma(Decimal(block), Decimal(off) + ")", Decimal(x.block), Decimal(x.off) + ")");
      assert (Decimal(off) + ")")[..|Decimal(off)|] == Decimal(off);
      assert (Decimal(x.off) + ")")[..|Decimal(x.off)|] == Decimal(x.off);
      DecimalInjective(block, x.block);
      DecimalInjective(off, x.off);
    }
  }

  const NO_COLUMNS := Schema({}, {}, [], TEXTS_ONLY)

  // ---- The pinned statements ----

  /** The place a statement pins: the new one where it is asked for and known, else the old one. */
  function SpotOf(ch: Change, newSide: bool): Spot {
    if newSide && ch.newOff > 0 then Spot(ch.newBlock, ch.newOff) else Spot(ch.block, ch.offnum)
  }

  predicate Pins(ch: Change, newSide: bool) {
    !ch.mysql && ch.noPK && SpotOf(ch, newSide).off > 0
  }

  /** Pinned conditions hit the row at the place alone, others every equal row; none if a value does not come
      back. */
  lemma HitIs(s: Schema, h: Heap, ch: Change, row: SqlRow, newSide: bool)
    requires Keyless(s) && row.Keys == s.cols && forall x :: x in h ==> h[x].Keys == s.cols
    ensures var hit := Hit(s, h, Pinned(Conditions([], s.ImageOf(row)), ch, newSide));
            && (s.Survives(row) ==>
                  hit == set x | x in h && h[x] == row && (Pins(ch, newSide) ==> x == SpotOf(ch, newSide)))
            && (!s.Survives(row) ==> forall x :: x in hit ==> h[x] != row)
  {
    hide Conditions, AllHold, Schema.ImageOf, Schema.Survives, Place, Decimal;
    var where, y := Conditions([], s.ImageOf(row)), SpotOf(ch, newSide);
    NoPlaceText(ch.block, ch.offnum);
    NoPlaceText(ch.newBlock, ch.newOff);
    AllAsked(s, y, row, row);
    forall x | x in h
      ensures s.Survives(row) ==>
                (AllHold(s, x, h[x], Pinned(where, ch, newSide)) <==> h[x] == row && (Pins(ch, newSide) ==> x == y))
      ensures !s.Survives(row) && h[x] == row ==> !AllHold(s, x, h[x], Pinned(where, ch, newSide))
    {
      AllAsked(s, x, h[x], row);
      if Pins(ch, newSide) {
        PlaceTold(x, y.block, y.off);
        PinnedHolds(s, x, h[x], where, Place(y.block, y.off));
      }
    }
  }

  lemma PinnedHolds(s: Schema, x: Spot, r: SqlRow, where: seq<Cond>, text: string)
    ensures AllHold(s, x, r, where + [CtidIs(text)])
            <==> AllHold(s, x, r, where) && HoldsAt(NO_COLUMNS, x, map[], CtidIs(text))
  {
    hide Decimal;
    assert (where + [CtidIs(text)])[..|where|] == where;
  }

  /** A change of a table without a key, and the row it put at or took from a place. */
  ghost predicate Keeps(s: Schema, h: Heap, ch: Change, x: Spot, row: SqlRow) {
    && Keyless(s) && ch.pkCols == [] && ch.noPK && (forall y :: y in h ==> h[y].Keys == s.cols)
    && x in h && h[x] == row
  }

  /** Undoing an insert takes exactly the inserted row away if its values come back and its place is told, or
      where places are not pinned, if it is the only row of its kind; else it takes none or all of them. */
  lemma UndoInsertIff(s: Schema, h: Heap, ch: Change, x: Spot, row: SqlRow)
    requires Keeps(s, h, ch, x, row) && ch.op.Insert? && ch.after == s.ImageOf(row)
    requires Pins(ch, true) ==> x == SpotOf(ch, true)
    ensures Left(s, Undo(ch), h) == Some(h - {x})
            <==> s.Survives(row) && (Pins(ch, true) || forall y :: y in h && y != x ==> h[y] != row)
  {
    hide Conditions, Pinned, Hit, Schema.ImageOf, Schema.Survives;
    AllAsked(s, x, row, row);
    HitIs(s, h, ch, row, true);
    var hit := Hit(s, h, Pinned(Conditions([], s.ImageOf(row)), ch, true));
    TakesOnly(h, hit, x);
    if s.Survives(row) { OnlyOne(h, row, x, Pins(ch, true), SpotOf(ch, true), hit); }
  }

  lemma OnlyOne(h: Heap, row: SqlRow, x: Spot, pinned: bool, y: Spot, hit: set<Spot>)
    requires x in h && h[x] == row && (pinned ==> x == y)
    requires hit == set z | z in h && h[z] == row && (pinned ==> z == y)
    ensures hit == {x} <==> pinned || forall z :: z in h && z != x ==> h[z] != row
  {
    assert x in hit;
    if z :| z in h && z != x && h[z] == row && !pinned { assert z in hit; }
  }

  lemma TakesOnly(h: Heap, hit: set<Spot>, x: Spot)
    requires x in h && hit <= h.Keys
    ensures h - hit == h - {x} <==> hit == {x}
  {
    if h - hit == h - {x} {
      forall y | y in h ensures y in hit <==> y == x { assert y in h - hit <==> y in h - {x}; }
    }
  }

  /** The same for redoing a delete, by the old place. */
  lemma RedoDeleteIff(s: Schema, h: Heap, ch: Change, x: Spot, row: SqlRow)
    requires Keeps(s, h, ch, x, row) && ch.op.Delete? && ch.before == s.ImageOf(row)
    requires Pins(ch, false) ==> x == SpotOf(ch, false)
    ensures Left(s, Redo(ch), h) == Some(h - {x})
            <==> s.Survives(row) && (Pins(ch, false) || forall y :: y in h && y != x ==> h[y] != row)
  {
    hide Conditions, Pinned, Hit, Schema.ImageOf, Schema.Survives;
    AllAsked(s, x, row, row);
    HitIs(s, h, ch, row, false);
    var hit := Hit(s, h, Pinned(Conditions([], s.ImageOf(row)), ch, false));
    TakesOnly(h, hit, x);
    if s.Survives(row) { OnlyOne(h, row, x, Pins(ch, false), SpotOf(ch, false), hit); }
  }

  lemma AssignedAny(s: Schema, r: SqlRow, row: SqlRow)
    requires Keyless(s) && r.Keys == s.cols && row.Keys == s.cols
    ensures Assigned(s, r, Assignments(s.ImageOf(row))) == s.BackRow(row) && Assignments(s.ImageOf(row)) != []
  {
    hide Literal, DroppedCol, Sorted, Assigned, AssignmentsOn, Schema.Back, Schema.Shown, Schema.Sound;
    var image := s.ImageOf(row);
    SortedLists(image.Keys);
    AssignedOn(s, r, Sorted(image.Keys), row);
    assert r.Keys + (set c | c in Sorted(image.Keys)) == s.cols;
    assert image.Keys == s.cols;
    var some :| some in s.cols;
    assert some in Sorted(image.Keys);
    SomeAssignment(Sorted(image.Keys), image);
  }

  lemma SomeAssignment(cols: seq<string>, vals: Row)
    requires cols != [] && forall c :: c in cols ==> c in vals && !DroppedCol(c)
    ensures AssignmentsOn(cols, vals) != []
  {
    hide DroppedCol;
  }

  /** The undo statement of an update, on the rows it hits. */
  lemma UndoIsUpdate(s: Schema, h: Heap, ch: Change, old_: SqlRow, new_: SqlRow, hit: set<Spot>)
    requires ch.op.Update? && ch.pkCols == [] && ch.before == s.ImageOf(old_) && ch.after == s.ImageOf(new_)
    requires s.ImageOf(old_) != map[] && s.ImageOf(new_) != map[] && Assignments(s.ImageOf(old_)) != []
    requires Conditions([], s.ImageOf(new_)) != []
    requires hit == Hit(s, h, Pinned(Conditions([], s.ImageOf(new_)), ch, true))
    requires forall y :: y in h ==> Assigned(s, h[y], Assignments(s.ImageOf(old_))) == s.BackRow(old_)
    ensures var m := Left(s, Undo(ch), h);
            && m.Some? && m.value.Keys == h.Keys
            && forall y :: y in h ==> m.value[y] == if y in hit then s.BackRow(old_) else h[y]
  {
    hide Conditions, Assignments, Pinned, Hit, Schema.ImageOf, Assigned, Schema.BackRow, TargetOf;
    var where, xs := Pinned(Conditions([], s.ImageOf(new_)), ch, true), Assignments(s.ImageOf(old_));
    assert Undo(ch) == UpdateSet(TargetOf(ch), xs, where);
  }

  /** What an update hitting `hit` makes of the rows. */
  lemma OnlyReplaced(h: Heap, hit: set<Spot>, x: Spot, old_: SqlRow, new_: SqlRow, put: SqlRow, h': Heap)
    requires x in h && h[x] == new_ && old_ != new_ && hit <= h.Keys
    requires h'.Keys == h.Keys && forall y :: y in h ==> h'[y] == if y in hit then put else h[y]
    requires forall y :: y in hit ==> h[y] == new_
    ensures h' == h[x := old_] <==> hit == {x} && put == old_
  {
    if h' == h[x := old_] {
      assert h'[x] == old_;
      forall y | y in hit ensures y == x { assert h'[y] == h[x := old_][y]; }
    }
  }

  /** Undoing an update puts exactly the old row back under the same condition on both rows. */
  lemma UndoUpdateIff(s: Schema, h: Heap, ch: Change, x: Spot, old_: SqlRow, new_: SqlRow)
    requires Keeps(s, h, ch, x, new_) && ch.op.Update? && old_ != new_ && old_.Keys == s.cols
    requires ch.before == s.ImageOf(old_) && ch.after == s.ImageOf(new_)
    requires Pins(ch, true) ==> x == SpotOf(ch, true)
    ensures Left(s, Undo(ch), h) == Some(h[x := old_])
            <==> s.Survives(old_) && s.Survives(new_)
                 && (Pins(ch, true) || forall y :: y in h && y != x ==> h[y] != new_)
  {
    hide Conditions, Assignments, Pinned, Hit, Schema.ImageOf, Schema.Survives, Assigned, Schema.BackRow;
    AllAsked(s, x, new_, new_);
    HitIs(s, h, ch, new_, true);
    var hit := Hit(s, h, Pinned(Conditions([], s.ImageOf(new_)), ch, true));
    SurvivingRow(s, old_);
    AssignedAny(s, new_, old_);
    ImagesNotEmpty(s, old_);
    ImagesNotEmpty(s, new_);
    forall y | y in h ensures Assigned(s, h[y], Assignments(s.ImageOf(old_))) == s.BackRow(old_) {
      AssignedAny(s, h[y], old_);
    }
    UndoIsUpdate(s, h, ch, old_, new_, hit);
    var h' := Left(s, Undo(ch), h).value;
    if s.Survives(new_) {
      OnlyOne(h, new_, x, Pins(ch, true), SpotOf(ch, true), hit);
      OnlyReplaced(h, hit, x, old_, new_, s.BackRow(old_), h');
    } else {
      assert h'[x] == new_ && h[x := old_][x] == old_;
    }
  }

  lemma ImagesNotEmpty(s: Schema, row: SqlRow)
    requires Keyless(s) && row.Keys == s.cols
    ensures s.ImageOf(row) != map[]
  {
    hide Schema.Shown;
    var some :| some in s.cols;
    assert some in s.ImageOf(row);
  }
}
