/** Tuples stored before columns were added: exactly when the reader, which sizes the null bitmap by the
    columns of now, gives the stored row (flashbackDecodeAttrs in flashback_datum.go). */
module ShortTuples {
  import opened Bytes
  import opened Options
  import opened Changes
  import opened Tuples
  import opened TupleForm

  /** For every tuple too short for that bitmap: it is read as if nothing in it were null. */
  lemma ReadWithoutNulls(p: Printer, cols: seq<Column>, vals: seq<StoredValue>, h: Header)
    requires WellFormed(cols, vals, h) && !BitmapInside(cols, Form(cols, vals, h), h.infomask)
    ensures var raw := Form(cols, vals, h);
            var row := Walk(p, cols, 0, [], raw, DataAt(h, vals));
            HeapTuple(p, cols, raw) == row && XLogTuple(p, cols, Stripped(raw)) == row
  {
    hide Form, Data, NullMap, AllFit, Walk, DataOff, DataAt, HasFlag;
    FormedHeader(cols, vals, h);
    StrippedDecodesAlike(p, cols, Form(cols, vals, h));
  }

  // ---- What the row says ----

  predicate DistinctLive(cols: seq<Column>) {
    forall j, k :: 0 <= j < k < |cols| && !cols[j].dropped && !cols[k].dropped ==> cols[j].name != cols[k].name
  }

  predicate NullOrAbsent(row: Row, name: string) {
    name in row ==> row[name] == NULL_MARK
  }

  /** Stored values have their text; nulls and columns added since read as null or not at all. */
  predicate TellsRight(p: Printer, cols: seq<Column>, vals: seq<StoredValue>, row: Row)
    requires AllPrinted(p, cols, vals)
  {
    forall k :: 0 <= k < |cols| && !cols[k].dropped ==>
      if k < |vals| && !vals[k].Null?
      then cols[k].name in row && row[cols[k].name] == Printed(p, cols[k], vals[k]).value
      else NullOrAbsent(row, cols[k].name)
  }

  /** The number of values before the first null. */
  function Leading(vals: seq<StoredValue>): (m: nat)
    ensures m <= |vals| && (forall i :: 0 <= i < m ==> !vals[i].Null?) && (m < |vals| ==> vals[m].Null?)
  {
    if vals == [] || vals[0].Null? then 0 else 1 + Leading(vals[1..])
  }

  /** No null stands before a stored value. */
  predicate NullsLast(vals: seq<StoredValue>) {
    forall j, k :: 0 <= j < k < |vals| && vals[j].Null? ==> vals[k].Null?
  }

  /** Where the data of values `i` to `m` ends. */
  function Reach(cols: seq<Column>, vals: seq<StoredValue>, i: nat, m: nat, off: nat): nat
    requires AllFit(cols, vals) && i <= m <= |vals|
    decreases m - i
  {
    if i == m then off else Reach(cols, vals, i + 1, m, off + Pad(cols[i], vals[i], off) + |Body(vals[i])|)
  }

  lemma {:induction false} WalkLeading(p: Printer, cols: seq<Column>, vals: seq<StoredValue>, i: nat, m: nat,
        raw: Bytes, off: nat)
    requires i <= m <= |vals| && AllFit(cols, vals) && AllPrinted(p, cols, vals) && AllPrinted(p, cols, vals[..m])
    requires forall k :: 0 <= k < m ==> !vals[k].Null?
    requires off <= |raw| && raw[off..] == Data(cols, vals, i, off)
    ensures var next := Reach(cols, vals, i, m, off);
            && next <= |raw| && raw[next..] == Data(cols, vals, m, next)
            && Walk(p, cols, i, [], raw, off) == Told(p, cols, vals[..m], i) + Walk(p, cols, m, [], raw, next)
    decreases m - i
  {
    hide Pad, Body, Visit, Cell, Printed, Data;
    if i < m {
      var piece := Zeros(Pad(cols[i], vals[i], off)) + Body(vals[i]);
      var next := off + |piece|;
      NextPiece(cols, vals, i, off);
      VisitFormed(p, cols, i, [], raw, off, vals[i], Data(cols, vals, i + 1, next));
      WalkLeading(p, cols, vals, i + 1, m, raw, next);
      var rest := Walk(p, cols, m, [], raw, Reach(cols, vals, i, m, off));
      MoreTold(p, cols, vals[..m], i, rest);
    } else {
      var w := Walk(p, cols, m, [], raw, off);
      assert map[] + w == w;
    }
  }

  lemma {:induction false} NothingFrom(cols: seq<Column>, vals: seq<StoredValue>, i: nat, off: nat)
    requires AllFit(cols, vals) && i <= |vals| && forall k :: i <= k < |vals| ==> vals[k].Null?
    ensures Data(cols, vals, i, off) == []
    decreases |vals| - i
  {
    hide Fits, Pad, Body;
    if i < |vals| { NothingFrom(cols, vals, i + 1, off); }
  }

  lemma {:induction false} WalkNames(p: Printer, cols: seq<Column>, i: nat, raw: Bytes, off: nat)
    requires i <= |cols|
    ensures forall name :: name in Walk(p, cols, i, [], raw, off) ==>
              exists k :: i <= k < |cols| && !cols[k].dropped && cols[k].name == name
    decreases |cols| - i
  {
    hide ReadDatum, AlignPointer;
    if i < |cols| {
      var s := Visit(p, cols, i, [], raw, off);
      if s.Go? { WalkNames(p, cols, i + 1, raw, s.next); }
    }
  }

  /** A printer whose texts are never the null mark. */
  ghost predicate PrintsValues(p: Printer) {
    forall b, col :: p.fixed(b, col) != Some(NULL_MARK) && p.inline_(b, col) != Some(NULL_MARK)
                     && p.external(b, col) != Some(NULL_MARK)
  }

  /** What stands at an offset is not what a pointer to an out-of-line value begins with, or no such pointer
      is looked for. */
  predicate NoPointerAt(col: Column, raw: Bytes, off: nat) {
    col.typlen > 0 || (var at := AlignPointer(raw, off, col); at >= |raw| || raw[at] != 1)
  }

  lemma ReadsNoNull(p: Printer, col: Column, b: Bytes)
    requires PrintsValues(p) && !col.dropped && (col.typlen > 0 || (b != [] && b[0] != 1))
    ensures var d := ReadDatum(p, b, col); d.BadDatum? || d.text != NULL_MARK
  {
  }

  /** A column is read as something else than null, or the walk ends with it. */
  lemma VisitSays(p: Printer, cols: seq<Column>, j: nat, raw: Bytes, off: nat)
    requires PrintsValues(p) && j < |cols| && !cols[j].dropped && NoPointerAt(cols[j], raw, off)
    ensures var s := Visit(p, cols, j, [], raw, off);
            if s.Stop? then s.cell in {map[], map[cols[j].name := NULL_MARK]}
            else cols[j].name in s.cell && s.cell[cols[j].name] != NULL_MARK
  {
    hide ReadDatum, AlignPointer, PrintsValues;
    var at := AlignPointer(raw, off, cols[j]);
    if at < |raw| {
      assert raw[at..][0] == raw[at];
      ReadsNoNull(p, cols[j], raw[at..]);
    }
  }

  /** A row with values before a null, and what the walk gives from there, is wrong when a live stored
      value stands behind the null. */
  lemma MisreadFrom(p: Printer, cols: seq<Column>, vals: seq<StoredValue>, k: nat, raw: Bytes, off: nat)
    requires AllFit(cols, vals) && AllPrinted(p, cols, vals) && AllPrinted(p, cols, vals[..Leading(vals)])
    requires DistinctLive(cols) && PrintsValues(p) && Leading(vals) < k < |vals| && !vals[k].Null?
    requires !cols[Leading(vals)].dropped && !cols[k].dropped && NoPointerAt(cols[Leading(vals)], raw, off)
    ensures var j := Leading(vals);
            !TellsRight(p, cols, vals, Told(p, cols, vals[..j], 0) + Walk(p, cols, j, [], raw, off))
  {
    hide Fits, Printed, Visit, PrintsValues, NoPointerAt;
    var j := Leading(vals);
    var front, back := Told(p, cols, vals[..j], 0), Walk(p, cols, j, [], raw, off);
    ToldByName(p, cols, vals[..j], 0);
    VisitSays(p, cols, j, raw, off);
    var s := Visit(p, cols, j, [], raw, off);
    if s.Stop? {
      assert cols[k].name !in front && cols[k].name !in back;
    } else {
      WalkNames(p, cols, j + 1, raw, s.next);
      assert cols[j].name !in Walk(p, cols, j + 1, [], raw, s.next);
      assert back[cols[j].name] == s.cell[cols[j].name];
    }
  }

  lemma PrintedPart(p: Printer, cols: seq<Column>, vals: seq<StoredValue>, m: nat)
    requires AllPrinted(p, cols, vals) && m <= |vals|
    ensures AllPrinted(p, cols, vals[..m])
  {
    hide Printed;
  }

  /** With its bitmap inside, every tuple is told right. */
  lemma InsideIsRight(p: Printer, cols: seq<Column>, vals: seq<StoredValue>, h: Header)
    requires WellFormed(cols, vals, h) && AllPrinted(p, cols, vals) && DistinctLive(cols)
    requires BitmapInside(cols, Form(cols, vals, h), h.infomask)
    ensures TellsRight(p, cols, vals, HeapTuple(p, cols, Form(cols, vals, h)))
  {
    hide Form, HeapTuple, WellFormed, NullBits, Told, Missing;
    var bits := NullBits(cols, Form(cols, vals, h), h.infomask);
    FormedRead(p, cols, vals, h);
    ToldByName(p, cols, vals, 0);
    MissingByName(cols, bits, |vals|);
    var told, missing := Told(p, cols, vals, 0), Missing(cols, bits, |vals|);
    forall k | 0 <= k < |vals| && !cols[k].dropped ensures cols[k].name !in missing {}
    forall k | |vals| <= k < |cols| && !cols[k].dropped ensures cols[k].name !in told {}
  }

  lemma NullsLastIsRight(p: Printer, cols: seq<Column>, vals: seq<StoredValue>, raw: Bytes, off: nat)
    requires AllFit(cols, vals) && AllPrinted(p, cols, vals) && DistinctLive(cols) && NullsLast(vals)
    requires off <= |raw| && raw[off..] == Data(cols, vals, 0, off)
    ensures TellsRight(p, cols, vals, Walk(p, cols, 0, [], raw, off))
  {
    hide Fits, Data, Walk, Printed, Told;
    var m := Leading(vals);
    PrintedPart(p, cols, vals, m);
    WalkLeading(p, cols, vals, 0, m, raw, off);
    var next := Reach(cols, vals, 0, m, off);
    NothingFrom(cols, vals, m, next);
    assert next == |raw|;
    WalkPastEnd(p, cols, m, [], raw);
    ToldByName(p, cols, vals[..m], 0);
    NoneMissing(cols, m);
    var told := Told(p, cols, vals[..m], 0);
    assert told + map[] == told;
    forall k | m <= k < |cols| && !cols[k].dropped ensures cols[k].name !in told {}
  }

  lemma NoneMissing(cols: seq<Column>, m: nat)
    requires m <= |cols|
    ensures Missing(cols, [], m) == map[]
  {
  }

  lemma NullBetweenIsWrong(p: Printer, cols: seq<Column>, vals: seq<StoredValue>, raw: Bytes, off: nat)
    requires AllFit(cols, vals) && AllPrinted(p, cols, vals) && DistinctLive(cols) && PrintsValues(p)
    requires !NullsLast(vals)
    requires forall k :: 0 <= k < |vals| ==> !cols[k].dropped
    requires off <= |raw| && raw[off..] == Data(cols, vals, 0, off)
    requires Leading(vals) < |vals| && NoPointerAt(cols[Leading(vals)], raw, Reach(cols, vals, 0, Leading(vals), off))
    ensures !TellsRight(p, cols, vals, Walk(p, cols, 0, [], raw, off))
  {
    hide Fits, Data, Walk, Printed, Told, Reach, PrintsValues, NoPointerAt;
    var m := Leading(vals);
    PrintedPart(p, cols, vals, m);
    WalkLeading(p, cols, vals, 0, m, raw, off);
    var j, k :| 0 <= j < k < |vals| && vals[j].Null? && !vals[k].Null?;
    MisreadFrom(p, cols, vals, k, raw, Reach(cols, vals, 0, m, off));
  }

  /** Of a table without dropped columns, a stored tuple is read right if and only if the bitmap the reader
      expects lies inside it or no null stands before a stored value. (A printer never prints the null mark,
      and what follows the values before the first null does not begin like a pointer.) */
  lemma ReadRightIff(p: Printer, cols: seq<Column>, vals: seq<StoredValue>, h: Header)
    requires WellFormed(cols, vals, h) && AllPrinted(p, cols, vals) && DistinctLive(cols) && PrintsValues(p)
    requires forall k :: 0 <= k < |vals| ==> !cols[k].dropped
    requires var m := Leading(vals);
             m < |vals| ==> NoPointerAt(cols[m], Form(cols, vals, h), Reach(cols, vals, 0, m, DataAt(h, vals)))
    ensures var raw := Form(cols, vals, h);
            && (TellsRight(p, cols, vals, HeapTuple(p, cols, raw)) <==>
                BitmapInside(cols, raw, h.infomask) || NullsLast(vals))
            && XLogTuple(p, cols, Stripped(raw)) == HeapTuple(p, cols, raw)
  {
    hide Form, Data, Walk, HeapTuple, XLogTuple, TellsRight, Reach, NullMap, HasFlag, AllPrinted, DistinctLive,
         PrintsValues, NoPointerAt, DataAt;
    var raw := Form(cols, vals, h);
    FormedHeader(cols, vals, h);
    StrippedDecodesAlike(p, cols, raw);
    if BitmapInside(cols, raw, h.infomask) {
      InsideIsRight(p, cols, vals, h);
    } else {
      ReadWithoutNulls(p, cols, vals, h);
      if NullsLast(vals) { NullsLastIsRight(p, cols, vals, raw, DataAt(h, vals)); }
      else { NullBetweenIsWrong(p, cols, vals, raw, DataAt(h, vals)); }
    }
  }

  // ---- A null that is hidden ----

  /** A tuple too short for the reader's bitmap is read as if it had no nulls: with 15 columns added to
      two one-byte columns, the second one's value is given to the first, which is null. */
  lemma {:induction false} ShortTupleHidesNull(p: Printer, cols: seq<Column>, x: Byte, text: string, front: Bytes,
        infomask2: U16)
    requires |cols| >= 17 && |front| == 18 && p.fixed([x], cols[0]) == Some(text)
    requires forall i :: 0 <= i < 2 ==> cols[i].typlen == 1 && cols[i].typalign == 'c' && !cols[i].dropped
    ensures var vals, h := [Null, Fixed([x])], Header(front, infomask2, 1, []);
            WellFormed(cols, vals, h) && !BitmapInside(cols, Form(cols, vals, h), 1)
            && HeapTuple(p, cols, Form(cols, vals, h)) == map[cols[0].name := text]
  {
    hide Bitmap, NullMap, Form;
    var vals, h := [Null, Fixed([x])], Header(front, infomask2, 1, []);
    MapIsBitmap(h, vals);
    assert |Bitmap(vals)| == 1 && HasFlag(1, HAS_NULL);
    var raw := Form(cols, vals, h);
    FormedHeader(cols, vals, h);
    assert Data(cols, vals, 0, 24) == [x] by { OneByteData(cols, x); }
    assert |raw| == 25 && raw[24..] == [x];
    assert NullBits(cols, raw, 1) == [];
    OneByteWalk(p, cols, x, text, raw);
  }

  lemma MapIsBitmap(h: Header, vals: seq<StoredValue>)
    requires h.infomask == 1
    ensures NullMap(h, vals) == Bitmap(vals)
  {
    hide Bitmap;
  }

  lemma {:induction false} OneByteData(cols: seq<Column>, x: Byte)
    requires |cols| >= 2 && forall i :: 0 <= i < 2 ==> cols[i].typlen == 1 && cols[i].typalign == 'c'
    ensures AllFit(cols, [Null, Fixed([x])]) && Data(cols, [Null, Fixed([x])], 0, 24) == [x]
  {
    var vals := [Null, Fixed([x])];
    assert Data(cols, vals, 1, 24) == Zeros(0) + [x] + Data(cols, vals, 2, 25);
    assert Data(cols, vals, 0, 24) == Data(cols, vals, 1, 24);
  }

  lemma {:induction false} OneByteWalk(p: Printer, cols: seq<Column>, x: Byte, text: string, raw: Bytes)
    requires |cols| >= 2 && |raw| == 25 && raw[24..] == [x] && p.fixed([x], cols[0]) == Some(text)
    requires forall i :: 0 <= i < 2 ==> cols[i].typlen == 1 && cols[i].typalign == 'c' && !cols[i].dropped
    ensures Walk(p, cols, 0, [], raw, 24) == map[cols[0].name := text]
  {
    assert raw[24..][..1] == [x];
    assert Visit(p, cols, 0, [], raw, 24) == Go(map[cols[0].name := text], 25);
    assert Visit(p, cols, 1, [], raw, 25) == Stop(map[]);
    assert Walk(p, cols, 1, [], raw, 25) == map[];
  }
}
