/** Walking the attributes of a heap tuple (flashback_datum.go; heap and WAL tuples in
    flashback_walparse.go). The printing of single values is a parameter. */
module Tuples {
  import opened Bytes
  import opened Options
  import opened Changes

  const TUPLE_HEADER := 23
  const WAL_HEADER := 5
  const POINTER_SIZE := 18
  const HAS_NULL := 1
  const NULL_MARK := "\\N"

  datatype Column = Column(name: string, typlen: int, typalign: char, dropped: bool)

  /** How values are printed: fixed-size ones, inline variable-size ones, and TOAST pointers; nothing
      where a value cannot be decoded. */
  datatype Printer = Printer(fixed: (Bytes, Column) -> Option<string>,
                             inline_: (Bytes, Column) -> Option<string>,
                             external: (Bytes, Column) -> Option<string>)

  function AlignSize(typalign: char): nat {
    if typalign == 'c' then 1 else if typalign == 's' then 2 else if typalign == 'i' then 4 else 8
  }

  function Align(off: nat, typalign: char): (r: nat)
    ensures r >= off
  {
    var a := AlignSize(typalign);
    if off % a != 0 then off + (a - off % a) else off
  }

  /** A short value may start anywhere; a zero byte means padding before an aligned one. */
  function AlignPointer(raw: Bytes, off: nat, col: Column): (r: nat)
    ensures r >= off
  {
    if col.typlen < 0 && off < |raw| && raw[off] != 0 then off else Align(off, col.typalign)
  }

  datatype Varlena = BadVarlena | External(size: nat) | Inline(data: Bytes, size: nat)

  function ReadVarlena(b: Bytes): (v: Varlena)
    ensures !v.BadVarlena? ==> 0 < v.size <= |b|
  {
    if |b| < 1 then BadVarlena
    else if b[0] == 1 then
      if |b| < POINTER_SIZE then BadVarlena else External(POINTER_SIZE)
    else if b[0] % 2 == 1 then
      var n := b[0] as int / 2;
      if n < 1 || |b| < n then BadVarlena else Inline(b[1..n], n)
    else if |b| < 4 then BadVarlena
    else
      var n := LE32(b, 0) / 4;
      if n < 4 || |b| < n then BadVarlena else Inline(b[4..n], n)
  }

  datatype Datum = BadDatum | Datum(text: string, size: nat)

  function Shown(text: Option<string>, size: nat): Datum {
    if text.None? then BadDatum else Datum(text.value, size)
  }

  predicate IsPointer(b: Bytes) {
    |b| >= POINTER_SIZE && b[0] == 1 && LE32(b, 10) != 0
  }

  function ReadDatum(p: Printer, b: Bytes, col: Column): (d: Datum) {
    if col.typlen > 0 then
      if |b| < col.typlen then BadDatum
      else if col.dropped then Datum("", col.typlen)
      else Shown(p.fixed(b[..col.typlen], col), col.typlen)
    else if !col.dropped && IsPointer(b) then Shown(p.external(b[..POINTER_SIZE], col), POINTER_SIZE)
    else
      match ReadVarlena(b)
      case BadVarlena => BadDatum
      case External(n) => Datum(NULL_MARK, n)
      case Inline(data, n) => if col.dropped then Datum("", n) else Shown(p.inline_(data, col), n)
  }

  const POWERS := [1, 2, 4, 8, 16, 32, 64, 128]

  /** Bit i of a null bitmap: set for a value that is there. */
  predicate Present(bits: Bytes, i: nat)
    requires i / 8 < |bits|
  {
    HasFlag(bits[i / 8] as int, POWERS[i % 8])
  }

  function Cell(col: Column, text: string): Row {
    if col.dropped then map[] else map[col.name := text]
  }

  /** What one column gives: a last value, or a value and the offset to go on from. */
  datatype Step = Stop(cell: Row) | Go(cell: Row, next: nat)

  function Visit(p: Printer, cols: seq<Column>, i: nat, bits: Bytes, raw: Bytes, off: nat): (s: Step)
    requires i < |cols| && (bits == [] || |bits| == (|cols| + 7) / 8)
    ensures s.Go? ==> s.next >= off
  {
    if bits != [] && !Present(bits, i) then Go(Cell(cols[i], NULL_MARK), off)
    else
      var at := AlignPointer(raw, off, cols[i]);
      if at >= |raw| then Stop(map[])
      else
        match ReadDatum(p, raw[at..], cols[i])
        case BadDatum => Stop(Cell(cols[i], NULL_MARK))
        case Datum(text, n) => Go(Cell(cols[i], text), at + n)
  }

  /** The values of columns `i` on, read from offset `off`; an undecodable value ends the walk. */
  function Walk(p: Printer, cols: seq<Column>, i: nat, bits: Bytes, raw: Bytes, off: nat): Row
    requires i <= |cols| && (bits == [] || |bits| == (|cols| + 7) / 8)
    decreases |cols| - i
  {
    if i == |cols| then map[]
    else
      match Visit(p, cols, i, bits, raw, off)
      case Stop(cell) => cell
      case Go(cell, next) => cell + Walk(p, cols, i + 1, bits, raw, next)
  }

  function NullBits(cols: seq<Column>, raw: Bytes, infomask: nat): (bits: Bytes)
    ensures bits == [] || |bits| == (|cols| + 7) / 8
  {
    var n := (|cols| + 7) / 8;
    if HasFlag(infomask, HAS_NULL) && TUPLE_HEADER + n <= |raw| then raw[TUPLE_HEADER..TUPLE_HEADER + n] else []
  }

  function Attrs(p: Printer, cols: seq<Column>, raw: Bytes, infomask: nat, dataOff: nat): Row {
    Walk(p, cols, 0, NullBits(cols, raw, infomask), raw, dataOff)
  }

  /** The data offset of a tuple, from its header; 24 where the header's makes no sense. */
  function DataOff(raw: Bytes): nat
    requires |raw| >= TUPLE_HEADER
  {
    var hoff := raw[22] as int;
    if hoff < TUPLE_HEADER || hoff > |raw| then 24 else hoff
  }

  function HeapTuple(p: Printer, cols: seq<Column>, raw: Bytes): Row {
    if |raw| < TUPLE_HEADER || DataOff(raw) > |raw| then map[]
    else Attrs(p, cols, raw, LE16(raw, 20), DataOff(raw))
  }

  /** A WAL tuple made whole: header fields put back in place, the rest of the header zero. */
  function Whole(raw: Bytes): Bytes
    requires |raw| >= WAL_HEADER
  {
    Zeros(18) + raw[..5] + raw[5..]
  }

  function XLogTuple(p: Printer, cols: seq<Column>, raw: Bytes): Row {
    if |raw| < WAL_HEADER then map[] else HeapTuple(p, cols, Whole(raw))
  }

  // ---- The walk as it runs ----

  lemma Onward(out: Row, p: Printer, cols: seq<Column>, i: nat, bits: Bytes, raw: Bytes, off: nat)
    requires i < |cols| && (bits == [] || |bits| == (|cols| + 7) / 8)
    ensures var s := Visit(p, cols, i, bits, raw, off);
            out + Walk(p, cols, i, bits, raw, off)
            == if s.Stop? then out + s.cell else out + s.cell + Walk(p, cols, i + 1, bits, raw, s.next)
  {
    hide Visit;
    var s := Visit(p, cols, i, bits, raw, off);
    if s.Go? {
      var w := Walk(p, cols, i + 1, bits, raw, s.next);
      assert out + (s.cell + w) == out + s.cell + w;
    }
  }

  lemma WalkEnds(p: Printer, cols: seq<Column>, bits: Bytes, raw: Bytes)
    requires bits == [] || |bits| == (|cols| + 7) / 8
    ensures forall off: nat :: Walk(p, cols, |cols|, bits, raw, off) == map[]
  {
  }

  lemma WithCell(out: Row, col: Column, text: string)
    ensures out + Cell(col, text) == if col.dropped then out else out[col.name := text]
  {
  }

  method DecodeAttrs(p: Printer, cols: seq<Column>, raw: Bytes, infomask: nat, dataOff: nat) returns (out: Row)
    ensures out == Attrs(p, cols, raw, infomask, dataOff)
  {
    hide ReadDatum, AlignPointer, Present, NullBits, Walk, Cell;
    var bits := NullBits(cols, raw, infomask);
    var off: nat := dataOff;
    out := map[];
    WalkEnds(p, cols, bits, raw);
    for i := 0 to |cols|
      invariant Attrs(p, cols, raw, infomask, dataOff) == out + Walk(p, cols, i, bits, raw, off)
    {
      var col := cols[i];
      Onward(out, p, cols, i, bits, raw, off);
      if |bits| > 0 {
        if !Present(bits, i) {
          WithCell(out, col, NULL_MARK);
          if !col.dropped { out := out[col.name := NULL_MARK]; }
          continue;
        }
      }
      off := AlignPointer(raw, off, col);
      if off >= |raw| { break; }
      match ReadDatum(p, raw[off..], col) {
        case BadDatum =>
          WithCell(out, col, NULL_MARK);
          if !col.dropped { out := out[col.name := NULL_MARK]; }
          break;
        case Datum(text, n) =>
          WithCell(out, col, text);
          off := off + n;
          if col.dropped { continue; }
          out := out[col.name := text];
      }
    }
  }

  // ---- The WAL form of a tuple decodes like the tuple ----

  /** What the WAL stores of a tuple: two flag fields, the data offset, and all after the header. */
  function Stripped(tuple: Bytes): Bytes
    requires |tuple| >= TUPLE_HEADER
  {
    tuple[18..23] + tuple[TUPLE_HEADER..]
  }

  /** Two tuples that agree after the header. */
  predicate SameData(a: Bytes, b: Bytes) {
    |a| == |b| && |a| >= TUPLE_HEADER && a[TUPLE_HEADER..] == b[TUPLE_HEADER..]
  }

  lemma SameTail(a: Bytes, b: Bytes, off: nat)
    requires SameData(a, b) && TUPLE_HEADER <= off < |a|
    ensures a[off] == b[off] && a[off..] == b[off..]
  {
    assert a[off] == a[TUPLE_HEADER..][off - TUPLE_HEADER] && b[off] == b[TUPLE_HEADER..][off - TUPLE_HEADER];
    assert a[off..] == a[TUPLE_HEADER..][off - TUPLE_HEADER..] && b[off..] == b[TUPLE_HEADER..][off - TUPLE_HEADER..];
  }

  lemma SameVisit(p: Printer, cols: seq<Column>, i: nat, bits: Bytes, a: Bytes, b: Bytes, off: nat)
    requires i < |cols| && (bits == [] || |bits| == (|cols| + 7) / 8)
    requires SameData(a, b) && TUPLE_HEADER <= off
    ensures Visit(p, cols, i, bits, a, off) == Visit(p, cols, i, bits, b, off)
  {
    hide ReadDatum, Present, Align, SameData;
    SameLength(a, b);
    if off < |a| { SameTail(a, b, off); }
    var at := AlignPointer(a, off, cols[i]);
    if at < |a| { SameTail(a, b, at); }
  }

  lemma SameLength(a: Bytes, b: Bytes)
    requires SameData(a, b)
    ensures |a| == |b|
  {
  }

  lemma {:induction false} WalkReadsData(p: Printer, cols: seq<Column>, i: nat, bits: Bytes, a: Bytes, b: Bytes,
        off: nat)
    requires i <= |cols| && (bits == [] || |bits| == (|cols| + 7) / 8)
    requires SameData(a, b) && TUPLE_HEADER <= off
    ensures Walk(p, cols, i, bits, a, off) == Walk(p, cols, i, bits, b, off)
    decreases |cols| - i
  {
    hide Visit, SameData;
    if i < |cols| {
      SameVisit(p, cols, i, bits, a, b, off);
      var s := Visit(p, cols, i, bits, a, off);
      if s.Go? { WalkReadsData(p, cols, i + 1, bits, a, b, s.next); }
    }
  }

  /** For every tuple, whatever its bytes: the WAL form decodes to the same values. */
  lemma StrippedDecodesAlike(p: Printer, cols: seq<Column>, tuple: Bytes)
    requires |tuple| >= TUPLE_HEADER
    ensures XLogTuple(p, cols, Stripped(tuple)) == HeapTuple(p, cols, tuple)
  {
    hide Walk, LE16, HasFlag;
    var w := Whole(Stripped(tuple));
    assert w[TUPLE_HEADER..] == tuple[TUPLE_HEADER..] && |w| == |tuple|;
    assert w[22] == tuple[22] && w[20] == tuple[20] && w[21] == tuple[21];
    assert LE16(w, 20) == LE16(tuple, 20) by { SameField(w, tuple); }
    var n := (|cols| + 7) / 8;
    if TUPLE_HEADER + n <= |tuple| {
      assert w[TUPLE_HEADER..TUPLE_HEADER + n] == w[TUPLE_HEADER..][..n];
      assert tuple[TUPLE_HEADER..TUPLE_HEADER + n] == tuple[TUPLE_HEADER..][..n];
    }
    if DataOff(tuple) <= |tuple| {
      WalkReadsData(p, cols, 0, NullBits(cols, tuple, LE16(tuple, 20)), w, tuple, DataOff(tuple));
    }
  }

  lemma SameField(a: Bytes, b: Bytes)
    requires |a| >= 22 && |b| >= 22 && a[20] == b[20] && a[21] == b[21]
    ensures LE16(a, 20) == LE16(b, 20)
  {
  }
}
