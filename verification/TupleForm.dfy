/** Forming a heap tuple as PostgreSQL lays it out, and reading it back. */
module TupleForm {
  import opened Bytes
  import opened Options
  import opened Changes
  import opened Tuples
  import opened Lists

  /** A column's value: null, of fixed size, of variable size with a 1-byte or a 4-byte header, or stored out of
      line, with 17 bytes behind the tag of the pointer. */
  datatype StoredValue = Null | Fixed(data: Bytes) | Short(data: Bytes) | Long(data: Bytes) | Outside(data: Bytes)

  predicate Fits(col: Column, v: StoredValue) {
    match v
    case Null => true
    case Fixed(d) => col.typlen > 0 && |d| == col.typlen
    case Short(d) => col.typlen < 0 && |d| + 1 <= 127
    case Long(d) => col.typlen < 0 && |d| + 4 < 0x4000_0000
    case Outside(d) => col.typlen < 0 && |d| == 17 && (d[9] != 0 || d[10] != 0 || d[11] != 0 || d[12] != 0)
  }

  function Body(v: StoredValue): (b: Bytes)
    requires v.Short? ==> |v.data| + 1 <= 127
    requires v.Long? ==> |v.data| + 4 < 0x4000_0000
    ensures v.Short? || v.Long? || v.Outside? ==> b != []
  {
    match v
    case Null => []
    case Fixed(d) => d
    case Short(d) => [(2 * (|d| + 1) + 1) as Byte] + d
    case Long(d) => Put32(4 * (|d| + 4)) + d
    case Outside(d) => [1] + d
  }

  /** The offsets at which values of a column may start: multiples of 1, 2, 4 or 8 bytes. */
  predicate MayStart(col: Column, off: nat) {
    match col.typalign
    case 'c' => true
    case 's' => off % 2 == 0
    case 'i' => off % 4 == 0
    case _ => off % 8 == 0
  }

  /** The first such offset from `off` on. */
  function NextStart(col: Column, off: nat): (at: nat)
    ensures off <= at && MayStart(col, at) && forall k :: off <= k < at ==> !MayStart(col, k)
    decreases 7 - off % 8
  {
    hide MayStart;
    EighthStarts(col, off);
    if MayStart(col, off) then off else if off % 8 == 7 then off + 1 else NextStart(col, off + 1)
  }

  lemma EighthStarts(col: Column, off: nat)
    ensures off % 8 == 7 ==> MayStart(col, off + 1)
    ensures off % 8 < 7 ==> (off + 1) % 8 == off % 8 + 1
  {
  }

  /** The fewest zero bytes before a value that bring it to where it may start; short values and pointers are
      packed without any. */
  function Pad(col: Column, v: StoredValue, off: nat): nat {
    if v.Short? || v.Outside? then 0 else NextStart(col, off) - off
  }

  lemma AlignedStart(col: Column, off: nat)
    ensures MayStart(col, Align(off, col.typalign))
    ensures forall k :: off <= k < Align(off, col.typalign) ==> !MayStart(col, k)
  {
  }

  /** The reader aligns to the same place. */
  lemma NextIsAligned(col: Column, off: nat)
    ensures NextStart(col, off) == Align(off, col.typalign)
  {
    hide Align, MayStart;
    AlignedStart(col, off);
  }

  predicate AllFit(cols: seq<Column>, vals: seq<StoredValue>) {
    |vals| <= |cols| && forall i :: 0 <= i < |vals| ==> Fits(cols[i], vals[i])
  }

  /** The data of values `i` on, for a data area that reaches offset `off`. */
  function Data(cols: seq<Column>, vals: seq<StoredValue>, i: nat, off: nat): Bytes
    requires AllFit(cols, vals) && i <= |vals|
    decreases |vals| - i
  {
    if i == |vals| then []
    else if vals[i].Null? then Data(cols, vals, i + 1, off)
    else
      var piece := Zeros(Pad(cols[i], vals[i], off)) + Body(vals[i]);
      piece + Data(cols, vals, i + 1, off + |piece|)
  }

  /** What the printer makes of a value; nothing where it cannot print it. */
  function Printed(p: Printer, col: Column, v: StoredValue): Option<string> {
    if v.Null? then Some(NULL_MARK)
    else if col.dropped then Some(if v.Outside? then NULL_MARK else "")
    else if v.Outside? then p.external([1] + v.data, col)
    else if v.Fixed? then p.fixed(v.data, col)
    else p.inline_(v.data, col)
  }

  predicate AllPrinted(p: Printer, cols: seq<Column>, vals: seq<StoredValue>) {
    |vals| <= |cols| && forall i :: 0 <= i < |vals| ==> Printed(p, cols[i], vals[i]).Some?
  }

  // ---- One value ----

  lemma ShortRead(b: Bytes, d: Bytes, rest: Bytes)
    requires |d| + 1 <= 127 && b == [(2 * (|d| + 1) + 1) as Byte] + d + rest
    ensures ReadVarlena(b) == Inline(d, |d| + 1) && !IsPointer(b)
  {
    assert b[0] == (2 * (|d| + 1) + 1) as Byte;
    assert b[1..|d| + 1] == d;
  }

  lemma LongHeader(b: Bytes, n: nat)
    requires n < 0x4000_0000 && |b| >= 4 && LE32(b, 0) == 4 * n
    ensures b[0] as int % 2 == 0
  {
  }

  lemma LongRead(b: Bytes, d: Bytes, rest: Bytes)
    requires |d| + 4 < 0x4000_0000 && b == Put32(4 * (|d| + 4)) + d + rest
    ensures ReadVarlena(b) == Inline(d, |d| + 4) && !IsPointer(b)
  {
    hide Put32, LE32;
    assert b[0..0 + 4] == Put32(4 * (|d| + 4));
    LE32At(b, 0, 4, 4 * (|d| + 4));
    LongHeader(b, |d| + 4);
    assert b[4..|d| + 4] == d;
  }

  lemma OutsideRead(b: Bytes, d: Bytes, rest: Bytes)
    requires |d| == 17 && b == [1] + d + rest && (d[9] != 0 || d[10] != 0 || d[11] != 0 || d[12] != 0)
    ensures ReadVarlena(b) == External(18) && IsPointer(b) && POINTER_SIZE == 18
  {
    assert b[10] == d[9] && b[11] == d[10] && b[12] == d[11] && b[13] == d[12];
  }

  lemma DatumRead(p: Printer, col: Column, v: StoredValue, b: Bytes, rest: Bytes)
    requires !v.Null? && Fits(col, v) && Printed(p, col, v).Some? && b == Body(v) + rest
    ensures ReadDatum(p, b, col) == Datum(Printed(p, col, v).value, |Body(v)|)
  {
    hide ReadVarlena, IsPointer, Put32;
    assert v.Outside? ==> b[..18] == [1] + v.data;
    match v
    case Fixed(d) => assert b[..col.typlen] == d;
    case Short(d) => ShortRead(b, d, rest);
    case Long(d) => LongRead(b, d, rest);
    case Outside(d) => OutsideRead(b, d, rest);
  }

  /** A value of a column whose size is not known, 0, is read as one of variable size. */
  lemma UnknownSizeRead(p: Printer, col: Column, v: StoredValue, b: Bytes, rest: Bytes)
    requires col.typlen == 0 && ((v.Short? && |v.data| + 1 <= 127) || (v.Long? && |v.data| + 4 < 0x4000_0000))
    requires Printed(p, col, v).Some? && b == Body(v) + rest
    ensures ReadDatum(p, b, col) == Datum(Printed(p, col, v).value, |Body(v)|)
  {
    hide ReadVarlena, IsPointer, Put32;
    if v.Short? { ShortRead(b, v.data, rest); } else { LongRead(b, v.data, rest); }
  }

  lemma PointerFound(col: Column, v: StoredValue, raw: Bytes, off: nat, rest: Bytes)
    requires !v.Null? && Fits(col, v) && off <= |raw|
    requires raw[off..] == Zeros(Pad(col, v, off)) + Body(v) + rest
    ensures var at := off + Pad(col, v, off);
            AlignPointer(raw, off, col) == at < |raw| && raw[at..] == Body(v) + rest
  {
    hide Put32, Align, NextStart, MayStart;
    NextIsAligned(col, off);
    var pad := Pad(col, v, off);
    assert raw[off..][pad..] == Body(v) + rest;
    assert raw[off + pad..] == raw[off..][pad..];
    assert |Body(v)| > 0;
    if v.Short? || v.Outside? {
      assert raw[off] == raw[off..][0];
    } else if pad > 0 {
      assert raw[off] == raw[off..][0] == 0;
    }
  }

  // ---- The walk over formed data ----

  /** What the values from `i` on come to: each live column's text, later columns winning a shared name. */
  function Told(p: Printer, cols: seq<Column>, vals: seq<StoredValue>, i: nat): Row
    requires AllPrinted(p, cols, vals) && i <= |vals|
    decreases |vals| - i
  {
    if i == |vals| then map[]
    else Cell(cols[i], Printed(p, cols[i], vals[i]).value) + Told(p, cols, vals, i + 1)
  }

  /** A null bitmap for the columns that fits the values, or none when there are no nulls. */
  predicate Marks(bits: Bytes, cols: seq<Column>, vals: seq<StoredValue>)
    requires |vals| <= |cols|
  {
    if bits == [] then forall i :: 0 <= i < |vals| ==> !vals[i].Null?
    else |bits| == (|cols| + 7) / 8 && forall i :: 0 <= i < |vals| ==> Present(bits, i) == !vals[i].Null?
  }

  /** What columns without a stored value come to: null, up to the first one that has its bit set. */
  function Missing(cols: seq<Column>, bits: Bytes, i: nat): Row
    requires i <= |cols| && (bits == [] || |bits| == (|cols| + 7) / 8)
    decreases |cols| - i
  {
    if i == |cols| || bits == [] || Present(bits, i) then map[]
    else Cell(cols[i], NULL_MARK) + Missing(cols, bits, i + 1)
  }

  lemma VisitFormed(p: Printer, cols: seq<Column>, i: nat, bits: Bytes, raw: Bytes, off: nat, v: StoredValue,
        rest: Bytes)
    requires i < |cols| && (bits == [] || (|bits| == (|cols| + 7) / 8 && Present(bits, i)))
    requires !v.Null? && Fits(cols[i], v) && Printed(p, cols[i], v).Some? && off <= |raw|
    requires raw[off..] == Zeros(Pad(cols[i], v, off)) + Body(v) + rest
    ensures var next := off + Pad(cols[i], v, off) + |Body(v)|;
            Visit(p, cols, i, bits, raw, off) == Go(Cell(cols[i], Printed(p, cols[i], v).value), next)
            && next <= |raw| && raw[next..] == rest
  {
    hide Present, Pad, Body, ReadDatum, AlignPointer, Cell, Printed;
    PointerFound(cols[i], v, raw, off, rest);
    var at := off + Pad(cols[i], v, off);
    DatumRead(p, cols[i], v, raw[at..], rest);
    assert raw[at + |Body(v)|..] == raw[at..][|Body(v)|..];
  }

  lemma VisitNull(p: Printer, cols: seq<Column>, i: nat, bits: Bytes, raw: Bytes, off: nat)
    requires i < |cols| && |bits| == (|cols| + 7) / 8 && bits != [] && !Present(bits, i)
    ensures Visit(p, cols, i, bits, raw, off) == Go(Cell(cols[i], NULL_MARK), off)
  {
  }

  lemma {:induction false} WalkPastEnd(p: Printer, cols: seq<Column>, i: nat, bits: Bytes, raw: Bytes)
    requires i <= |cols| && (bits == [] || |bits| == (|cols| + 7) / 8)
    ensures Walk(p, cols, i, bits, raw, |raw|) == Missing(cols, bits, i)
    decreases |cols| - i
  {
    hide Present, Cell;
    if i < |cols| { WalkPastEnd(p, cols, i + 1, bits, raw); }
  }

  lemma NextPiece(cols: seq<Column>, vals: seq<StoredValue>, i: nat, off: nat)
    requires AllFit(cols, vals) && i < |vals| && !vals[i].Null?
    ensures var piece := Zeros(Pad(cols[i], vals[i], off)) + Body(vals[i]);
            Data(cols, vals, i, off) == piece + Data(cols, vals, i + 1, off + |piece|)
  {
    hide Body, Pad, Fits;
  }

  lemma {:induction false} WalkFormed(p: Printer, cols: seq<Column>, vals: seq<StoredValue>, i: nat, bits: Bytes,
        raw: Bytes, off: nat)
    requires AllFit(cols, vals) && AllPrinted(p, cols, vals) && Marks(bits, cols, vals) && i <= |vals|
    requires off <= |raw| && raw[off..] == Data(cols, vals, i, off)
    ensures Walk(p, cols, i, bits, raw, off) == Told(p, cols, vals, i) + Missing(cols, bits, |vals|)
    decreases |vals| - i
  {
    hide Fits, Present, Pad, Body, Visit, Cell, Printed, Missing;
    var after := Missing(cols, bits, |vals|);
    if i == |vals| {
      assert off == |raw| && map[] + after == after;
      WalkPastEnd(p, cols, i, bits, raw);
    } else if vals[i].Null? {
      NullStep(p, cols, vals, i, bits, raw, off);
      WalkFormed(p, cols, vals, i + 1, bits, raw, off);
      MoreTold(p, cols, vals, i, after);
    } else {
      var next := ValueStep(p, cols, vals, i, bits, raw, off);
      WalkFormed(p, cols, vals, i + 1, bits, raw, next);
      MoreTold(p, cols, vals, i, after);
    }
  }

  lemma MoreTold(p: Printer, cols: seq<Column>, vals: seq<StoredValue>, i: nat, after: Row)
    requires AllPrinted(p, cols, vals) && i < |vals|
    ensures Cell(cols[i], Printed(p, cols[i], vals[i]).value) + (Told(p, cols, vals, i + 1) + after)
            == Told(p, cols, vals, i) + after
  {
    hide Cell, Printed;
    var cell, rest := Cell(cols[i], Printed(p, cols[i], vals[i]).value), Told(p, cols, vals, i + 1);
    assert cell + (rest + after) == cell + rest + after;
  }

  lemma NullStep(p: Printer, cols: seq<Column>, vals: seq<StoredValue>, i: nat, bits: Bytes, raw: Bytes, off: nat)
    requires AllFit(cols, vals) && AllPrinted(p, cols, vals) && Marks(bits, cols, vals) && i < |vals| && vals[i].Null?
    ensures Visit(p, cols, i, bits, raw, off) == Go(Cell(cols[i], Printed(p, cols[i], vals[i]).value), off)
    ensures Data(cols, vals, i, off) == Data(cols, vals, i + 1, off)
  {
    hide Present, Visit, Cell, Fits;
    VisitNull(p, cols, i, bits, raw, off);
  }

  lemma ValueStep(p: Printer, cols: seq<Column>, vals: seq<StoredValue>, i: nat, bits: Bytes, raw: Bytes, off: nat)
      returns (next: nat)
    requires AllFit(cols, vals) && AllPrinted(p, cols, vals) && Marks(bits, cols, vals) && i < |vals| && !vals[i].Null?
    requires off <= |raw| && raw[off..] == Data(cols, vals, i, off)
    ensures Visit(p, cols, i, bits, raw, off) == Go(Cell(cols[i], Printed(p, cols[i], vals[i]).value), next)
    ensures next <= |raw| && raw[next..] == Data(cols, vals, i + 1, next)
  {
    hide Data, Present, Pad, Body, Visit, Cell, Printed;
    var pad := Pad(cols[i], vals[i], off);
    var piece := Zeros(pad) + Body(vals[i]);
    next := off + |piece|;
    NextPiece(cols, vals, i, off);
    VisitFormed(p, cols, i, bits, raw, off, vals[i], Data(cols, vals, i + 1, next));
  }

  // ---- The null bitmap ----

  function Bit(x: bool): (n: nat)
    ensures n <= 1
  {
    if x then 1 else 0
  }

  /** Bits as a number, the first one lowest. */
  function Pack(b: seq<bool>): (n: nat)
    ensures |b| < 8 ==> n < POWERS[|b|]
    ensures |b| == 8 ==> n < 0x100
  {
    if b == [] then 0 else Bit(b[0]) + 2 * Pack(b[1..])
  }

  /** One binary digit of a number: the low ones below the mask, the digit, the high ones above. */
  lemma Digit(n: nat, mask: nat, low: nat, digit: bool, high: nat)
    requires mask > 0 && low < mask && n == low + mask * (Bit(digit) + 2 * high)
    ensures HasFlag(n, mask) == digit
  {
    var x := Bit(digit) + 2 * high;
    assert n / mask == x by { Quotient(n, mask, low, x); }
  }

  lemma Quotient(n: nat, m: nat, r: nat, q: nat)
    requires m > 0 && r < m && n == r + m * q
    ensures n / m == q
  {
    var d := n / m;
    var e := n % m;
    assert n == m * d + e && 0 <= e < m;
    if d < q { Multiple(m, d, q); } else if d > q { Multiple(m, q, d); }
  }

  /** The bits from `k` on count for their place. */
  lemma {:induction false} PackSplit(b: seq<bool>, k: nat)
    requires k < 8 && k <= |b|
    ensures Pack(b) == Pack(b[..k]) + POWERS[k] * Pack(b[k..])
    decreases k
  {
    hide Bit;
    if k == 0 {
      assert b[..0] == [] && b[0..] == b;
    } else {
      PackSplit(b[1..], k - 1);
      assert b[..k][1..] == b[1..][..k - 1] && b[1..][k - 1..] == b[k..];
      Doubled(POWERS[k - 1], POWERS[k], Pack(b[k..]));
    }
  }

  lemma PackFirst(b: seq<bool>, k: nat)
    requires k < |b|
    ensures Pack(b[k..]) == Bit(b[k]) + 2 * Pack(b[k + 1..])
  {
    assert b[k..][0] == b[k] && b[k..][1..] == b[k + 1..];
  }

  lemma Doubled(half: nat, whole: nat, x: nat)
    requires whole == 2 * half
    ensures 2 * (half * x) == whole * x
  {
  }

  lemma PackedBit(b: seq<bool>, k: nat)
    requires |b| == 8 && k < 8
    ensures HasFlag(Pack(b), POWERS[k]) == b[k]
  {
    hide HasFlag, Pack;
    PackSplit(b, k);
    PackFirst(b, k);
    Digit(Pack(b), POWERS[k], Pack(b[..k]), b[k], Pack(b[k + 1..]));
  }

  function Flags(vals: seq<StoredValue>, j: nat): (b: seq<bool>)
    ensures |b| == 8
  {
    seq(8, k requires 0 <= k < 8 => 8 * j + k < |vals| && !vals[8 * j + k].Null?)
  }

  function Bitmap(vals: seq<StoredValue>): (bits: Bytes)
    ensures |bits| == (|vals| + 7) / 8
  {
    seq((|vals| + 7) / 8, j requires 0 <= j => Pack(Flags(vals, j)) as Byte)
  }

  /** A stored bitmap says which values are there, and nothing is behind the last one. */
  lemma BitmapBit(vals: seq<StoredValue>, i: nat)
    requires i / 8 < |Bitmap(vals)|
    ensures Present(Bitmap(vals), i) == (i < |vals| && !vals[i].Null?)
  {
    hide Pack, HasFlag;
    var b := Flags(vals, i / 8);
    PackedBit(b, i % 8);
    assert 8 * (i / 8) + i % 8 == i;
    assert b[i % 8] == (i < |vals| && !vals[i].Null?);
    assert Bitmap(vals)[i / 8] == Pack(b) as Byte;
  }

  // ---- Whole tuples ----

  /** A tuple header: 18 bytes of transaction ids and item pointer, flags, and filler before the data. */
  datatype Header = Header(front: Bytes, infomask2: U16, infomask: U16, filler: Bytes)

  /** Bit 0 of the infomask tells of a null bitmap. */
  lemma NullFlag(infomask: nat)
    ensures HasFlag(infomask, HAS_NULL) <==> infomask % 2 == 1
  {
  }

  function NullMap(h: Header, vals: seq<StoredValue>): Bytes {
    if h.infomask % 2 == 1 then Bitmap(vals) else []
  }

  function DataAt(h: Header, vals: seq<StoredValue>): nat {
    23 + |NullMap(h, vals)| + |h.filler|
  }

  /** Tuples as PostgreSQL forms them; one stored before columns were added has fewer values than the
      table has columns. */
  predicate WellFormed(cols: seq<Column>, vals: seq<StoredValue>, h: Header) {
    AllFit(cols, vals) && |h.front| == 18 && DataAt(h, vals) <= 255
    && (h.infomask % 2 == 1 || forall i :: 0 <= i < |vals| ==> !vals[i].Null?)
  }

  function Form(cols: seq<Column>, vals: seq<StoredValue>, h: Header): Bytes
    requires WellFormed(cols, vals, h)
  {
    var at := DataAt(h, vals);
    h.front + Put16(h.infomask2) + Put16(h.infomask) + [at as Byte] + NullMap(h, vals) + h.filler
    + Data(cols, vals, 0, at)
  }

  lemma FormedHeader(cols: seq<Column>, vals: seq<StoredValue>, h: Header)
    requires WellFormed(cols, vals, h)
    ensures var raw := Form(cols, vals, h); var at := DataAt(h, vals);
            |raw| >= at >= TUPLE_HEADER && LE16(raw, 20) == h.infomask && DataOff(raw) == at
            && raw[at..] == Data(cols, vals, 0, at)
            && raw[TUPLE_HEADER..TUPLE_HEADER + |NullMap(h, vals)|] == NullMap(h, vals)
  {
    hide NullMap, AllFit, Data, Put16;
    var at := DataAt(h, vals);
    var bits := NullMap(h, vals);
    var front := h.front + Put16(h.infomask2);
    var flags := Put16(h.infomask);
    var raw := front + flags + [at as Byte] + bits + h.filler + Data(cols, vals, 0, at);
    assert raw == Form(cols, vals, h);
    assert raw[20] == flags[0] && raw[21] == flags[1];
    assert raw[22] == at as Byte;
  }

  /** The reader takes as many bitmap bytes as the table has columns for; they must be there. */
  predicate BitmapInside(cols: seq<Column>, raw: Bytes, infomask: nat) {
    infomask % 2 == 1 ==> 23 + (|cols| + 7) / 8 <= |raw|
  }

  lemma SameBit(a: Bytes, b: Bytes, i: nat)
    requires a <= b && i / 8 < |a|
    ensures Present(a, i) == Present(b, i)
  {
    hide HasFlag;
  }

  lemma FormedBits(cols: seq<Column>, vals: seq<StoredValue>, h: Header)
    requires WellFormed(cols, vals, h) && BitmapInside(cols, Form(cols, vals, h), h.infomask)
    ensures Marks(NullBits(cols, Form(cols, vals, h), h.infomask), cols, vals)
    ensures h.infomask % 2 == 1 ==> Bitmap(vals) <= NullBits(cols, Form(cols, vals, h), h.infomask)
  {
    hide Form, Data, Bitmap, Present, Fits;
    var raw := Form(cols, vals, h);
    FormedHeader(cols, vals, h);
    if h.infomask % 2 == 1 {
      var bits, n := Bitmap(vals), (|cols| + 7) / 8;
      assert raw[TUPLE_HEADER..TUPLE_HEADER + n][..|bits|] == raw[TUPLE_HEADER..TUPLE_HEADER + |bits|] == bits;
      forall i | 0 <= i < |vals| ensures Present(NullBits(cols, raw, h.infomask), i) == !vals[i].Null? {
        BitmapBit(vals, i);
        SameBit(bits, NullBits(cols, raw, h.infomask), i);
      }
    }
  }

  /** Decoding undoes forming: nulls, alignment, both variable-size forms, dropped columns. Columns added
      since, whose bits may be any bytes behind the stored bitmap, come out null or not at all. */
  lemma FormedRead(p: Printer, cols: seq<Column>, vals: seq<StoredValue>, h: Header)
    requires WellFormed(cols, vals, h) && AllPrinted(p, cols, vals)
             && BitmapInside(cols, Form(cols, vals, h), h.infomask)
    ensures var raw := Form(cols, vals, h);
            var row := Told(p, cols, vals, 0) + Missing(cols, NullBits(cols, raw, h.infomask), |vals|);
            HeapTuple(p, cols, raw) == row && XLogTuple(p, cols, Stripped(raw)) == row
  {
    hide Form, Data, NullMap, AllFit, AllPrinted, Marks, Walk, Told, NullBits, DataOff, DataAt, Missing;
    var raw := Form(cols, vals, h);
    FormedHeader(cols, vals, h);
    FormedBits(cols, vals, h);
    WalkFormed(p, cols, vals, 0, NullBits(cols, raw, h.infomask), raw, DataAt(h, vals));
    StrippedDecodesAlike(p, cols, raw);
  }

  /** Where no column was added, nothing is missing and the bitmap is always there. */
  lemma AllStored(cols: seq<Column>, vals: seq<StoredValue>, h: Header)
    requires WellFormed(cols, vals, h) && |vals| == |cols|
    ensures BitmapInside(cols, Form(cols, vals, h), h.infomask)
    ensures Missing(cols, NullBits(cols, Form(cols, vals, h), h.infomask), |vals|) == map[]
  {
    hide Form, Data, Bitmap, Fits;
    FormedHeader(cols, vals, h);
  }

  lemma AddedBit(cols: seq<Column>, vals: seq<StoredValue>, h: Header, i: nat)
    requires WellFormed(cols, vals, h) && h.infomask % 2 == 1 && |vals| <= i < |cols|
    requires TUPLE_HEADER + (|cols| + 7) / 8 <= DataAt(h, vals) && h.filler == Zeros(|h.filler|)
    ensures BitmapInside(cols, Form(cols, vals, h), h.infomask)
    ensures !Present(NullBits(cols, Form(cols, vals, h), h.infomask), i)
  {
    hide Data, Present, Fits, HasFlag, Bitmap;
    var raw := Form(cols, vals, h);
    var bits := Bitmap(vals);
    NullFlag(h.infomask);
    FormedHeader(cols, vals, h);
    FormedBits(cols, vals, h);
    if i / 8 < |bits| {
      BitmapBit(vals, i);
      SameBit(bits, NullBits(cols, raw, h.infomask), i);
    } else {
      FillerAt(cols, vals, h, i / 8);
      ZeroBit(NullBits(cols, raw, h.infomask), i);
    }
  }

  lemma {:induction false} MissingAll(cols: seq<Column>, bits: Bytes, i: nat, k: nat)
    requires i <= k < |cols| && bits != [] && |bits| == (|cols| + 7) / 8 && !cols[k].dropped
    requires forall j :: i <= j < |cols| ==> !Present(bits, j)
    ensures cols[k].name in Missing(cols, bits, i)
    decreases |cols| - i
  {
    hide Present;
    if i < k { MissingAll(cols, bits, i + 1, k); }
  }

  /** Columns added since all read as null when the bytes between the stored bitmap and the data are zero
      and hold the reader's bitmap. */
  lemma AddedColumnsAreNull(cols: seq<Column>, vals: seq<StoredValue>, h: Header)
    requires WellFormed(cols, vals, h) && h.infomask % 2 == 1 && |vals| < |cols|
    requires TUPLE_HEADER + (|cols| + 7) / 8 <= DataAt(h, vals) && h.filler == Zeros(|h.filler|)
    ensures BitmapInside(cols, Form(cols, vals, h), h.infomask)
    ensures var missing := Missing(cols, NullBits(cols, Form(cols, vals, h), h.infomask), |vals|);
            forall k :: |vals| <= k < |cols| && !cols[k].dropped ==>
              cols[k].name in missing && missing[cols[k].name] == NULL_MARK
  {
    hide Form, Present, WellFormed, HasFlag, Missing, DataAt;
    NullFlag(h.infomask);
    AddedBit(cols, vals, h, |vals|);
    var bits := NullBits(cols, Form(cols, vals, h), h.infomask);
    forall j | |vals| <= j < |cols| ensures !Present(bits, j) { AddedBit(cols, vals, h, j); }
    MissingByName(cols, bits, |vals|);
    forall k | |vals| <= k < |cols| && !cols[k].dropped ensures cols[k].name in Missing(cols, bits, |vals|) {
      MissingAll(cols, bits, |vals|, k);
    }
  }

  lemma FillerAt(cols: seq<Column>, vals: seq<StoredValue>, h: Header, k: nat)
    requires WellFormed(cols, vals, h) && h.infomask % 2 == 1
             && |Bitmap(vals)| <= k < |Bitmap(vals)| + |h.filler|
    requires h.filler == Zeros(|h.filler|)
    ensures |Form(cols, vals, h)| > TUPLE_HEADER + k && Form(cols, vals, h)[TUPLE_HEADER + k] == 0
  {
    hide Data, Bitmap, Fits, HasFlag, Put16;
    var at := DataAt(h, vals);
    var front := h.front + Put16(h.infomask2) + Put16(h.infomask) + [at as Byte] + Bitmap(vals);
    var raw := front + h.filler + Data(cols, vals, 0, at);
    assert raw == Form(cols, vals, h) && |front| == TUPLE_HEADER + |Bitmap(vals)|;
    assert raw[TUPLE_HEADER + k] == h.filler[k - |Bitmap(vals)|];
  }

  lemma ZeroBit(bits: Bytes, i: nat)
    requires i / 8 < |bits| && bits[i / 8] == 0
    ensures !Present(bits, i)
  {
  }

  /** Only added columns are missing, and then they read as null. */
  lemma {:induction false} MissingByName(cols: seq<Column>, bits: Bytes, i: nat)
    requires i <= |cols| && (bits == [] || |bits| == (|cols| + 7) / 8)
    ensures forall name :: name in Missing(cols, bits, i) ==>
              && Missing(cols, bits, i)[name] == NULL_MARK
              && exists k :: i <= k < |cols| && !cols[k].dropped && cols[k].name == name
    decreases |cols| - i
  {
    hide Present;
    if i < |cols| { MissingByName(cols, bits, i + 1); }
  }

  /** What the row says, for columns with different names: exactly the live columns that have a value. */
  lemma {:induction false} ToldByName(p: Printer, cols: seq<Column>, vals: seq<StoredValue>, i: nat)
    requires AllPrinted(p, cols, vals) && i <= |vals|
    requires forall j, k :: 0 <= j < k < |vals| && !cols[j].dropped && !cols[k].dropped ==> cols[j].name != cols[k].name
    ensures forall k :: i <= k < |vals| && !cols[k].dropped ==>
              cols[k].name in Told(p, cols, vals, i)
              && Told(p, cols, vals, i)[cols[k].name] == Printed(p, cols[k], vals[k]).value
    ensures forall name :: name in Told(p, cols, vals, i) ==>
              exists k :: i <= k < |vals| && !cols[k].dropped && cols[k].name == name
    decreases |vals| - i
  {
    hide Printed;
    if i < |vals| { ToldByName(p, cols, vals, i + 1); }
  }

  /** Where a tuple tells no offset of its data behind its header and inside it, they are read from byte 24. */
  lemma SenselessOffset(p: Printer, cols: seq<Column>, raw: Bytes)
    requires |raw| >= 24 && (raw[22] < 23 || raw[22] as int > |raw|)
    ensures HeapTuple(p, cols, raw) == Attrs(p, cols, raw, raw[20] as int + 0x100 * raw[21] as int, 24)
  {
    hide Attrs;
  }
}
