/** New rows logged without the bytes they share with the old row, at the front and at the end
    (flashbackSkipUpdatePrefixSuffix in flashback_walparse.go drops only the lengths of these parts): for
    rows of fixed-size values, exactly when they are read right. */
module SharedParts {
  import opened Bytes
  import opened Options
  import opened Changes
  import opened Tuples
  import opened TupleForm
  import opened ShortTuples
  import opened HeapRecords
  import opened HeapLog

  /** A tuple without `front` bytes at the start of its data, which begins at `at`, and `back` at the end. */
  function Shortened(raw: Bytes, at: nat, front: nat, back: nat): Bytes
    requires at + front + back <= |raw|
  {
    raw[..at] + raw[at + front..|raw| - back]
  }

  /** What is logged of it: the lengths of the parts left out, where there are any, and the rest. */
  function Logged(raw: Bytes, at: nat, front: U16, back: U16): Bytes
    requires TUPLE_HEADER <= at && at + front + back <= |raw|
  {
    (if front > 0 then Put16(front) else []) + ((if back > 0 then Put16(back) else [])
     + Stripped(Shortened(raw, at, front, back)))
  }

  lemma LengthsTakenOff(raw: Bytes, at: nat, front: U16, back: U16, flags: nat)
    requires TUPLE_HEADER <= at && at + front + back <= |raw|
    requires (HasFlag(flags, 32) <==> front > 0) && (HasFlag(flags, 64) <==> back > 0)
    ensures WithoutLengths(Logged(raw, at, front, back), flags) == Stripped(Shortened(raw, at, front, back))
  {
    hide Put16, Stripped, HasFlag;
    var rest := Stripped(Shortened(raw, at, front, back));
    var behind := (if back > 0 then Put16(back) else []) + rest;
    if front > 0 { assert (Put16(front) + behind)[2..] == behind; } else { assert [] + behind == behind; }
    if back > 0 { assert (Put16(back) + rest)[2..] == rest; } else { assert [] + rest == rest; }
  }

  /** Values of fixed size only, besides nulls. */
  predicate FixedOnly(vals: seq<StoredValue>) {
    forall i :: 0 <= i < |vals| ==> vals[i].Null? || vals[i].Fixed?
  }

  predicate LastStored(vals: seq<StoredValue>, m: nat) {
    m < |vals| && !vals[m].Null? && forall k :: m < k < |vals| ==> vals[k].Null?
  }

  /** A value of fixed size with too few bytes left for all the data. */
  lemma VisitShort(p: Printer, cols: seq<Column>, i: nat, bits: Bytes, raw: Bytes, off: nat, v: StoredValue)
    requires i < |cols| && (bits == [] || (|bits| == (|cols| + 7) / 8 && Present(bits, i)))
    requires v.Fixed? && Fits(cols[i], v)
    ensures var s := Visit(p, cols, i, bits, raw, off);
            var next := off + Pad(cols[i], v, off) + |Body(v)|;
            if next > |raw| then s in {Stop(map[]), Stop(Cell(cols[i], NULL_MARK))}
            else || s == Stop(Cell(cols[i], NULL_MARK))
                 || (s.Go? && s.next == next && s.cell.Keys <= Cell(cols[i], "").Keys)
  {
    hide Present, Align, NextStart;
    NextIsAligned(cols[i], off);
  }

  lemma {:induction false} WalkShort(p: Printer, cols: seq<Column>, vals: seq<StoredValue>, i: nat, m: nat,
      bits: Bytes, raw: Bytes, off: nat)
    requires AllFit(cols, vals) && Marks(bits, cols, vals) && FixedOnly(vals) && DistinctLive(cols)
    requires LastStored(vals, m) && i <= m && !cols[m].dropped && off + |Data(cols, vals, i, off)| > |raw|
    ensures NullOrAbsent(Walk(p, cols, i, bits, raw, off), cols[m].name)
    decreases m - i
  {
    hide Fits, Present, Pad, Body, Visit, Data;
    if vals[i].Null? {
      VisitNull(p, cols, i, bits, raw, off);
      NullAddsNothing(cols, vals, i, off);
      WalkShort(p, cols, vals, i + 1, m, bits, raw, off);
    } else {
      VisitShort(p, cols, i, bits, raw, off, vals[i]);
      NextPiece(cols, vals, i, off);
      var s := Visit(p, cols, i, bits, raw, off);
      if i == m {
        NothingFrom(cols, vals, m + 1, off + Pad(cols[m], vals[m], off) + |Body(vals[m])|);
      } else if s.Go? {
        WalkShort(p, cols, vals, i + 1, m, bits, raw, s.next);
      }
    }
  }

  lemma NullAddsNothing(cols: seq<Column>, vals: seq<StoredValue>, i: nat, off: nat)
    requires AllFit(cols, vals) && i < |vals| && vals[i].Null?
    ensures Data(cols, vals, i, off) == Data(cols, vals, i + 1, off)
  {
    hide Fits;
  }

  // ---- The row ----

  /** The null bitmap the reader expects lies before the data. */
  predicate BitmapBefore(cols: seq<Column>, vals: seq<StoredValue>, h: Header) {
    h.infomask % 2 == 1 ==> TUPLE_HEADER + (|cols| + 7) / 8 <= DataAt(h, vals)
  }

  lemma ShortenedHeader(cols: seq<Column>, t: Tuple, front: nat, back: nat)
    requires WellFormed(cols, t.vals, t.header) && BitmapBefore(cols, t.vals, t.header)
    requires DataAt(t.header, t.vals) + front + back <= |Raw(cols, t)|
    ensures var at, raw := DataAt(t.header, t.vals), Raw(cols, t);
            var short := Shortened(raw, at, front, back);
            && |short| >= at >= TUPLE_HEADER && DataOff(short) == at && LE16(short, 20) == t.header.infomask
            && NullBits(cols, short, t.header.infomask) == NullBits(cols, raw, t.header.infomask)
            && |short| == at + |Data(cols, t.vals, 0, at)| - front - back
  {
    hide Form, Data, NullMap, AllFit, HasFlag, DataAt;
    NullFlag(t.header.infomask);
    FormedHeader(cols, t.vals, t.header);
    var at, raw := DataAt(t.header, t.vals), Raw(cols, t);
    var short := Shortened(raw, at, front, back);
    assert short[20] == raw[20] && short[21] == raw[21] && short[22] == raw[22];
    SameField(short, raw);
    var n := TUPLE_HEADER + (|cols| + 7) / 8;
    if n <= at { assert short[TUPLE_HEADER..n] == raw[TUPLE_HEADER..n]; }
  }

  lemma ShortenedIs(p: Printer, cols: seq<Column>, t: Tuple, front: nat, back: nat)
    requires WellFormed(cols, t.vals, t.header) && BitmapBefore(cols, t.vals, t.header)
    requires DataAt(t.header, t.vals) + front + back <= |Raw(cols, t)|
    ensures var at, raw := DataAt(t.header, t.vals), Raw(cols, t);
            var short := Shortened(raw, at, front, back);
            |short| >= TUPLE_HEADER
            && XLogTuple(p, cols, Stripped(short))
               == Walk(p, cols, 0, NullBits(cols, raw, t.header.infomask), short, at)
  {
    hide Raw, NullBits, Walk, DataOff, WellFormed, LE16, Stripped, Shortened, DataAt, BitmapBefore;
    ShortenedHeader(cols, t, front, back);
    StrippedDecodesAlike(p, cols, Shortened(Raw(cols, t), DataAt(t.header, t.vals), front, back));
  }

  lemma NothingLeftOut(raw: Bytes, at: nat)
    requires at <= |raw|
    ensures Shortened(raw, at, 0, 0) == raw
  {
  }

  lemma WholeSays(p: Printer, cols: seq<Column>, t: Tuple, m: nat)
    requires Stored(p, cols, t) && DistinctLive(cols) && m < |t.vals| && !cols[m].dropped
    ensures cols[m].name in RowIn(p, cols, t)
            && RowIn(p, cols, t)[cols[m].name] == Printed(p, cols[m], t.vals[m]).value
  {
    hide Raw, WellFormed, BitmapInside, Told, Missing, NullBits, Printed;
    ToldByName(p, cols, t.vals, 0);
    MissingByName(cols, NullBits(cols, Raw(cols, t), t.header.infomask), |t.vals|);
  }

  /** For a row of fixed-size values and nulls whose last stored column is live and not printed as null: logged
      without some of its data bytes, at the front, at the end or both, it is read as itself if and only if
      none are left out; else that last column reads as null or not at all. */
  lemma SharedPartsIff(p: Printer, cols: seq<Column>, t: Tuple, m: nat, front: U16, back: U16, flags: nat)
    requires Stored(p, cols, t) && FixedOnly(t.vals) && DistinctLive(cols) && BitmapBefore(cols, t.vals, t.header)
    requires LastStored(t.vals, m) && !cols[m].dropped && Printed(p, cols[m], t.vals[m]).value != NULL_MARK
    requires DataAt(t.header, t.vals) + front + back <= |Raw(cols, t)|
    requires (HasFlag(flags, 32) <==> front > 0) && (HasFlag(flags, 64) <==> back > 0)
    ensures DataAt(t.header, t.vals) >= TUPLE_HEADER
    ensures var data := Logged(Raw(cols, t), DataAt(t.header, t.vals), front, back);
            var row := XLogTuple(p, cols, WithoutLengths(data, flags));
            (row == RowIn(p, cols, t) <==> front + back == 0) && (front + back > 0 ==> NullOrAbsent(row, cols[m].name))
  {
    hide Raw, RowIn, XLogTuple, Walk, NullBits, Stripped, Shortened, WithoutLengths, Logged, HasFlag, Printed, Data,
         DistinctLive, BitmapBefore, WellFormed, AllPrinted, BitmapInside;
    var at, raw := DataAt(t.header, t.vals), Raw(cols, t);
    LengthsTakenOff(raw, at, front, back, flags);
    if front + back == 0 {
      NothingLeftOut(raw, at);
      StoredRead(p, cols, t);
    } else {
      ShortRow(p, cols, t, m, front, back);
      WholeSays(p, cols, t, m);
    }
  }

  lemma ShortRow(p: Printer, cols: seq<Column>, t: Tuple, m: nat, front: nat, back: nat)
    requires Stored(p, cols, t) && FixedOnly(t.vals) && DistinctLive(cols) && BitmapBefore(cols, t.vals, t.header)
    requires LastStored(t.vals, m) && !cols[m].dropped && front + back > 0
    requires DataAt(t.header, t.vals) + front + back <= |Raw(cols, t)|
    ensures DataAt(t.header, t.vals) >= TUPLE_HEADER
    ensures NullOrAbsent(XLogTuple(p, cols, Stripped(Shortened(Raw(cols, t), DataAt(t.header, t.vals), front, back))),
                         cols[m].name)
  {
    hide Form, XLogTuple, Walk, NullBits, Stripped, Shortened, HasFlag, Data, DistinctLive, AllPrinted, BitmapInside,
         NullMap, AllFit, FixedOnly, LastStored, Marks;
    var at, raw := DataAt(t.header, t.vals), Raw(cols, t);
    ShortenedHeader(cols, t, front, back);
    ShortenedIs(p, cols, t, front, back);
    FormedBits(cols, t.vals, t.header);
    WalkShort(p, cols, t.vals, 0, m, NullBits(cols, raw, t.header.infomask), Shortened(raw, at, front, back), at);
  }

  // ---- An update of the second of two columns ----

  predicate TwoNumbers(cols: seq<Column>) {
    |cols| == 2 && forall j :: 0 <= j < 2 ==> cols[j].typlen == 4 && cols[j].typalign == 'i' && !cols[j].dropped
  }

  lemma {:induction false} NumberWalk(p: Printer, cols: seq<Column>, raw: Bytes, i: nat, off: nat)
    requires TwoNumbers(cols) && i <= 2 && off in {24, 28, 32}
    ensures i < 2 && off + 4 <= |raw| && p.fixed(raw[off..off + 4], cols[i]).Some? ==>
              Walk(p, cols, i, [], raw, off)
              == Cell(cols[i], p.fixed(raw[off..off + 4], cols[i]).value) + Walk(p, cols, i + 1, [], raw, off + 4)
    ensures i == 2 || off >= |raw| ==> Walk(p, cols, i, [], raw, off) == map[]
  {
    if i < 2 && off + 4 <= |raw| { assert raw[off..][..4] == raw[off..off + 4]; }
  }

  /** The header of a tuple without nulls whose data starts at byte 24. */
  function PlainHeader(infomask2: U16, infomask: U16): Bytes {
    Put16(infomask2) + Put16(infomask) + [24]
  }

  lemma PlainTuple(p: Printer, cols: seq<Column>, infomask2: U16, infomask: U16, data: Bytes)
    requires infomask % 2 == 0
    ensures XLogTuple(p, cols, PlainHeader(infomask2, infomask) + ([0] + data))
            == Walk(p, cols, 0, [], Zeros(24) + data, 24)
  {
    hide Walk, Put16, HasFlag;
    NullFlag(infomask);
    var h, rest := PlainHeader(infomask2, infomask), [0] + data;
    var w := Whole(h + rest);
    assert w == Zeros(18) + h + rest && w[22] == 24;
    var f := Put16(infomask);
    assert w[20] == f[0] && w[21] == f[1];
    assert NullBits(cols, w, infomask) == [];
    var z := Zeros(24) + data;
    assert w[TUPLE_HEADER..] == rest && z[TUPLE_HEADER..] == rest;
    WalkReadsData(p, cols, 0, [], w, z, 24);
  }

  /** Of two four-byte numbers the second is updated, and the new row logged without the first, which is
      shared: the new number is taken for the first column, and the second is missing. */
  lemma SharedPrefixMisread(p: Printer, cols: seq<Column>, infomask2: U16, infomask: U16, x: Bytes, z: Bytes)
    requires TwoNumbers(cols) && infomask % 2 == 0 && |x| == |z| == 4
    requires forall j, b :: 0 <= j < 2 ==> p.fixed(b, cols[j]).Some?
    ensures var h := PlainHeader(infomask2, infomask);
            && XLogTuple(p, cols, WithoutLengths(h + ([0] + (x + z)), 0))
               == Cell(cols[0], p.fixed(x, cols[0]).value) + Cell(cols[1], p.fixed(z, cols[1]).value)
            && XLogTuple(p, cols, WithoutLengths(Put16(4) + (h + ([0] + z)), 32))
               == Cell(cols[0], p.fixed(z, cols[0]).value)
  {
    hide Walk, XLogTuple, Cell, Put16, PlainHeader;
    var h := PlainHeader(infomask2, infomask);
    var whole, part := Zeros(24) + (x + z), Zeros(24) + z;
    PlainTuple(p, cols, infomask2, infomask, x + z);
    PlainTuple(p, cols, infomask2, infomask, z);
    assert (Put16(4) + (h + ([0] + z)))[2..] == h + ([0] + z);
    assert whole == (Zeros(24) + x) + z;
    assert whole[24..28] == x && whole[28..32] == z && part[24..28] == z;
    NumberWalk(p, cols, whole, 0, 24);
    NumberWalk(p, cols, whole, 1, 28);
    NumberWalk(p, cols, whole, 2, 32);
    NumberWalk(p, cols, part, 0, 24);
    NumberWalk(p, cols, part, 1, 28);
    NoCell(cols[0], p.fixed(z, cols[0]).value);
    NoCell(cols[1], p.fixed(z, cols[1]).value);
  }

  lemma NoCell(col: Column, text: string)
    ensures Cell(col, text) + map[] == Cell(col, text)
  {
  }
}
