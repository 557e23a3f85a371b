/** What PostgreSQL logs for inserts, deletes, updates and the ends of transactions: entries with the bytes
    they are written as, the changes they tell of, and what the reader makes of them. */
module HeapLog {
  import opened Bytes
  import opened Options
  import opened Changes
  import opened Tuples
  import opened TupleForm
  import opened XLogBody
  import opened FullPage
  import opened PageCache
  import opened HeapRecords
  import opened KeptPages
  import opened XLogAssembly
  import opened WalRecords
  import HeapFile
  import T = Transactions

  // ---- Stored rows ----

  datatype Tuple = Tuple(vals: seq<StoredValue>, header: TupleForm.Header)

  /** A tuple as stored for a table, whose values the printer can print. */
  predicate Stored(p: Printer, cols: seq<Column>, t: Tuple) {
    WellFormed(cols, t.vals, t.header) && AllPrinted(p, cols, t.vals)
    && BitmapInside(cols, Form(cols, t.vals, t.header), t.header.infomask)
  }

  function Raw(cols: seq<Column>, t: Tuple): (raw: Bytes)
    requires WellFormed(cols, t.vals, t.header)
    ensures |raw| >= TUPLE_HEADER
  {
    FormedHeader(cols, t.vals, t.header);
    Form(cols, t.vals, t.header)
  }

  /** The row a stored tuple holds, with the columns added since. */
  function RowIn(p: Printer, cols: seq<Column>, t: Tuple): Row
    requires Stored(p, cols, t)
  {
    Told(p, cols, t.vals, 0) + Missing(cols, NullBits(cols, Raw(cols, t), t.header.infomask), |t.vals|)
  }

  lemma StoredRead(p: Printer, cols: seq<Column>, t: Tuple)
    requires Stored(p, cols, t)
    ensures HeapTuple(p, cols, Raw(cols, t)) == RowIn(p, cols, t)
    ensures XLogTuple(p, cols, Stripped(Raw(cols, t))) == RowIn(p, cols, t)
  {
    hide Form, Told, Missing, NullBits, WellFormed, AllPrinted, HeapTuple, XLogTuple;
    FormedRead(p, cols, t.vals, t.header);
  }

  // ---- What is logged ----

  /** Where the old row is: in the record, on the image of its page in block `k`, on the page kept of that
      block, or elsewhere. */
  datatype Old =
    | InRecord(row: Tuple)
    | OnImage(row: Tuple, page: Bytes)
    | OnKept(row: Tuple, page: Bytes)
    | Elsewhere(row: Tuple)

  /** Row changes with the fields of their main data, the ends of transactions, and records that change no row
      of a table, such as checkpoints. An update takes its row from block number `from`, which is not the new
      row's when it moves the row to another page. */
  datatype Doing =
    | Inserts(off: U16, more: Bytes, new_: Tuple)
    | Deletes(xmax: Bytes, off: U16, bits: Byte, flags: Byte, old_: Old, key: Bytes)
    | Updates(from: U32, xmax: Bytes, off: U16, bits: Byte, flags: Byte, newXmax: Bytes, newOff: U16, old_: Old,
              key: Bytes, new_: Tuple)
    | Ends(front: Bytes, data: XactData)
    | Others(rmid: Byte)
  {
    predicate ChangesRow() {
      Inserts? || Deletes? || Updates?
    }
  }

  /** A log entry: record fields, body, the block of the change, and what it does. */
  datatype Entry = Entry(xid: U32, prev: Bytes, info: Byte, check: Bytes, body: XLogAssembly.Body, k: nat, doing: Doing)

  /** What a record does, by bits 4 to 6 of its info byte: for rows 0 inserts, 1 deletes, 2 and 4 update; for
      the ends of transactions see `KindOf`. */
  function OpOf(e: Entry): nat {
    KindOf(e.info)
  }

  /** The resource manager: 1 for transactions, 10 for rows. */
  function ManagerOf(e: Entry): Byte {
    match e.doing
    case Ends(_, _) => 1
    case Others(rmid) => rmid
    case _ => 10
  }

  predicate Assembled(e: Entry) {
    && |e.prev| == 8 && |e.check| == 6 && e.body.Valid() && !e.body.main.Omitted?
    && RECORD_HEADER + |Assemble(e.body)| < 0x1_0000_0000
  }

  function Write(e: Entry): (rec: Bytes)
    requires Assembled(e)
    ensures |rec| >= RECORD_HEADER
  {
    WriteRecord(e.xid, e.prev, e.info, ManagerOf(e), e.check, Assemble(e.body))
  }

  /** What follows the fixed fields: the old tuple, or the old key if there is one. */
  function Tail(cols: seq<Column>, old_: Old, key: Bytes): Bytes
    requires WellFormed(cols, old_.row.vals, old_.row.header)
  {
    if old_.InRecord? then Stripped(Raw(cols, old_.row)) else key
  }

  function DeleteMain(xmax: Bytes, off: U16, bits: Byte, flags: Byte, tail: Bytes): Bytes {
    xmax + (Put16(off) + ([bits, flags] + tail))
  }

  function UpdateMain(xmax: Bytes, off: U16, bits: Byte, flags: Byte, newXmax: Bytes, newOff: U16, tail: Bytes): Bytes {
    DeleteMain(xmax, off, bits, flags, newXmax + (Put16(newOff) + tail))
  }

  predicate Known(d: Dict, r: Ref) {
    r.rel.rel in d.tables
  }

  /** Of our database, or no database is told. */
  predicate Ours(d: Dict, r: Ref) {
    d.db == 0 || r.rel.db == 0 || r.rel.db == d.db
  }

  /** Block `k` is the first of a known table in our database, or, where there is none, the first of a known
      file node in any. */
  predicate Chooses(d: Dict, refs: seq<Ref>, k: nat) {
    && k < |refs| && Known(d, refs[k])
    && if Ours(d, refs[k]) then forall j :: 0 <= j < k && Known(d, refs[j]) ==> !Ours(d, refs[j])
       else forall j :: 0 <= j < |refs| && Known(d, refs[j]) ==> k <= j && !Ours(d, refs[j])
  }

  function TableOf(d: Dict, e: Entry): Table
    requires Chooses(d, e.body.refs, e.k)
  {
    d.tables[e.body.refs[e.k].rel.rel]
  }

  /** The page kept of a block when a record is read, the record's own images included. */
  function PageKept(d: Dict, seen: seq<Bytes>, e: Entry, p: Place): Option<Bytes>
    requires Assembled(e)
  {
    Kept(d, AllImages(d, seen + [Write(e)]), p)
  }

  ghost predicate OldValid(d: Dict, seen: seq<Bytes>, e: Entry, t: Table, old_: Old, off: nat)
    requires Assembled(e) && e.k < |e.body.refs|
  {
    var r := e.body.refs[e.k];
    && Stored(d.printer(seen), t.cols, old_.row) && RowIn(d.printer(seen), t.cols, old_.row) != map[]
    && match old_
       case InRecord(_) => true
       case Elsewhere(_) => true
       case OnImage(row, page) =>
         && r.image.Some? && ImageOf(d.foreign, r.image.value, page)
         && HeapFile.TupleFromPage(page, off) == Some(Raw(t.cols, row))
       case OnKept(row, page) =>
         && r.image.None? && PageKept(d, seen, e, Place(t.relNode, r.blkno)) == Some(page)
         && HeapFile.TupleFromPage(page, off) == Some(Raw(t.cols, row))
  }

  /** Main data and new row of an entry are those of what it does. */
  ghost predicate DoingValid(d: Dict, seen: seq<Bytes>, e: Entry)
    requires Assembled(e) && Chooses(d, e.body.refs, e.k) && e.doing.ChangesRow()
  {
    var t, p, main, data := TableOf(d, e), d.printer(seen), e.body.main.bytes, e.body.refs[e.k].data;
    match e.doing
    case Inserts(off, more, new_) =>
      && OpOf(e) == 0 && main == Put16(off) + more
      && Stored(p, t.cols, new_) && RowIn(p, t.cols, new_) != map[] && data == Stripped(Raw(t.cols, new_))
    case Deletes(xmax, off, bits, flags, old_, key) =>
      && OpOf(e) == 1 && |xmax| == 4 && OldValid(d, seen, e, t, old_, off)
      && (HasFlag(flags as int, 2) <==> old_.InRecord?)
      && main == DeleteMain(xmax, off, bits, flags, Tail(t.cols, old_, key))
    case Updates(from, xmax, off, bits, flags, newXmax, newOff, old_, key, new_) =>
      && (old_.OnImage? || old_.OnKept? ==> from == e.body.refs[e.k].blkno)
      && OpOf(e) in {2, 4} && |xmax| == |newXmax| == 4 && OldValid(d, seen, e, t, old_, off)
      && (HasFlag(flags as int, 4) <==> old_.InRecord?)
      && !HasFlag(flags as int, 32) && !HasFlag(flags as int, 64)
      && main == UpdateMain(xmax, off, bits, flags, newXmax, newOff, Tail(t.cols, old_, key))
      && Stored(p, t.cols, new_) && data == Stripped(Raw(t.cols, new_))
  }

  ghost predicate EndValid(e: Entry) {
    e.doing.Ends? &&
    var front, data := e.doing.front, e.doing.data;
    && data.Valid() && !e.body.main.Omitted? && e.body.main.bytes == front + data.Write()
    && OpOf(e) in {0, 2, 3, 4} && |front| == (if OpOf(e) >= 3 then 4 else 0) && |data.subs| <= 1_048_576
    && (e.info >= 0x80 <==> data.HasInfo())
  }

  /** Not a transaction's end, no switch of the segment, and no multi-insert (9) or row change (10) of a known
      table, nor a truncation. */
  predicate OtherValid(d: Dict, e: Entry) {
    e.doing.Others? &&
    var known := exists j :: 0 <= j < |e.body.refs| && Known(d, e.body.refs[j]);
    match e.doing.rmid
    case 0 => !(0x40 <= e.info < 0x50)
    case 1 => false
    case 9 => OpOf(e) == 5 ==> !known
    case 10 => OpOf(e) != 3 && (OpOf(e) in {0, 1, 2, 4} ==> !known)
    case _ => true
  }

  ghost predicate Valid(d: Dict, seen: seq<Bytes>, e: Entry) {
    && Assembled(e)
    && if e.doing.Ends? then EndValid(e)
       else if e.doing.Others? then OtherValid(d, e)
       else Chooses(d, e.body.refs, e.k) && DoingValid(d, seen, e)
  }

  function XidOf(e: Entry): U32 {
    if e.body.topXid.Some? && e.body.topXid.value != 0 then e.body.topXid.value else e.xid
  }

  /** A change of a table's row apart from the rows and their places: no second transaction id, no time yet, no
      statements, and not of MySQL. */
  function OfTable(t: Table, xid: U32, op: Op): Change {
    var rows: Row := map[];
    Change(xid, 0, None, t.schema, t.name, op, rows, rows, t.pkCols, |t.pkCols| == 0, 0, 0, 0, 0, "", "", "", false)
  }

  /** The change an entry logs. */
  ghost function ChangeOf(d: Dict, seen: seq<Bytes>, e: Entry): Change
    requires Valid(d, seen, e) && e.doing.ChangesRow()
  {
    var t, p, block := TableOf(d, e), d.printer(seen), e.body.refs[e.k].blkno;
    match e.doing
    case Inserts(off, _, new_) =>
      OfTable(t, XidOf(e), Insert).(after := RowIn(p, t.cols, new_), block := block, offnum := off,
                                    newBlock := block, newOff := off)
    case Deletes(_, off, _, _, old_, _) =>
      OfTable(t, XidOf(e), Delete).(before := RowIn(p, t.cols, old_.row), block := block, offnum := off)
    case Updates(from, _, off, _, _, _, newOff, old_, _, new_) =>
      OfTable(t, XidOf(e), Update).(before := RowIn(p, t.cols, old_.row), after := RowIn(p, t.cols, new_),
                                    block := from, offnum := off, newBlock := block, newOff := newOff)
  }

  // ---- What the reader makes of it ----

  /** The old row the reader finds: the stored one, or, where it is elsewhere, what lies under its line number
      on block `k`'s image or kept page, else the key in the record. */
  ghost function FoundRow(d: Dict, seen: seq<Bytes>, e: Entry, old_: Old, off: nat, hasKey: bool, key: Bytes): Row
    requires Valid(d, seen, e) && e.doing.ChangesRow() && Stored(d.printer(seen), TableOf(d, e).cols, old_.row)
  {
    var t, p, r := TableOf(d, e), d.printer(seen), e.body.refs[e.k];
    if !old_.Elsewhere? then RowIn(p, t.cols, old_.row)
    else
      OrElse(PageRow(p, t.cols, Rebuild(d.foreign, r.ToBlock()), off),
             OrElse(PageRow(p, t.cols, PageKept(d, seen, e, Place(t.relNode, r.blkno)), off),
                    if hasKey then XLogTuple(p, t.keyCols, key) else map[]))
  }

  /** The old row found for a delete or an update. */
  ghost function FoundOld(d: Dict, seen: seq<Bytes>, e: Entry): Row
    requires Valid(d, seen, e) && (e.doing.Deletes? || e.doing.Updates?)
  {
    var x := e.doing;
    FoundRow(d, seen, e, x.old_, x.off,
             HasFlag(x.flags as int, if x.Deletes? then 4 else 8), x.key)
  }

  /** The changes read: the logged one with the old row found and, as its block, always the new row's;
      nothing when no old row is found. */
  ghost function ReadAs(d: Dict, seen: seq<Bytes>, e: Entry): seq<Change>
    requires Valid(d, seen, e) && e.doing.ChangesRow()
  {
    if e.doing.Inserts? then [ChangeOf(d, seen, e)]
    else if FoundOld(d, seen, e) == map[] then []
    else [ChangeOf(d, seen, e).(before := FoundOld(d, seen, e), block := e.body.refs[e.k].blkno)]
  }

  /** What an entry means to the transactions; a change in another database is none of ours. */
  ghost function Means(d: Dict, seen: seq<Bytes>, e: Entry): T.Event
    requires Valid(d, seen, e)
  {
    if e.doing.ChangesRow() then T.Rows(if Ours(d, e.body.refs[e.k]) then [ChangeOf(d, seen, e)] else [])
    else if e.doing.Others? then T.Rows([])
    else if OpOf(e) in {0, 3} then T.Commit(e.xid, e.doing.data.subs, e.doing.data.Time())
    else T.Abort(e.xid, e.doing.data.subs)
  }

  /** What the record of an entry means to them as it is read. */
  ghost function ReadEvent(d: Dict, seen: seq<Bytes>, e: Entry): T.Event
    requires Valid(d, seen, e)
  {
    if e.doing.ChangesRow() then T.Rows(ReadAs(d, seen, e)) else Means(d, seen, e)
  }

  /** The old row is found, and it lies on the new row's block; a change in another database has none that is
      found. */
  ghost predicate ReadRight(d: Dict, seen: seq<Bytes>, e: Entry)
    requires Valid(d, seen, e)
  {
    e.doing.ChangesRow() ==>
      if !Ours(d, e.body.refs[e.k]) then !e.doing.Inserts? && FoundOld(d, seen, e) == map[]
      else
        && (!e.doing.Inserts? && e.doing.old_.Elsewhere? ==>
              FoundOld(d, seen, e) == RowIn(d.printer(seen), TableOf(d, e).cols, e.doing.old_.row))
        && (e.doing.Updates? ==> e.doing.from == e.body.refs[e.k].blkno)
  }

  /** An entry is read as what was logged if and only if it is of our database, its old row is in the record, on
      the new row's block where the reader looks, or happens to equal what lies there, and an update keeps its
      row on its block; or it is of another database and nothing is found. */
  lemma ReadRightIff(d: Dict, seen: seq<Bytes>, e: Entry)
    requires Valid(d, seen, e)
    ensures ReadEvent(d, seen, e) == Means(d, seen, e) <==> ReadRight(d, seen, e)
  {
    hide Stored, RowIn, FoundRow, TableOf, OldValid, Assembled, HasFlag;
    if e.doing.Deletes? || e.doing.Updates? { OldIsRow(d, seen, e); }
  }

  lemma OldIsRow(d: Dict, seen: seq<Bytes>, e: Entry)
    requires Valid(d, seen, e) && (e.doing.Deletes? || e.doing.Updates?)
    ensures var row := RowIn(d.printer(seen), TableOf(d, e).cols, e.doing.old_.row);
            row != map[] && (!e.doing.old_.Elsewhere? ==> FoundOld(d, seen, e) == row)
  {
    hide Stored, RowIn, Assembled, HasFlag;
  }
}
