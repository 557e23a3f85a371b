/** Row changes end to end: the log of inserts, deletes and updates, written to records, laid out on WAL pages
    and cut into files, comes out of the reader as what it makes of each, and exactly when as the changes. */
module HeapRecovery {
  import opened Bytes
  import opened Options
  import opened Changes
  import opened Tuples
  import opened TupleForm
  import opened XLogBody
  import opened FullPage
  import opened PageCache
  import opened HeapRecords
  import opened KeptPages
  import opened XLogAssembly
  import opened WalRecords
  import opened HeapLog
  import HeapFile
  import T = Transactions
  import WalPages
  import WalLayout
  import WalParser
  import Recovery

  // ---- One record ----

  lemma BlockTold(d: Dict, r: Ref)
    ensures IsKnown(d, r.ToBlock()) <==> Known(d, r)
    ensures IsOurs(d, r.ToBlock()) <==> Known(d, r) && Ours(d, r)
  {
  }

  lemma {:induction false} FirstOursIs(d: Dict, refs: seq<Ref>, k: nat)
    requires k <= |refs| && forall j :: 0 <= j < k && Known(d, refs[j]) ==> !Ours(d, refs[j])
    requires k < |refs| ==> Known(d, refs[k]) && Ours(d, refs[k])
    ensures FirstOurs(d, Blocks(refs)) == if k < |refs| then Some(refs[k].ToBlock()) else None
    decreases k
  {
    hide Ref.ToBlock, Known, Ours, IsOurs;
    if refs != [] {
      BlockTold(d, refs[0]);
      assert Blocks(refs)[1..] == Blocks(refs[1..]);
      if k > 0 { FirstOursIs(d, refs[1..], k - 1); }
    }
  }

  lemma {:induction false} FirstKnownIs(d: Dict, refs: seq<Ref>, k: nat)
    requires k <= |refs| && forall j :: 0 <= j < k ==> !Known(d, refs[j])
    requires k < |refs| ==> Known(d, refs[k])
    ensures FirstKnown(d, Blocks(refs)) == if k < |refs| then Some(refs[k].ToBlock()) else None
    decreases k
  {
    hide Ref.ToBlock, Known, IsKnown;
    if refs != [] {
      BlockTold(d, refs[0]);
      assert Blocks(refs)[1..] == Blocks(refs[1..]);
      if k > 0 { FirstKnownIs(d, refs[1..], k - 1); }
    }
  }

  lemma ChosenIs(d: Dict, refs: seq<Ref>, k: nat)
    requires Chooses(d, refs, k)
    ensures Chosen(d, Blocks(refs)) == Some(refs[k].ToBlock())
  {
    hide Ref.ToBlock, Known, Ours, FirstOurs, FirstKnown;
    if Ours(d, refs[k]) {
      FirstOursIs(d, refs, k);
    } else {
      FirstOursIs(d, refs, |refs|);
      FirstKnownIs(d, refs, k);
    }
  }

  lemma NoneChosen(d: Dict, refs: seq<Ref>)
    requires forall j :: 0 <= j < |refs| ==> !Known(d, refs[j])
    ensures Chosen(d, Blocks(refs)) == None
  {
    hide Ref.ToBlock, Known, Ours, FirstOurs, FirstKnown;
    FirstOursIs(d, refs, |refs|);
    FirstKnownIs(d, refs, |refs|);
  }

  lemma SplitIs(e: Entry)
    requires Assembled(e)
    ensures var rec := Write(e);
            && rec[16] == e.info && rec[17] == ManagerOf(e) && LE32(rec, 4) == e.xid
            && Split(rec[RECORD_HEADER..])
               == Parts(Blocks(e.body.refs), e.body.main.bytes, if e.body.topXid.Some? then e.body.topXid.value else 0)
  {
    hide WriteRecord, Assemble, Split, LE32, Blocks;
    RecordFields(e.xid, e.prev, e.info, ManagerOf(e), e.check, Assemble(e.body));
    SplitAssembled(e.body);
  }

  lemma OpIs(e: Entry)
    ensures WalRecords.Op(e.info) == 16 * OpOf(e)
  {
  }

  lemma DecodeIs(d: Dict, seen: seq<Bytes>, e: Entry)
    requires Assembled(e) && Chooses(d, e.body.refs, e.k) && e.doing.ChangesRow() && OpOf(e) != 3
    ensures Decode(d, seen, Write(e))
            == HeapChange(d, d.printer(seen), AllStores(d, seen + [Write(e)]), 16 * OpOf(e), XidOf(e),
                          e.body.refs[e.k].ToBlock(), e.body.main.bytes)
  {
    hide Write, Split, LE32, Blocks, HeapChange, WalRecords.Op, Ref.ToBlock, AllStores;
    SplitIs(e);
    OpIs(e);
    ChosenIs(d, e.body.refs, e.k);
  }

  lemma FieldAt(a: Bytes, n: U16, b: Bytes)
    ensures var s := a + (Put16(n) + b); LE16(s, |a|) == n && s[|a| + 2..] == b
  {
    var s, f := a + (Put16(n) + b), Put16(n);
    assert s[|a|] == f[0] && s[|a| + 1] == f[1];
    assert s[|a|..] == f + b;
  }

  lemma DeleteFields(xmax: Bytes, off: U16, bits: Byte, flags: Byte, tail: Bytes)
    requires |xmax| == 4
    ensures var main := DeleteMain(xmax, off, bits, flags, tail);
            |main| == 8 + |tail| && LE16(main, 4) == off && main[7] == flags && main[8..] == tail
  {
    hide Put16, LE16;
    var main := DeleteMain(xmax, off, bits, flags, tail);
    FieldAt(xmax, off, [bits, flags] + tail);
    assert main[6..] == [bits, flags] + tail;
    assert main[7] == main[6..][1];
    assert main[8..] == main[6..][2..] == tail;
  }

  lemma UpdateFields(xmax: Bytes, off: U16, bits: Byte, flags: Byte, newXmax: Bytes, newOff: U16, tail: Bytes)
    requires |xmax| == |newXmax| == 4
    ensures var main := UpdateMain(xmax, off, bits, flags, newXmax, newOff, tail);
            && |main| == 14 + |tail| && LE16(main, 4) == off && main[7] == flags && LE16(main, 12) == newOff
            && main[14..] == tail
  {
    hide Put16, LE16, DeleteMain;
    var main, rest := UpdateMain(xmax, off, bits, flags, newXmax, newOff, tail), newXmax + (Put16(newOff) + tail);
    DeleteFields(xmax, off, bits, flags, rest);
    FieldAt(newXmax, newOff, tail);
    assert main[8..] == rest;
    SameField16(main, 8, 4);
    assert main[14..] == rest[6..];
  }

  lemma SameField16(s: Bytes, i: nat, j: nat)
    requires i + j + 2 <= |s|
    ensures LE16(s, i + j) == LE16(s[i..], j)
  {
    assert s[i..][j] == s[i + j] && s[i..][j + 1] == s[i + j + 1];
  }

  lemma RowFromPage(p: Printer, cols: seq<Column>, page: Bytes, off: nat, t: Tuple)
    requires Stored(p, cols, t) && HeapFile.TupleFromPage(page, off) == Some(Raw(cols, t))
    ensures PageRow(p, cols, Some(page), off) == RowIn(p, cols, t)
  {
    hide Stored, Raw, RowIn, HeapFile.TupleFromPage, HeapTuple;
    StoredRead(p, cols, t);
  }

  lemma ImageBack(d: Dict, e: Entry, page: Bytes)
    requires Assembled(e) && e.k < |e.body.refs| && e.body.refs[e.k].image.Some?
    requires ImageOf(d.foreign, e.body.refs[e.k].image.value, page)
    ensures Rebuild(d.foreign, e.body.refs[e.k].ToBlock()) == Some(page)
  {
    hide ImageOf, Rebuild, Assemble;
    RefValid(e.body, e.k);
    RebuildsPage(d.foreign, e.body.refs[e.k], page);
  }

  lemma NoImage(d: Dict, r: Ref)
    requires r.image.None?
    ensures Rebuild(d.foreign, r.ToBlock()) == None
  {
  }

  /** The old row is found in the record, on its image and on its kept page. */
  lemma OldRead(d: Dict, seen: seq<Bytes>, e: Entry, old_: Old, off: nat, key: Bytes, hasKey: bool)
    requires Valid(d, seen, e) && e.doing.ChangesRow() && OldValid(d, seen, e, TableOf(d, e), old_, off)
    ensures var t := TableOf(d, e);
            OldRow(d.printer(seen), t, Tail(t.cols, old_, key), old_.InRecord?, hasKey,
                   Rebuild(d.foreign, e.body.refs[e.k].ToBlock()),
                   CachedPage(d, AllStores(d, seen + [Write(e)]), PageKey(t.relNode, e.body.refs[e.k].blkno)), off)
            == FoundRow(d, seen, e, old_, off, hasKey, key)
  {
    hide Raw, RowIn, HeapFile.TupleFromPage, XLogTuple, Rebuild, CachedPage, PageKept, AllStores, Write, PageKey,
         Ref.ToBlock, Stored, ImageOf, PageRow, Assembled, DoingValid;
    var t, p := TableOf(d, e), d.printer(seen);
    StoredIsFormed(p, t.cols, old_.row);
    NoPageNoRow(p, t.cols, off);
    CachedHere(d, seen, e, Place(t.relNode, e.body.refs[e.k].blkno));
    match old_
    case Elsewhere(_) =>
    case InRecord(row) => StoredRead(p, t.cols, row);
    case OnImage(row, page) =>
      ImageBack(d, e, page);
      RowFromPage(p, t.cols, page, off, row);
    case OnKept(row, page) =>
      NoImage(d, e.body.refs[e.k]);
      RowFromPage(p, t.cols, page, off, row);
  }

  lemma CachedHere(d: Dict, seen: seq<Bytes>, e: Entry, p: Place)
    requires Assembled(e)
    ensures CachedPage(d, AllStores(d, seen + [Write(e)]), PageKey(p.rel, p.block)) == PageKept(d, seen, e, p)
  {
    hide AllStores, AllImages, CachedPage, Kept, Write;
    CachedIsKept(d, seen + [Write(e)], p);
  }

  lemma NoPageNoRow(p: Printer, cols: seq<Column>, off: nat)
    ensures PageRow(p, cols, None, off) == map[]
  {
  }

  lemma StoredIsFormed(p: Printer, cols: seq<Column>, t: Tuple)
    requires Stored(p, cols, t)
    ensures WellFormed(cols, t.vals, t.header)
  {
  }

  lemma OldIsFormed(d: Dict, seen: seq<Bytes>, e: Entry)
    requires Valid(d, seen, e) && (e.doing.Deletes? || e.doing.Updates?)
    ensures Stored(d.printer(seen), TableOf(d, e).cols, e.doing.old_.row)
    ensures WellFormed(TableOf(d, e).cols, e.doing.old_.row.vals, e.doing.old_.row.header)
  {
    hide WellFormed, RowIn, Assembled, HasFlag, Raw, AllPrinted, BitmapInside;
  }

  lemma NoLengths(raw: Bytes, flags: nat)
    requires !HasFlag(flags, 32) && !HasFlag(flags, 64)
    ensures WithoutLengths(raw, flags) == raw
  {
  }

  lemma BlockFields(r: Ref)
    ensures r.ToBlock().rel == r.rel && r.ToBlock().blkno == r.blkno && r.ToBlock().data == r.data
  {
  }

  lemma InsertRead(d: Dict, seen: seq<Bytes>, e: Entry)
    requires Valid(d, seen, e) && e.doing.Inserts?
    ensures Decode(d, seen, Write(e)) == ReadAs(d, seen, e)
  {
    hide Decode, Raw, RowIn, XLogTuple, Rebuild, CachedPage, AllStores, Write, PageKey, Ref.ToBlock, Stored,
         Put16, LE16, Assemble;
    var t, p := TableOf(d, e), d.printer(seen);
    DecodeIs(d, seen, e);
    BlockFields(e.body.refs[e.k]);
    FieldAt([], e.doing.off, e.doing.more);
    assert [] + (Put16(e.doing.off) + e.doing.more) == e.body.main.bytes;
    StoredRead(p, t.cols, e.doing.new_);
  }

  lemma DeleteRead(d: Dict, seen: seq<Bytes>, e: Entry)
    requires Valid(d, seen, e) && e.doing.Deletes?
    ensures Decode(d, seen, Write(e)) == ReadAs(d, seen, e)
  {
    hide Decode, Raw, RowIn, XLogTuple, Rebuild, CachedPage, AllStores, Write, PageKey, Ref.ToBlock, Stored,
         Assembled, LE16, DeleteMain, OldRow, HasFlag, Tail, KindOf, PageKept, OldValid;
    var t, x := TableOf(d, e), e.doing;
    DecodeIs(d, seen, e);
    BlockFields(e.body.refs[e.k]);
    OldIsFormed(d, seen, e);
    DeleteFields(x.xmax, x.off, x.bits, x.flags, Tail(t.cols, x.old_, x.key));
    OldRead(d, seen, e, x.old_, x.off, x.key, HasFlag(x.flags as int, 4));
  }

  lemma UpdateRead(d: Dict, seen: seq<Bytes>, e: Entry)
    requires Valid(d, seen, e) && e.doing.Updates?
    ensures Decode(d, seen, Write(e)) == ReadAs(d, seen, e)
  {
    hide Decode, Raw, RowIn, XLogTuple, Rebuild, CachedPage, AllStores, Write, PageKey, Ref.ToBlock, Stored,
         Assembled, LE16, UpdateMain, OldRow, HasFlag, Tail, WithoutLengths, KindOf, PageKept, OldValid;
    var t, x, p := TableOf(d, e), e.doing, d.printer(seen);
    DecodeIs(d, seen, e);
    BlockFields(e.body.refs[e.k]);
    OldIsFormed(d, seen, e);
    UpdateFields(x.xmax, x.off, x.bits, x.flags, x.newXmax, x.newOff, Tail(t.cols, x.old_, x.key));
    OldRead(d, seen, e, x.old_, x.off, x.key, HasFlag(x.flags as int, 8));
    NoLengths(e.body.refs[e.k].data, x.flags as int);
    StoredRead(p, t.cols, x.new_);
  }

  /** A record that changes no row of a known table gives no change. */
  lemma OtherRead(d: Dict, seen: seq<Bytes>, e: Entry)
    requires Valid(d, seen, e) && e.doing.Others?
    ensures Decode(d, seen, Write(e)) == []
  {
    hide Write, Split, LE32, Blocks, WalRecords.Op, KindOf, Ref.ToBlock, AllStores, Known, FirstOurs, FirstKnown;
    SplitIs(e);
    OpIs(e);
    if forall j :: 0 <= j < |e.body.refs| ==> !Known(d, e.body.refs[j]) { NoneChosen(d, e.body.refs); }
  }

  /** The two kinds of record whose changes come from elsewhere: truncations, and multi-inserts into a table with a
      known file node. */
  lemma RestIsLeft(d: Dict, seen: seq<Bytes>, xid: U32, prev: Bytes, info: Byte, check: Bytes, b: XLogAssembly.Body)
    requires |prev| == 8 && |check| == 6 && b.Valid() && !b.main.Omitted?
    requires RECORD_HEADER + |Assemble(b)| < 0x1_0000_0000
    ensures var rec := WriteRecord(xid, prev, info, 10, check, Assemble(b));
            KindOf(info) == 3 ==> Decode(d, seen, rec) == d.rest(rec)
    ensures var rec := WriteRecord(xid, prev, info, 9, check, Assemble(b));
            KindOf(info) == 5 && (exists k :: Chooses(d, b.refs, k)) ==> Decode(d, seen, rec) == d.rest(rec)
  {
    hide WriteRecord, Assemble, Split, LE32, Blocks, Chosen, Chooses, Ref.ToBlock, AllStores;
    RecordFields(xid, prev, info, 10, check, Assemble(b));
    RecordFields(xid, prev, info, 9, check, Assemble(b));
    SplitAssembled(b);
    if k :| Chooses(d, b.refs, k) { ChosenIs(d, b.refs, k); }
  }

  /** A row inserted in another database, into a table that has a known file node there, is taken for one of the
      known table. */
  lemma OtherDatabaseIsTaken(d: Dict, seen: seq<Bytes>, e: Entry)
    requires Valid(d, seen, e) && e.doing.Inserts? && !Ours(d, e.body.refs[e.k])
    ensures Means(d, seen, e) == T.Rows([]) && Decode(d, seen, Write(e)) == [ChangeOf(d, seen, e)]
  {
    hide Decode, Write, ChangeOf, Stored, Assembled;
    InsertRead(d, seen, e);
  }

  /** The decoder of heap records. */
  function Decoder(d: Dict): HeapDecoder {
    (seen, rec) => Decode(d, seen, rec)
  }

  /** What a record is read as: the change with exactly the rows stored, or with another old row or none where
      the reader does not find it, or the end of its transaction. */
  lemma EntryRead(d: Dict, seen: seq<Bytes>, e: Entry)
    requires Valid(d, seen, e)
    ensures Classify(Decoder(d), seen, Write(e)) == ReadEvent(d, seen, e)
  {
    hide Decode, ReadAs, ChangeOf, DoingValid, WalRecords.Op, KindOf, XactData.Write, XactData.Valid,
         XactData.HasInfo, XactData.Time, Assemble, XactEvent;
    SplitIs(e);
    match e.doing
    case Inserts(_, _, _) => InsertRead(d, seen, e);
    case Deletes(_, _, _, _, _, _) => DeleteRead(d, seen, e);
    case Updates(_, _, _, _, _, _, _, _, _, _) => UpdateRead(d, seen, e);
    case Ends(front, data) => XactRecordRead(e.xid, e.prev, e.info, e.check, e.body, data, front);
    case Others(_) => OtherRead(d, seen, e);
  }

  // ---- A whole log ----

  predicate AllAssembled(log: seq<Entry>) {
    forall i :: 0 <= i < |log| ==> Assembled(log[i])
  }

  function WriteAll(log: seq<Entry>): (recs: seq<Bytes>)
    requires AllAssembled(log)
    ensures |recs| == |log|
  {
    if log == [] then [] else WriteAll(log[..|log| - 1]) + [Write(log[|log| - 1])]
  }

  /** Every entry is valid after those before it. */
  ghost predicate ValidLog(d: Dict, log: seq<Entry>) {
    AllAssembled(log) && (log != [] ==>
      var before, e := log[..|log| - 1], log[|log| - 1];
      ValidLog(d, before) && Valid(d, WriteAll(before), e))
  }

  ghost function MeansAll(d: Dict, log: seq<Entry>): seq<T.Event>
    requires ValidLog(d, log)
  {
    if log == [] then []
    else
      var before, e := log[..|log| - 1], log[|log| - 1];
      MeansAll(d, before) + [Means(d, WriteAll(before), e)]
  }

  /** The events as they are read. */
  ghost function ReadAll(d: Dict, log: seq<Entry>): seq<T.Event>
    requires ValidLog(d, log)
  {
    if log == [] then []
    else
      var before, e := log[..|log| - 1], log[|log| - 1];
      ReadAll(d, before) + [ReadEvent(d, WriteAll(before), e)]
  }

  lemma {:induction false} LogRead(d: Dict, log: seq<Entry>)
    requires ValidLog(d, log)
    ensures EventsOf(Decoder(d), WriteAll(log)) == ReadAll(d, log)
    decreases |log|
  {
    hide Valid, Assembled, ReadEvent, Classify, Write;
    if log != [] {
      var before, e := log[..|log| - 1], log[|log| - 1];
      LogRead(d, before);
      EntryRead(d, WriteAll(before), e);
      Recovery.EventsAppend(Decoder(d), WriteAll(before), Write(e));
    }
  }

  ghost predicate AllRight(d: Dict, log: seq<Entry>)
    requires ValidLog(d, log)
  {
    log != [] ==> var before, e := log[..|log| - 1], log[|log| - 1];
                  AllRight(d, before) && ReadRight(d, WriteAll(before), e)
  }

  /** A log is read as what was logged if and only if each of its entries is. */
  lemma {:induction false} AllRightIff(d: Dict, log: seq<Entry>)
    requires ValidLog(d, log)
    ensures ReadAll(d, log) == MeansAll(d, log) <==> AllRight(d, log)
    ensures |ReadAll(d, log)| == |MeansAll(d, log)|
    decreases |log|
  {
    hide Valid, Assembled, ReadEvent, Means, Write, ReadRight;
    if log != [] {
      var before, e := log[..|log| - 1], log[|log| - 1];
      AllRightIff(d, before);
      ReadRightIff(d, WriteAll(before), e);
      var seen := WriteAll(before);
      LastAlike(ReadAll(d, before), MeansAll(d, before), ReadEvent(d, seen, e), Means(d, seen, e));
    }
  }

  lemma LastAlike(a: seq<T.Event>, b: seq<T.Event>, x: T.Event, y: T.Event)
    requires |a| == |b|
    ensures a + [x] == b + [y] <==> a == b && x == y
  {
    if a + [x] == b + [y] {
      assert a == (a + [x])[..|a|] && b == (b + [y])[..|b|];
      assert x == (a + [x])[|a|] && y == (b + [y])[|b|];
    }
  }

  lemma {:induction false} AllAreRecords(log: seq<Entry>)
    requires AllAssembled(log)
    ensures WalLayout.AllRecords(WriteAll(log))
    decreases |log|
  {
    hide Assembled, Write;
    if log != [] {
      var before, e := log[..|log| - 1], log[|log| - 1];
      AllAreRecords(before);
      WrittenIsRecord(e);
    }
  }

  lemma {:induction false} NothingSwitches(d: Dict, log: seq<Entry>)
    requires ValidLog(d, log)
    ensures WalLayout.NoSwitch(WriteAll(log))
    decreases |log|
  {
    hide Assembled, Write, Valid, WalLayout.Switches;
    if log != [] {
      var before, e := log[..|log| - 1], log[|log| - 1];
      NothingSwitches(d, before);
      IsNoSwitch(d, WriteAll(before), e);
    }
  }

  lemma WrittenIsRecord(e: Entry)
    requires Assembled(e)
    ensures WalLayout.IsRecord(Write(e)) && Write(e)[16] == e.info && Write(e)[17] == ManagerOf(e)
  {
    hide WriteRecord, Assemble, LE32;
    RecordFields(e.xid, e.prev, e.info, ManagerOf(e), e.check, Assemble(e.body));
  }

  lemma IsNoSwitch(d: Dict, seen: seq<Bytes>, e: Entry)
    requires Valid(d, seen, e)
    ensures !WalLayout.Switches(Write(e))
  {
    hide DoingValid, EndValid, Chooses, Write, WalLayout.IsRecord;
    WrittenIsRecord(e);
  }

  /** The pages of a log. */
  function LogPages(heads: seq<WalLayout.Head>, log: seq<Entry>): seq<Bytes>
    requires WalLayout.ValidHeads(heads) && AllAssembled(log)
  {
    AllAreRecords(log);
    WalLayout.Pages(heads, WalLayout.Rest([], WriteAll(log)))
  }

  /** The reader on the log of any row changes, commits and aborts, laid out on pages and cut into files at
      any page bounds: where the pages let all records be read, its output is that of the transaction
      machine on each entry as it is read, so on exactly the changes logged when all are read right. */
  lemma LoggedIsRecovered(o: T.Opts, d: Dict, log: seq<Entry>, heads: seq<WalLayout.Head>, groups: seq<seq<Bytes>>)
    requires ValidLog(d, log) && WalLayout.ValidHeads(heads)
    requires WalLayout.ReadableFrom(heads, 0, WriteAll(log)) == WriteAll(log)
    requires Recovery.Flatten(groups) == LogPages(heads, log)
    ensures var f := WalParser.FeedFiles(o, Decoder(d), WalParser.NewReader, Recovery.JoinAll(groups));
            var out := f.out + T.Finish(o, f.reader.state);
            out == T.Total(o, ReadAll(d, log)) && (AllRight(d, log) ==> out == T.Total(o, MeansAll(d, log)))
  {
    hide WalLayout.ReadableFrom, WalLayout.Pages, WalParser.FeedFiles, T.Total, T.Finish, MeansAll, ReadAll, AllRight,
         EventsOf, WriteAll, ValidLog, Recovery.JoinAll, Recovery.Flatten;
    assert AllAssembled(log) by { LogAssembled(d, log); }
    AllAreRecords(log);
    NothingSwitches(d, log);
    Recovery.ParsedLayout(o, Decoder(d), heads, WriteAll(log), groups);
    LogRead(d, log);
    AllRightIff(d, log);
  }

  lemma LogAssembled(d: Dict, log: seq<Entry>)
    requires ValidLog(d, log)
    ensures AllAssembled(log)
  {
  }
}
