/** From a heap record to the row change it tells of (flashbackDecodeHeapRecord in
    flashback_walparse.go): which block names the table, and where the old and new rows are taken from. */
module HeapRecords {
  import opened Bytes
  import opened Options
  import opened Changes
  import opened Tuples
  import opened XLogBody
  import opened FullPage
  import opened PageCache
  import WalRecords
  import HeapFile

  const RM_XLOG: Byte := 0
  const RM_HEAP2: Byte := 9
  const RM_HEAP: Byte := 10
  const HEAP_INSERT := 0x00
  const HEAP_DELETE := 0x10
  const HEAP_UPDATE := 0x20
  const HEAP_TRUNCATE := 0x30
  const HEAP_HOT_UPDATE := 0x40
  const HEAP2_MULTI_INSERT := 0x50
  const DELETE_SIZE := 8
  const UPDATE_SIZE := 14
  const DELETE_OLD_TUPLE := 2
  const DELETE_OLD_KEY := 4
  const UPDATE_OLD_TUPLE := 4
  const UPDATE_OLD_KEY := 8
  const UPDATE_PREFIX := 32
  const UPDATE_SUFFIX := 64

  /** A wanted table; `keyCols` are its key columns, all of them where it has no key. */
  datatype Table = Table(schema: string, name: string, relNode: U32, pkCols: seq<string>, cols: seq<Column>,
                         keyCols: seq<Column>)

  /** How many pages are kept. */
  type Limit = n: nat | n > 0 witness 1

  /** The tables by file node, other nodes whose pages are kept, and what decoding needs from elsewhere:
      printing, which may depend on the records seen, foreign page decoders, and the changes of multi-insert
      and truncate records. */
  datatype Dict = Dict(db: U32, tables: map<U32, Table>, otherNodes: set<U32>, maxPages: Limit,
                       printer: seq<Bytes> -> Printer, foreign: Foreign, rest: Bytes -> seq<Change>)

  // ---- The pages a record brings ----

  function PageKey(rel: U32, block: U32): nat {
    rel * 0x1_0000_0000 + block
  }

  predicate WantsPages(d: Dict, rel: U32) {
    rel in d.tables || rel in d.otherNodes
  }

  function ImageOfBlock(d: Dict, b: Block): seq<StoreCall<nat>> {
    if !WantsPages(d, b.rel.rel) then []
    else
      var page := Rebuild(d.foreign, b);
      if page.None? then [] else [StoreCall(PageKey(b.rel.rel, b.blkno), page.value)]
  }

  function Images(d: Dict, blocks: seq<Block>): seq<StoreCall<nat>> {
    if blocks == [] then [] else Images(d, blocks[..|blocks| - 1]) + ImageOfBlock(d, blocks[|blocks| - 1])
  }

  predicate IsTruncate(rec: Bytes)
    requires |rec| >= RECORD_HEADER
  {
    rec[17] == RM_HEAP && WalRecords.Op(rec[16]) == HEAP_TRUNCATE
  }

  /** Records whose blocks are looked at. */
  predicate HasBlocks(rec: Bytes) {
    |rec| >= RECORD_HEADER && rec[17] in {RM_XLOG, RM_HEAP2, RM_HEAP} && !IsTruncate(rec)
  }

  function StoresOf(d: Dict, rec: Bytes): seq<StoreCall<nat>> {
    if !HasBlocks(rec) then []
    else
      var p := Split(rec[RECORD_HEADER..]);
      if p.Malformed? then [] else Images(d, p.blocks)
  }

  function AllStores(d: Dict, recs: seq<Bytes>): seq<StoreCall<nat>> {
    if recs == [] then [] else AllStores(d, recs[..|recs| - 1]) + StoresOf(d, recs[|recs| - 1])
  }

  /** The page the bounded cache holds after some stores. */
  function CachedPage(d: Dict, calls: seq<StoreCall<nat>>, key: nat): Option<Bytes> {
    var c := After(d.maxPages, calls);
    if key in c.data then Some(c.data[key]) else None
  }

  // ---- The block that names the table ----

  predicate IsKnown(d: Dict, b: Block) {
    b.rel.rel in d.tables
  }

  predicate IsOurs(d: Dict, b: Block) {
    IsKnown(d, b) && (d.db == 0 || b.rel.db == 0 || b.rel.db == d.db)
  }

  function FirstOurs(d: Dict, blocks: seq<Block>): (b: Option<Block>)
    ensures b.Some? ==> IsKnown(d, b.value)
  {
    if blocks == [] then None else if IsOurs(d, blocks[0]) then Some(blocks[0]) else FirstOurs(d, blocks[1..])
  }

  function FirstKnown(d: Dict, blocks: seq<Block>): (b: Option<Block>)
    ensures b.Some? ==> IsKnown(d, b.value)
  {
    if blocks == [] then None else if IsKnown(d, blocks[0]) then Some(blocks[0]) else FirstKnown(d, blocks[1..])
  }

  /** The first block of a table in our database, else the first of any table. */
  function Chosen(d: Dict, blocks: seq<Block>): (b: Option<Block>)
    ensures b.Some? ==> IsKnown(d, b.value)
  {
    if FirstOurs(d, blocks).Some? then FirstOurs(d, blocks) else FirstKnown(d, blocks)
  }

  // ---- Rows ----

  function OrElse(row: Row, other: Row): Row {
    if row != map[] then row else other
  }

  function PageRow(p: Printer, cols: seq<Column>, page: Option<Bytes>, off: nat): Row {
    if page.None? then map[]
    else
      var raw := HeapFile.TupleFromPage(page.value, off);
      if raw.None? then map[] else HeapTuple(p, cols, raw.value)
  }

  /** The old row: the tuple in the record, else the one on the page image of the record, else the one on
      the page kept, else the key in the record. */
  function OldRow(p: Printer, t: Table, tuple: Bytes, hasTuple: bool, hasKey: bool, image: Option<Bytes>,
                  kept: Option<Bytes>, off: nat): Row
  {
    OrElse(if hasTuple then XLogTuple(p, t.cols, tuple) else map[],
           OrElse(PageRow(p, t.cols, image, off),
                  OrElse(PageRow(p, t.cols, kept, off),
                         if hasKey then XLogTuple(p, t.keyCols, tuple) else map[])))
  }

  /** New row data without the lengths of the parts it shares with the old row. */
  function WithoutLengths(raw: Bytes, flags: nat): Bytes {
    if HasFlag(flags, UPDATE_PREFIX) && |raw| < 2 then raw
    else
      var raw' := if HasFlag(flags, UPDATE_PREFIX) then raw[2..] else raw;
      if HasFlag(flags, UPDATE_SUFFIX) && |raw'| >= 2 then raw'[2..] else raw'
  }

  function TableChange(t: Table, xid: U32, op: Op): Change {
    Change(xid, 0, None, t.schema, t.name, op, map[], map[], t.pkCols, t.pkCols == [], 0, 0, 0, 0, "", "", "", false)
  }

  function InsertChange(p: Printer, t: Table, xid: U32, b: Block, main: Bytes): seq<Change> {
    var vals := XLogTuple(p, t.cols, b.data);
    var off := if |main| >= 2 then LE16(main, 0) else 0;
    if vals == map[] then []
    else [TableChange(t, xid, Insert).(after := vals, block := b.blkno, offnum := off,
                                       newBlock := b.blkno, newOff := off)]
  }

  function DeleteChange(p: Printer, t: Table, xid: U32, b: Block, main: Bytes, image: Option<Bytes>,
        kept: Option<Bytes>): seq<Change>
  {
    var whole := |main| >= DELETE_SIZE;
    var off := if whole then LE16(main, 4) else 0;
    var flags := if whole then main[7] as int else 0;
    var tuple := if whole then main[DELETE_SIZE..] else [];
    var vals := OldRow(p, t, tuple, HasFlag(flags, DELETE_OLD_TUPLE), HasFlag(flags, DELETE_OLD_KEY), image, kept, off);
    if vals == map[] then [] else [TableChange(t, xid, Delete).(before := vals, block := b.blkno, offnum := off)]
  }

  function UpdateChange(p: Printer, t: Table, xid: U32, b: Block, main: Bytes, image: Option<Bytes>,
        kept: Option<Bytes>): seq<Change>
  {
    var whole := |main| >= UPDATE_SIZE;
    var off := if whole then LE16(main, 4) else 0;
    var newOff := if whole then LE16(main, 12) else 0;
    var flags := if whole then main[7] as int else 0;
    var tuple := if whole then main[UPDATE_SIZE..] else [];
    var olds := OldRow(p, t, tuple, HasFlag(flags, UPDATE_OLD_TUPLE), HasFlag(flags, UPDATE_OLD_KEY), image, kept, off);
    var news := XLogTuple(p, t.cols, WithoutLengths(b.data, flags));
    if olds == map[] then []
    else [TableChange(t, xid, Update).(before := olds, after := news, block := b.blkno, offnum := off,
                                       newBlock := b.blkno, newOff := newOff)]
  }

  function HeapChange(d: Dict, p: Printer, calls: seq<StoreCall<nat>>, op: nat, xid: U32, b: Block,
        main: Bytes): seq<Change>
    requires IsKnown(d, b)
  {
    var t := d.tables[b.rel.rel];
    var image, kept := Rebuild(d.foreign, b), CachedPage(d, calls, PageKey(t.relNode, b.blkno));
    if op == HEAP_INSERT then InsertChange(p, t, xid, b, main)
    else if op == HEAP_DELETE then DeleteChange(p, t, xid, b, main, image, kept)
    else if op == HEAP_UPDATE || op == HEAP_HOT_UPDATE then UpdateChange(p, t, xid, b, main, image, kept)
    else []
  }

  /** What a record says, after those seen before it. */
  function Decode(d: Dict, seen: seq<Bytes>, rec: Bytes): seq<Change> {
    if |rec| < RECORD_HEADER || rec[17] !in {RM_XLOG, RM_HEAP2, RM_HEAP} then []
    else if IsTruncate(rec) then d.rest(rec)
    else
      var body := Split(rec[RECORD_HEADER..]);
      if body.Malformed? || rec[17] == RM_XLOG || Chosen(d, body.blocks).None? then []
      else
        var op := WalRecords.Op(rec[16]);
        if rec[17] == RM_HEAP2 then if op == HEAP2_MULTI_INSERT then d.rest(rec) else []
        else
          var xid := if body.topXid != 0 then body.topXid else LE32(rec, 4);
          HeapChange(d, d.printer(seen), AllStores(d, seen + [rec]), op, xid, Chosen(d, body.blocks).value, body.main)
  }

  // ---- As it runs ----

  class RecordDecoder {
    const dict: Dict
    const cache: FpwCache
    /** The records decoded so far, which the printer may depend on. */
    var seen: seq<Bytes>

    ghost predicate Valid()
      reads this, cache
    {
      cache.Valid() && cache.max == dict.maxPages && cache.calls == AllStores(dict, seen)
    }

    constructor (dict: Dict)
      ensures Valid() && fresh(cache) && this.dict == dict && seen == []
    {
      this.dict := dict;
      cache := new FpwCache(dict.maxPages);
      seen := [];
    }

    /** Keeps the page images of wanted relations. */
    method KeepImages(blocks: seq<Block>)
      requires cache.Valid()
      modifies cache
      ensures cache.Valid() && cache.calls == old(cache.calls) + Images(dict, blocks)
    {
      hide Rebuild, FpwCache.Valid;
      assert blocks[..0] == [];
      for i := 0 to |blocks|
        invariant cache.Valid() && cache.calls == old(cache.calls) + Images(dict, blocks[..i])
      {
        assert blocks[..i + 1][..i] == blocks[..i];
        var b := blocks[i];
        if !WantsPages(dict, b.rel.rel) { continue; }
        var page := Rebuild(dict.foreign, b);
        if page.None? { continue; }
        cache.Set(PageKey(b.rel.rel, b.blkno), page.value);
      }
      assert blocks[..|blocks|] == blocks;
    }

    method ChooseBlock(blocks: seq<Block>) returns (b: Option<Block>)
      ensures b == Chosen(dict, blocks)
    {
      for i := 0 to |blocks|
        invariant FirstOurs(dict, blocks) == FirstOurs(dict, blocks[i..])
      {
        if IsOurs(dict, blocks[i]) { return Some(blocks[i]); }
      }
      for i := 0 to |blocks|
        invariant FirstOurs(dict, blocks).None? && FirstKnown(dict, blocks) == FirstKnown(dict, blocks[i..])
      {
        if IsKnown(dict, blocks[i]) { return Some(blocks[i]); }
      }
      b := None;
    }

    method KeptPage(rel: U32, block: U32) returns (page: Option<Bytes>)
      requires Valid()
      ensures page == CachedPage(dict, cache.calls, PageKey(rel, block))
    {
      page := cache.Get(PageKey(rel, block));
      IsCached(dict.maxPages, cache.calls, PageKey(rel, block));
    }

    method DecodeRecord(rec: Bytes) returns (chs: seq<Change>)
      requires Valid()
      modifies this`seen, cache
      ensures Valid() && seen == old(seen) + [rec]
      ensures chs == Decode(dict, old(seen), rec)
    {
      hide Split, HeapChange, Images, Chosen, FpwCache.Valid, IsTruncate;
      var p := dict.printer(seen);
      OneMoreStore(dict, seen, rec);
      seen := seen + [rec];
      assert cache.calls + [] == cache.calls;
      if |rec| < RECORD_HEADER || rec[17] !in {RM_XLOG, RM_HEAP2, RM_HEAP} { return []; }
      if IsTruncate(rec) { return dict.rest(rec); }
      var body := Split(rec[RECORD_HEADER..]);
      if body.Malformed? { return []; }
      KeepImages(body.blocks);
      if rec[17] == RM_XLOG { return []; }
      var b := ChooseBlock(body.blocks);
      if b.None? { return []; }
      var op := WalRecords.Op(rec[16]);
      if rec[17] == RM_HEAP2 {
        if op == HEAP2_MULTI_INSERT { return dict.rest(rec); }
        return [];
      }
      var xid := if body.topXid != 0 then body.topXid else LE32(rec, 4);
      chs := DecodeChange(p, op, xid, b.value, body.main);
    }

    method DecodeChange(p: Printer, op: nat, xid: U32, b: Block, main: Bytes) returns (chs: seq<Change>)
      requires Valid() && IsKnown(dict, b)
      ensures chs == HeapChange(dict, p, cache.calls, op, xid, b, main)
    {
      hide InsertChange, DeleteChange, UpdateChange, CachedPage, Rebuild;
      var t := dict.tables[b.rel.rel];
      if op == HEAP_INSERT { return InsertChange(p, t, xid, b, main); }
      if op != HEAP_DELETE && op != HEAP_UPDATE && op != HEAP_HOT_UPDATE { return []; }
      var image := Rebuild(dict.foreign, b);
      var kept := KeptPage(t.relNode, b.blkno);
      if op == HEAP_DELETE { return DeleteChange(p, t, xid, b, main, image, kept); }
      chs := UpdateChange(p, t, xid, b, main, image, kept);
    }
  }

  lemma OneMoreStore(d: Dict, seen: seq<Bytes>, rec: Bytes)
    ensures AllStores(d, seen + [rec]) == AllStores(d, seen) + StoresOf(d, rec)
  {
    hide StoresOf;
    assert (seen + [rec])[..|seen|] == seen;
  }

  /** What the cache gives is the page last stored, for the keys taken in last. */
  lemma IsCached(max: nat, calls: seq<StoreCall<nat>>, k: nat)
    requires max > 0
    ensures var c := After(max, calls);
            && (k in c.data <==> k in Newest(Admissions(max, calls), max))
            && (k in c.data ==> LastPage(calls, k) == Some(c.data[k]))
  {
    hide After, Newest, Admissions, LastPage;
    RefinesUnbounded(max, calls);
  }
}
