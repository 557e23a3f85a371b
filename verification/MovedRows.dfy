/** Updates that move a row to another page: the reader takes the new row's block for the old row's as well
    (flashbackDecodeHeapRecord in flashback_walparse.go), so it gets the block wrong, and the old row too
    unless the record holds it. */
module MovedRows {
  import opened Bytes
  import opened Options
  import opened Changes
  import opened Tuples
  import opened TupleForm
  import opened XLogBody
  import opened FullPage
  import opened PageCache
  import opened HeapRecords
  import opened KeptPages
  import opened XLogAssembly
  import opened WalRecords
  import opened HeapLog
  import opened HeapRecovery
  import HeapFile

  function NewBlock(e: Entry): U32
    requires e.k < |e.body.refs|
  {
    e.body.refs[e.k].blkno
  }

  ghost predicate Moves(d: Dict, seen: seq<Bytes>, e: Entry) {
    Valid(d, seen, e) && e.doing.Updates? && e.doing.from != NewBlock(e)
  }

  /** No such update is read as it was logged; with the old row in the record only its block is wrong. */
  lemma MovedBlockIsWrong(d: Dict, seen: seq<Bytes>, e: Entry)
    requires Moves(d, seen, e)
    ensures Decode(d, seen, Write(e)) != [ChangeOf(d, seen, e)]
    ensures e.doing.old_.InRecord? ==>
              Decode(d, seen, Write(e)) == [ChangeOf(d, seen, e).(block := NewBlock(e))]
  {
    hide Decode, Stored, RowIn, FoundRow, Assembled, Write, HasFlag;
    UpdateRead(d, seen, e);
    OldIsRow(d, seen, e);
  }

  /** Without it, the row under the old line number on the new row's page is taken, whichever it is. */
  lemma MovedTakesOther(d: Dict, seen: seq<Bytes>, e: Entry, other: Tuple, page: Bytes)
    requires Moves(d, seen, e) && e.doing.old_.Elsewhere?
    requires e.body.refs[e.k].image.Some? && ImageOf(d.foreign, e.body.refs[e.k].image.value, page)
    requires Stored(d.printer(seen), TableOf(d, e).cols, other)
    requires RowIn(d.printer(seen), TableOf(d, e).cols, other) != map[]
    requires HeapFile.TupleFromPage(page, e.doing.off) == Some(Raw(TableOf(d, e).cols, other))
    ensures Decode(d, seen, Write(e))
            == [ChangeOf(d, seen, e).(before := RowIn(d.printer(seen), TableOf(d, e).cols, other),
                                      block := NewBlock(e))]
  {
    hide Decode, Stored, RowIn, Assembled, Write, HasFlag, PageRow, ImageOf, Rebuild, Raw, HeapFile.TupleFromPage,
         Ref.ToBlock;
    UpdateRead(d, seen, e);
    ImageBack(d, e, page);
    RowFromPage(d.printer(seen), TableOf(d, e).cols, page, e.doing.off, other);
  }

  /** With no page of the new row's block and no key, the update is lost, whatever other pages there are. */
  lemma MovedIsLost(d: Dict, seen: seq<Bytes>, e: Entry)
    requires Moves(d, seen, e) && e.doing.old_.Elsewhere? && e.body.refs[e.k].image.None?
    requires PageKept(d, seen, e, Place(TableOf(d, e).relNode, NewBlock(e))).None?
    requires !HasFlag(e.doing.flags as int, 8)
    ensures Decode(d, seen, Write(e)) == []
  {
    hide Decode, Stored, RowIn, Assembled, Write, HasFlag, PageRow, Rebuild, PageKept, Ref.ToBlock;
    UpdateRead(d, seen, e);
    NoImage(d, e.body.refs[e.k]);
    NoPageNoRow(d.printer(seen), TableOf(d, e).cols, e.doing.off);
  }

  // ---- A record of this kind ----

  /** The update of a row of table 7 from block 2 to block 3, line 1 on each, as logged without the old row. */
  function MovedUpdate(cols: seq<Column>, old_: Tuple, new_: Tuple): Entry
    requires WellFormed(cols, new_.vals, new_.header)
  {
    var put := Ref(0, 0, false, None, true, Stripped(Raw(cols, new_)), false, RelId(0, 0, 7), 3);
    var took := Ref(1, 0, false, None, false, [], true, RelId(0, 0, 7), 2);
    var main := UpdateMain(Zeros(4), 1, 0, 0, Zeros(4), 1, []);
    Entry(5, Zeros(8), 0x20, Zeros(6), Body([put, took], None, None, MainData.Short(main)), 0,
          Updates(2, Zeros(4), 1, 0, 0, Zeros(4), 1, Elsewhere(old_), [], new_))
  }

  lemma TwoRefs(a: Ref, b: Ref)
    requires a.Valid() && b.Valid() && !a.sameRel && (b.sameRel ==> b.rel == a.rel)
    ensures ValidRefs([a, b]) && SameRels([a, b], NoRel)
  {
    var both, one := [a, b], [b];
    assert both[1..] == one && one[1..] == [];
  }

  lemma TwoRefsSize(a: Ref, b: Ref)
    requires ValidRefs([a, b]) && a.image.None? && b.image.None?
    ensures |WriteRefs([a, b])| <= 40 && |WritePayloads([a, b])| == |a.data| + |b.data|
  {
    var both, one := [a, b], [b];
    assert both[1..] == one && one[1..] == [];
    assert both[0].Valid() && both[1].Valid();
    assert |a.Write()| <= 20 && |b.Write()| <= 20;
    assert WriteRefs(one) == b.Write() + WriteRefs([]);
    assert WritePayloads(one) == b.WritePayload() + WritePayloads([]);
  }

  lemma MovedAssembled(cols: seq<Column>, old_: Tuple, new_: Tuple)
    requires WellFormed(cols, new_.vals, new_.header) && |Raw(cols, new_)| < PAGE_SIZE
    ensures Assembled(MovedUpdate(cols, old_, new_))
  {
    hide Raw, WriteRefs, WritePayloads, WellFormed, ValidRefs, SameRels;
    var e := MovedUpdate(cols, old_, new_);
    var put, took := e.body.refs[0], e.body.refs[1];
    DeleteFields(Zeros(4), 1, 0, 0, Zeros(4) + (Put16(1) + []));
    TwoRefs(put, took);
    TwoRefsSize(put, took);
  }

  lemma NothingStored(d: Dict, e: Entry)
    requires Assembled(e) && |e.body.refs| == 2 && e.body.refs[0].image.None? && e.body.refs[1].image.None?
    ensures AllImages(d, [] + [Write(e)]) == []
  {
    hide Write, Split, Rebuild, Assembled, Ref.ToBlock;
    SplitIs(e);
    var rec, blocks := Write(e), Blocks(e.body.refs);
    BlocksAt(e.body.refs, 0);
    BlocksAt(e.body.refs, 1);
    TwoBlocks(e.body.refs);
    NoImage(d, e.body.refs[0]);
    NoImage(d, e.body.refs[1]);
    assert blocks[..1][..0] == [] && blocks[..1] == [blocks[0]];
    assert ImagesAt(d, []) == [];
    assert ImagesAt(d, blocks[..1]) == [] + [];
    assert ImagesAt(d, blocks) == [] + [];
    assert [rec][..0] == [] && [] + [rec] == [rec];
    assert AllImages(d, []) == [];
  }

  lemma TwoBlocks(refs: seq<Ref>)
    requires |refs| == 2
    ensures |Blocks(refs)| == 2
  {
    hide Ref.ToBlock;
    assert refs[1..][1..] == [];
    assert Blocks(refs[1..][1..]) == [];
  }

  lemma NothingKept(d: Dict, p: Place)
    ensures Kept(d, [], p) == None
  {
  }

  /** Such a record is valid, and with no page kept nothing comes of it. */
  lemma MovedRowIsLost(d: Dict, old_: Tuple, new_: Tuple)
    requires 7 in d.tables && d.tables[7].relNode == 7 && Stored(d.printer([]), d.tables[7].cols, new_)
    requires Stored(d.printer([]), d.tables[7].cols, old_) && RowIn(d.printer([]), d.tables[7].cols, old_) != map[]
    requires |Raw(d.tables[7].cols, new_)| < PAGE_SIZE
    ensures var e := MovedUpdate(d.tables[7].cols, old_, new_);
            Moves(d, [], e) && e.doing.from == 2 && NewBlock(e) == 3 && Decode(d, [], Write(e)) == []
  {
    hide Raw, RowIn, Write, Decode, Assembled, AllPrinted, WellFormed, BitmapInside, AllImages, Kept, Stripped;
    var cols := d.tables[7].cols;
    var e := MovedUpdate(cols, old_, new_);
    MovedAssembled(cols, old_, new_);
    NothingStored(d, e);
    NothingKept(d, Place(7, 3));
    assert KindOf(0x20) == 2;
    assert Chooses(d, e.body.refs, 0) && TableOf(d, e) == d.tables[7];
    MovedIsLost(d, [], e);
  }
}
