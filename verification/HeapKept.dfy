/** How current the page kept of a block is: it is stored with a full-page image and never brought up to
    date by the rows put on the page later (flashbackCacheWantedFPW and flashbackDecodeHeapRecord in
    flashback_walparse.go), so the old row taken from it is the right one exactly when none was put at its
    line number since, or an equal one. */
module HeapKept {
  import opened Bytes
  import opened Options
  import opened Changes
  import opened Tuples
  import opened TupleForm
  import opened XLogBody
  import opened FullPage
  import opened PageCache
  import opened HeapRecords
  import opened KeptPages
  import opened XLogAssembly
  import opened HeapLog
  import opened HeapRecovery
  import HeapFile

  /** The page of an entry's new or deleted row. */
  function PlaceOf(e: Entry): Place
    requires e.k < |e.body.refs|
  {
    Place(e.body.refs[e.k].rel.rel, e.body.refs[e.k].blkno)
  }

  /** The tuple an entry puts at a line number of a page. */
  ghost function Puts(d: Dict, seen: seq<Bytes>, e: Entry, p: Place, off: nat): Option<Bytes>
    requires Valid(d, seen, e)
  {
    match e.doing
    case Inserts(at, _, new_) =>
      if PlaceOf(e) == p && at == off then Some(Raw(TableOf(d, e).cols, new_)) else None
    case Updates(_, _, _, _, _, _, at, _, _, new_) =>
      if PlaceOf(e) == p && at == off then Some(Raw(TableOf(d, e).cols, new_)) else None
    case Deletes(_, _, _, _, _, _) => None
    case Ends(_, _) => None
    case Others(_) => None
  }

  /** The image of a page in an entry, which is taken after its change. */
  function ImageIn(d: Dict, e: Entry, p: Place): Option<Bytes>
    requires Assembled(e)
  {
    LastPage(ImagesOf(d, Write(e)), p)
  }

  function LineOf(page: Option<Bytes>, off: nat): Option<Bytes> {
    if page.None? then None else HeapFile.TupleFromPage(page.value, off)
  }

  /** What a log leaves at a line number: the tuple on the last image of the page, or the one put there
      after it. */
  ghost function LineNow(d: Dict, log: seq<Entry>, p: Place, off: nat): Option<Bytes>
    requires ValidLog(d, log)
  {
    if log == [] then None
    else
      var before, e := log[..|log| - 1], log[|log| - 1];
      var put := Puts(d, WriteAll(before), e, p, off);
      if ImageIn(d, e, p).Some? then LineOf(ImageIn(d, e, p), off)
      else if put.Some? then put
      else LineNow(d, before, p, off)
  }

  /** The tuple last put there since the last image of the page, if any was. */
  ghost function PutSince(d: Dict, log: seq<Entry>, p: Place, off: nat): Option<Bytes>
    requires ValidLog(d, log)
  {
    if log == [] || ImageIn(d, log[|log| - 1], p).Some? then None
    else
      var before, e := log[..|log| - 1], log[|log| - 1];
      var put := Puts(d, WriteAll(before), e, p, off);
      if put.Some? then put else PutSince(d, before, p, off)
  }

  /** The page last stored, were the cache unbounded. */
  function LogKept(d: Dict, log: seq<Entry>, p: Place): Option<Bytes>
    requires AllAssembled(log)
  {
    LastPage(AllImages(d, WriteAll(log)), p)
  }

  lemma {:induction false} LastPageAppend(a: seq<StoreCall<Place>>, b: seq<StoreCall<Place>>, p: Place)
    ensures LastPage(a + b, p) == if LastPage(b, p).Some? then LastPage(b, p) else LastPage(a, p)
    decreases |b|
  {
    if b == [] {
      assert a + b == a;
    } else {
      LastPageAppend(a, b[..|b| - 1], p);
      assert (a + b)[..|a + b| - 1] == a + b[..|b| - 1];
    }
  }

  lemma StoresAppend(d: Dict, recs: seq<Bytes>, rec: Bytes, p: Place)
    ensures LastPage(AllImages(d, recs + [rec]), p)
            == if LastPage(ImagesOf(d, rec), p).Some? then LastPage(ImagesOf(d, rec), p)
               else LastPage(AllImages(d, recs), p)
  {
    hide ImagesOf, LastPage;
    assert (recs + [rec])[..|recs|] == recs;
    LastPageAppend(AllImages(d, recs), ImagesOf(d, rec), p);
  }

  lemma {:induction false} LineIs(d: Dict, log: seq<Entry>, p: Place, off: nat)
    requires ValidLog(d, log)
    ensures LineNow(d, log, p, off)
            == if PutSince(d, log, p, off).Some? then PutSince(d, log, p, off)
               else LineOf(LogKept(d, log, p), off)
    decreases |log|
  {
    hide Valid, Assembled, Puts, Write, ImagesOf, LineOf;
    if log == [] {
      assert LogKept(d, [], p) == None;
      assert LineOf(None, off) == None by { NoLine(off); }
    } else {
      var before, e := log[..|log| - 1], log[|log| - 1];
      LineIs(d, before, p, off);
      StoresAppend(d, WriteAll(before), Write(e), p);
    }
  }

  lemma NoLine(off: nat)
    ensures LineOf(None, off) == None
  {
  }

  /** The kept page holds what the log left at a line number if and only if nothing was put there since the
      page's last image, or the very same tuple. */
  lemma KeptIsCurrentIff(d: Dict, log: seq<Entry>, p: Place, off: nat)
    requires ValidLog(d, log)
    ensures LineOf(LogKept(d, log, p), off) == LineNow(d, log, p, off)
            <==> PutSince(d, log, p, off).None? || PutSince(d, log, p, off) == LineOf(LogKept(d, log, p), off)
  {
    hide *;
    LineIs(d, log, p, off);
  }

  // ---- Old rows taken from the kept page ----

  function OldOf(e: Entry): Old
    requires e.doing.Deletes? || e.doing.Updates?
  {
    e.doing.old_
  }

  /** A delete or an update on its own block, logged without the old row and without a page, of a row the log
      left there; the kept page of the block is still in the cache. */
  ghost predicate NeedsKept(d: Dict, log: seq<Entry>, e: Entry) {
    && ValidLog(d, log) && Valid(d, WriteAll(log), e) && (e.doing.Deletes? || e.doing.Updates?)
    && (e.doing.Updates? ==> e.doing.from == e.body.refs[e.k].blkno) && OldOf(e).Elsewhere?
    && TableOf(d, e).relNode == e.body.refs[e.k].rel.rel && Ours(d, e.body.refs[e.k])
    && e.body.refs[e.k].image.None? && ImageIn(d, e, PlaceOf(e)).None?
    && KeptPages.Kept(d, AllImages(d, WriteAll(log) + [Write(e)]), PlaceOf(e)).Some?
    && LineNow(d, log, PlaceOf(e), e.doing.off) == Some(Raw(TableOf(d, e).cols, OldOf(e).row))
  }

  /** The row of the kept page under the entry's line number. */
  ghost function KeptRow(d: Dict, log: seq<Entry>, e: Entry): Row
    requires NeedsKept(d, log, e)
  {
    PageRow(d.printer(WriteAll(log)), TableOf(d, e).cols, LogKept(d, log, PlaceOf(e)), e.doing.off)
  }

  /** The row put at that line number since the page's last image, as it reads. */
  ghost function RowPut(d: Dict, log: seq<Entry>, e: Entry): Option<Row>
    requires NeedsKept(d, log, e)
  {
    var put := PutSince(d, log, PlaceOf(e), e.doing.off);
    if put.None? then None else Some(HeapTuple(d.printer(WriteAll(log)), TableOf(d, e).cols, put.value))
  }

  lemma NeedsIs(d: Dict, log: seq<Entry>, e: Entry)
    requires NeedsKept(d, log, e)
    ensures AllAssembled(log) && Assembled(e) && e.k < |e.body.refs| && Chooses(d, e.body.refs, e.k)
  {
    hide Assembled, LineNow;
  }

  lemma KeptCached(d: Dict, log: seq<Entry>, e: Entry)
    requires NeedsKept(d, log, e)
    ensures AllAssembled(log) && Assembled(e) && e.k < |e.body.refs|
    ensures PageKept(d, WriteAll(log), e, PlaceOf(e)) == LogKept(d, log, PlaceOf(e))
  {
    hide Valid, Assembled, Write, ImagesOf, LastPage, Newest, Admissions, LineNow, Raw, ValidLog;
    NeedsIs(d, log, e);
    StoresAppend(d, WriteAll(log), Write(e), PlaceOf(e));
  }

  /** Where the kept page has a row under the line number, the entry is read as logged if and only if no row
      was put there since the page's last image, or one that reads the same; else the row of the image is
      taken for the old one. */
  lemma KeptRightIff(d: Dict, log: seq<Entry>, e: Entry)
    requires NeedsKept(d, log, e) && KeptRow(d, log, e) != map[]
    ensures FoundOld(d, WriteAll(log), e) == KeptRow(d, log, e)
    ensures ReadRight(d, WriteAll(log), e)
            <==> RowPut(d, log, e).None? || RowPut(d, log, e) == Some(KeptRow(d, log, e))
  {
    hide Assembled, Write, ImagesOf, LineNow, PutSince, PageKept, Raw, RowIn, Stored, ValidLog, LogKept, Rebuild,
         HeapFile.TupleFromPage, HeapTuple, XLogTuple, DoingValid, WriteAll, Newest, Admissions, Ref.ToBlock, HasFlag;
    NeedsIs(d, log, e);
    var seen, t := WriteAll(log), TableOf(d, e);
    KeptCached(d, log, e);
    NoImage(d, e.body.refs[e.k]);
    LineIs(d, log, PlaceOf(e), e.doing.off);
    OldIsStored(d, seen, e);
    StoredRead(d.printer(seen), t.cols, OldOf(e).row);
  }

  lemma OldIsStored(d: Dict, seen: seq<Bytes>, e: Entry)
    requires Valid(d, seen, e) && (e.doing.Deletes? || e.doing.Updates?)
    ensures Stored(d.printer(seen), TableOf(d, e).cols, OldOf(e).row)
  {
    hide Stored, RowIn, Assembled, HasFlag;
  }

  /** A row that was on the last image of its page and whose line number was not used again is found. */
  lemma KeptIsRight(d: Dict, log: seq<Entry>, e: Entry)
    requires NeedsKept(d, log, e) && RowPut(d, log, e).None?
    ensures ReadRight(d, WriteAll(log), e)
  {
    hide Assembled, Write, ImagesOf, LineNow, PutSince, PageKept, Raw, RowIn, Stored, ValidLog, LogKept, Rebuild,
         HeapFile.TupleFromPage, HeapTuple, XLogTuple, DoingValid, WriteAll, Newest, Admissions, Ref.ToBlock, HasFlag;
    NeedsIs(d, log, e);
    var seen, t := WriteAll(log), TableOf(d, e);
    LineIs(d, log, PlaceOf(e), e.doing.off);
    OldIsStored(d, seen, e);
    OldIsRow(d, seen, e);
    StoredRead(d.printer(seen), t.cols, OldOf(e).row);
    KeptRightIff(d, log, e);
  }
}
