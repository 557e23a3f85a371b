/** Scanning a relation's files and reading one tuple by its place (flashback_pdu_heap.go; the page-level
    lookup is in flashback_walparse.go). A relation is its base file, number 0, and numbered segments. */
module HeapFile {
  import opened Bytes
  import opened Options
  import opened Changes
  import opened Tuples
  import opened Lists

  const PAGE_HEADER := 24
  const ITEM_SIZE := 4
  const LP_NORMAL := 1
  const XMAX_INVALID := 0x0800
  const SEGMENT_PAGES := 0x2_0000
  const MAX_SEGMENTS := 1024

  datatype Reader = Reader(printer: Printer, cols: seq<Column>)

  datatype HeapRow = HeapRow(xmin: U32, xmax: U32, block: U32, offnum: nat, infomask: U16, hoff: nat, raw: Bytes,
                             dead: bool, lsn: nat, values: Row)

  type Files = map<nat, Bytes>

  /** The tuple the WAL reader takes from a cached page. */
  function TupleFromPage(page: Bytes, offnum: nat): Option<Bytes> {
    var itemOff := PAGE_HEADER + ITEM_SIZE * (offnum - 1);
    if |page| < PAGE_HEADER || offnum == 0 || itemOff + ITEM_SIZE > |page| then None
    else
      var item := LE32(page, itemOff);
      var off := item % 0x8000;
      var len := item / 0x2_0000 % 0x8000;
      if item / 0x8000 % 4 != LP_NORMAL || len < TUPLE_HEADER || off + len > |page| then None
      else Some(page[off..off + len])
  }

  /** The bytes line pointer `i` leads to in a scan, for a normal one that stays on the page. */
  function Slot(page: Bytes, i: nat): (raw: Option<Bytes>)
    requires PAGE_HEADER + ITEM_SIZE * i + ITEM_SIZE <= |page|
    ensures raw.Some? ==> |raw.value| >= TUPLE_HEADER
  {
    var item := LE32(page, PAGE_HEADER + ITEM_SIZE * i);
    var off := item % 0x8000;
    var len := item / 0x2_0000;
    if item / 0x8000 % 4 != LP_NORMAL || len < TUPLE_HEADER || off + len > |page| then None
    else Some(page[off..off + len])
  }

  /** How many line pointers a page has; none if its header makes no sense. */
  function Items(page: Bytes): (n: nat)
    requires |page| == PAGE_SIZE
    ensures n > 0 ==> PAGE_HEADER + ITEM_SIZE * n <= |page|
  {
    var lower := LE16(page, 12);
    var upper := LE16(page, 14);
    if lower < PAGE_HEADER || upper > PAGE_SIZE || LE16(page, 16) > PAGE_SIZE || lower > upper then 0
    else (lower - PAGE_HEADER) / ITEM_SIZE
  }

  function RowOf(r: Reader, page: Bytes, raw: Bytes, block: U32, i: nat): Option<HeapRow>
    requires |page| == PAGE_SIZE && |raw| >= TUPLE_HEADER
  {
    var infomask := LE16(raw, 20);
    var hoff := raw[22] as int;
    var xmax := LE32(raw, 4);
    if hoff < TUPLE_HEADER || hoff > |raw| then None
    else Some(HeapRow(LE32(raw, 0), xmax, block, i + 1, infomask, hoff, raw,
                      xmax != 0 && !HasFlag(infomask, XMAX_INVALID), LE32(page, 0) + 0x1_0000_0000 * LE32(page, 4),
                      Attrs(r.printer, r.cols, raw, infomask, hoff)))
  }

  function Item(r: Reader, page: Bytes, block: U32, i: nat): (row: Option<HeapRow>)
    requires |page| == PAGE_SIZE && i < Items(page)
    ensures row.Some? ==> row.value.block == block && row.value.offnum == i + 1
  {
    var raw := Slot(page, i);
    if raw.None? then None else RowOf(r, page, raw.value, block, i)
  }

  function Shown(row: Option<HeapRow>, withDead: bool): seq<HeapRow> {
    if row.None? || (row.value.dead && !withDead) then [] else [row.value]
  }

  /** The rows of a page from line pointer `i` on. */
  function PageRows(r: Reader, page: Bytes, block: U32, withDead: bool, i: nat): (rows: seq<HeapRow>)
    requires |page| == PAGE_SIZE && i <= Items(page)
    decreases Items(page) - i
  {
    if i == Items(page) then []
    else Shown(Item(r, page, block, i), withDead) + PageRows(r, page, block, withDead, i + 1)
  }

  /** The label of page `k` of the segment listed at place `seg`, in 32 bits. */
  function Label(seg: nat, k: nat): U32 {
    (seg * SEGMENT_PAGES + k) % 0x1_0000_0000
  }

  function Page(file: Bytes, k: nat): (page: Bytes)
    requires (k + 1) * PAGE_SIZE <= |file|
    ensures |page| == PAGE_SIZE
  {
    file[k * PAGE_SIZE..][..PAGE_SIZE]
  }

  /** The rows of a segment's whole pages from page `k` on. */
  function SegmentRows(r: Reader, file: Bytes, seg: nat, withDead: bool, k: nat): (rows: seq<HeapRow>)
    decreases |file| - k * PAGE_SIZE
  {
    if (k + 1) * PAGE_SIZE > |file| then []
    else PageRows(r, Page(file, k), Label(seg, k), withDead, 0) + SegmentRows(r, file, seg, withDead, k + 1)
  }

  /** The numbered segments from `i` on, up to the first missing one. */
  function Numbered(files: Files, i: nat): (names: seq<nat>)
    decreases MAX_SEGMENTS - i
  {
    if i >= MAX_SEGMENTS || i !in files then [] else [i] + Numbered(files, i + 1)
  }

  function Segments(files: Files): seq<nat> {
    (if 0 in files then [0] else []) + Numbered(files, 1)
  }

  /** The rows of the listed segments from place `j` on. */
  function FileRows(r: Reader, files: Files, withDead: bool, j: nat): (rows: seq<HeapRow>)
    requires j <= |Segments(files)| && forall n :: n in Segments(files) ==> n in files
    decreases |Segments(files)| - j
  {
    var names := Segments(files);
    if j == |names| then []
    else SegmentRows(r, files[names[j]], j, withDead, 0) + FileRows(r, files, withDead, j + 1)
  }

  function First(rows: seq<HeapRow>, offnum: nat): Option<HeapRow> {
    if rows == [] then None else if rows[0].offnum == offnum then Some(rows[0]) else First(rows[1..], offnum)
  }

  function ReadAt(r: Reader, files: Files, block: U32, offnum: nat): Option<HeapRow> {
    var seg := block / SEGMENT_PAGES;
    var k := block % SEGMENT_PAGES;
    if offnum == 0 || seg !in files || (k + 1) * PAGE_SIZE > |files[seg]| then None
    else First(PageRows(r, Page(files[seg], k), block, true, 0), offnum)
  }

  // ---- The loops ----

  method ScanHeapPage(r: Reader, page: Bytes, block: U32, withDead: bool) returns (out: seq<HeapRow>)
    requires |page| == PAGE_SIZE
    ensures out == PageRows(r, page, block, withDead, 0)
  {
    hide Items, Item;
    out := [];
    var n := Items(page);
    PageEnds(r, page, block, withDead);
    for i := 0 to n
      invariant PageRows(r, page, block, withDead, 0) == out + PageRows(r, page, block, withDead, i)
    {
      var row := Item(r, page, block, i);
      Regroup(out, Shown(row, withDead), PageRows(r, page, block, withDead, i + 1));
      if row.None? { continue; }
      if row.value.dead && !withDead { continue; }
      out := out + [row.value];
    }
  }

  lemma PageEnds(r: Reader, page: Bytes, block: U32, withDead: bool)
    requires |page| == PAGE_SIZE
    ensures PageRows(r, page, block, withDead, Items(page)) == []
  {
  }

  method ScanHeapSegment(r: Reader, file: Bytes, seg: nat, withDead: bool) returns (out: seq<HeapRow>)
    ensures out == SegmentRows(r, file, seg, withDead, 0)
  {
    hide PageRows, Label, Page;
    out := [];
    var k := 0;
    while (k + 1) * PAGE_SIZE <= |file|
      invariant SegmentRows(r, file, seg, withDead, 0) == out + SegmentRows(r, file, seg, withDead, k)
      decreases |file| - k * PAGE_SIZE
    {
      var rows := ScanHeapPage(r, Page(file, k), Label(seg, k), withDead);
      Regroup(out, rows, SegmentRows(r, file, seg, withDead, k + 1));
      out := out + rows;
      k := k + 1;
    }
  }

  method ListSegments(files: Files) returns (names: seq<nat>)
    ensures names == Segments(files)
  {
    names := if 0 in files then [0] else [];
    ghost var base := names;
    var i := 1;
    while i < MAX_SEGMENTS
      invariant i >= 1 && Segments(files) == names + Numbered(files, i)
    {
      if i !in files { break; }
      Regroup(names, [i], Numbered(files, i + 1));
      names := names + [i];
      i := i + 1;
    }
  }

  lemma {:induction false} NumberedExist(files: Files, i: nat)
    ensures forall n :: n in Numbered(files, i) ==> n in files
    decreases MAX_SEGMENTS - i
  {
    if i < MAX_SEGMENTS && i in files { NumberedExist(files, i + 1); }
  }

  lemma SegmentsExist(files: Files)
    ensures forall n :: n in Segments(files) ==> n in files
  {
    NumberedExist(files, 1);
  }

  lemma FileEnds(r: Reader, files: Files, withDead: bool)
    requires forall n :: n in Segments(files) ==> n in files
    ensures FileRows(r, files, withDead, |Segments(files)|) == []
  {
  }

  /** No segment at all is an error. */
  method ScanHeapFile(r: Reader, files: Files, withDead: bool) returns (out: Option<seq<HeapRow>>)
    ensures forall n :: n in Segments(files) ==> n in files
    ensures out == if Segments(files) == [] then None else Some(FileRows(r, files, withDead, 0))
  {
    hide SegmentRows, Numbered;
    SegmentsExist(files);
    var names := ListSegments(files);
    var rows := [];
    FileEnds(r, files, withDead);
    for j := 0 to |names|
      invariant FileRows(r, files, withDead, 0) == rows + FileRows(r, files, withDead, j)
    {
      var found := ScanHeapSegment(r, files[names[j]], j, withDead);
      Regroup(rows, found, FileRows(r, files, withDead, j + 1));
      rows := rows + found;
    }
    assert rows + [] == rows;
    out := if names == [] then None else Some(rows);
  }

  method ReadHeapTupleAt(r: Reader, files: Files, block: U32, offnum: nat) returns (row: Option<HeapRow>)
    ensures row == ReadAt(r, files, block, offnum)
  {
    hide PageRows, Page;
    if offnum == 0 { return None; }
    var seg, k := block / SEGMENT_PAGES, block % SEGMENT_PAGES;
    if seg !in files || (k + 1) * PAGE_SIZE > |files[seg]| { return None; }
    var rows := ScanHeapPage(r, Page(files[seg], k), block, true);
    for i := 0 to |rows|
      invariant First(rows, offnum) == First(rows[i..], offnum)
    {
      if rows[i].offnum == offnum { return Some(rows[i]); }
    }
    return None;
  }

  // ---- Where rows come from ----

  lemma {:induction false} PageOrigin(r: Reader, page: Bytes, block: U32, withDead: bool, i: nat, t: HeapRow)
      returns (k: nat)
    requires |page| == PAGE_SIZE && i <= Items(page) && t in PageRows(r, page, block, withDead, i)
    ensures i <= k < Items(page) && Item(r, page, block, k) == Some(t)
    decreases Items(page) - i
  {
    hide Items, Item;
    if t in Shown(Item(r, page, block, i), withDead) { k := i; }
    else { k := PageOrigin(r, page, block, withDead, i + 1, t); }
  }

  lemma {:induction false} PageMember(r: Reader, page: Bytes, block: U32, i: nat, k: nat, t: HeapRow)
    requires |page| == PAGE_SIZE && i <= k < Items(page) && Item(r, page, block, k) == Some(t)
    ensures t in PageRows(r, page, block, true, i)
    decreases k - i
  {
    hide Items, Item;
    if i < k { PageMember(r, page, block, i + 1, k, t); }
  }

  /** The first row with a given number is what its line pointer gives, also when that is nothing. */
  lemma {:induction false} FirstOfPage(r: Reader, page: Bytes, block: U32, i: nat, offnum: nat)
    requires |page| == PAGE_SIZE && i <= Items(page)
    ensures First(PageRows(r, page, block, true, i), offnum)
            == if i < offnum <= Items(page) then Item(r, page, block, offnum - 1) else None
    decreases Items(page) - i
  {
    hide Items, Item;
    if i < Items(page) {
      FirstOfPage(r, page, block, i + 1, offnum);
      var row := Item(r, page, block, i);
      var rest := PageRows(r, page, block, true, i + 1);
      if row.Some? { assert ([row.value] + rest)[1..] == rest; } else { assert [] + rest == rest; }
    }
  }

  lemma {:induction false} SegmentOrigin(r: Reader, file: Bytes, seg: nat, withDead: bool, k0: nat, t: HeapRow)
      returns (k: nat)
    requires t in SegmentRows(r, file, seg, withDead, k0)
    ensures k0 <= k && (k + 1) * PAGE_SIZE <= |file| && t in PageRows(r, Page(file, k), Label(seg, k), withDead, 0)
    decreases |file| - k0 * PAGE_SIZE
  {
    hide PageRows, Label, Page;
    if t in PageRows(r, Page(file, k0), Label(seg, k0), withDead, 0) { k := k0; }
    else { k := SegmentOrigin(r, file, seg, withDead, k0 + 1, t); }
  }

  lemma {:induction false} SegmentMember(r: Reader, file: Bytes, seg: nat, withDead: bool, k0: nat, k: nat, t: HeapRow)
    requires k0 <= k && (k + 1) * PAGE_SIZE <= |file| && t in PageRows(r, Page(file, k), Label(seg, k), withDead, 0)
    ensures t in SegmentRows(r, file, seg, withDead, k0)
    decreases k - k0
  {
    hide PageRows, Label, Page;
    if k0 < k { SegmentMember(r, file, seg, withDead, k0 + 1, k, t); }
  }

  lemma {:induction false} FileOrigin(r: Reader, files: Files, withDead: bool, j0: nat, t: HeapRow) returns (j: nat)
    requires j0 <= |Segments(files)| && forall n :: n in Segments(files) ==> n in files
    requires t in FileRows(r, files, withDead, j0)
    ensures j0 <= j < |Segments(files)| && t in SegmentRows(r, files[Segments(files)[j]], j, withDead, 0)
    decreases |Segments(files)| - j0
  {
    hide SegmentRows, Segments;
    if t in SegmentRows(r, files[Segments(files)[j0]], j0, withDead, 0) { j := j0; }
    else { j := FileOrigin(r, files, withDead, j0 + 1, t); }
  }

  lemma {:induction false} FileMember(r: Reader, files: Files, withDead: bool, j0: nat, j: nat, t: HeapRow)
    requires j0 <= j < |Segments(files)| && forall n :: n in Segments(files) ==> n in files
    requires t in SegmentRows(r, files[Segments(files)[j]], j, withDead, 0)
    ensures t in FileRows(r, files, withDead, j0)
    decreases j - j0
  {
    hide SegmentRows, Segments;
    if j0 < j { FileMember(r, files, withDead, j0 + 1, j, t); }
  }

  lemma {:induction false} NumberedAt(files: Files, i: nat, j: nat)
    requires 1 <= i && j < |Numbered(files, i)|
    ensures Numbered(files, i)[j] == i + j && i + j < MAX_SEGMENTS
    decreases j
  {
    if j > 0 { NumberedAt(files, i + 1, j - 1); }
  }

  /** With a base file, the place in the list is the segment's number; without one, it is one less. */
  lemma SegmentNumber(files: Files, j: nat)
    requires j < |Segments(files)|
    ensures Segments(files)[j] == (if 0 in files then j else j + 1) && j < MAX_SEGMENTS
  {
    var skip := if 0 in files then 1 else 0;
    if j >= skip { NumberedAt(files, 1, j - skip); }
  }

  lemma LabelParts(seg: nat, k: nat)
    requires seg < MAX_SEGMENTS && k < SEGMENT_PAGES
    ensures Label(seg, k) / SEGMENT_PAGES == seg && Label(seg, k) % SEGMENT_PAGES == k
  {
  }

  // ---- Lookup against scan ----

  /** Every listed segment exists and is at most a gigabyte. */
  predicate Sized(files: Files) {
    forall n :: n in Segments(files) ==> n in files && |files[n]| <= SEGMENT_PAGES * PAGE_SIZE
  }

  /** A row of a scan comes from the page of the segment its block names, counted by place in the list. */
  lemma ScannedPlace(r: Reader, files: Files, withDead: bool, t: HeapRow) returns (j: nat, k: nat)
    requires Sized(files) && t in FileRows(r, files, withDead, 0)
    ensures j < |Segments(files)| && j < MAX_SEGMENTS && k < SEGMENT_PAGES && t.block == Label(j, k)
    ensures (k + 1) * PAGE_SIZE <= |files[Segments(files)[j]]|
    ensures 0 < t.offnum <= Items(Page(files[Segments(files)[j]], k))
    ensures Item(r, Page(files[Segments(files)[j]], k), t.block, t.offnum - 1) == Some(t)
  {
    hide SegmentRows, PageRows, Item, Items, Label, Page, Numbered;
    j := FileOrigin(r, files, withDead, 0, t);
    SegmentNumber(files, j);
    var file := files[Segments(files)[j]];
    k := SegmentOrigin(r, file, j, withDead, 0, t);
    var i := PageOrigin(r, Page(file, k), Label(j, k), withDead, 0, t);
  }

  lemma ReadAtPage(r: Reader, files: Files, j: nat, k: nat, offnum: nat)
    requires j < MAX_SEGMENTS && k < SEGMENT_PAGES
    ensures ReadAt(r, files, Label(j, k), offnum) ==
            if j !in files || (k + 1) * PAGE_SIZE > |files[j]| then None
            else if 0 < offnum <= Items(Page(files[j], k)) then Item(r, Page(files[j], k), Label(j, k), offnum - 1)
            else None
  {
    hide PageRows, Item, Items, Page, Label;
    LabelParts(j, k);
    if j in files && (k + 1) * PAGE_SIZE <= |files[j]| {
      FirstOfPage(r, Page(files[j], k), Label(j, k), 0, offnum);
    }
  }

  /** With a base file, scanning (dead rows included) finds exactly the rows that lookups in the listed
      segments return, each under its own block and number. */
  lemma LookupAgreesWithScan(r: Reader, files: Files, t: HeapRow)
    requires Sized(files) && 0 in files
    ensures t in FileRows(r, files, true, 0) <==>
            ReadAt(r, files, t.block, t.offnum) == Some(t) && t.block / SEGMENT_PAGES < |Segments(files)|
  {
    hide FileRows, ReadAt, Item, Items, Page, Label, Numbered, First, PageRows;
    if t in FileRows(r, files, true, 0) { ScannedIsRead(r, files, true, t); }
    if ReadAt(r, files, t.block, t.offnum) == Some(t) && t.block / SEGMENT_PAGES < |Segments(files)| {
      ReadIsScanned(r, files, t);
    }
  }

  lemma ScannedIsRead(r: Reader, files: Files, withDead: bool, t: HeapRow)
    requires Sized(files) && 0 in files && t in FileRows(r, files, withDead, 0)
    ensures ReadAt(r, files, t.block, t.offnum) == Some(t) && t.block / SEGMENT_PAGES < |Segments(files)|
  {
    hide FileRows, ReadAt, Item, Items, Page, Label, Segments;
    var j, k := ScannedPlace(r, files, withDead, t);
    SegmentNumber(files, j);
    LabelParts(j, k);
    ReadAtPage(r, files, j, k, t.offnum);
  }

  lemma ReadIsScanned(r: Reader, files: Files, t: HeapRow)
    requires Sized(files) && 0 in files && t.block / SEGMENT_PAGES < |Segments(files)|
    requires ReadAt(r, files, t.block, t.offnum) == Some(t)
    ensures t in FileRows(r, files, true, 0)
  {
    hide FileRows, ReadAt, Item, Items, Page, Segments, SegmentRows, PageRows;
    var j, k := t.block / SEGMENT_PAGES, t.block % SEGMENT_PAGES;
    SegmentNumber(files, j);
    ReadAtPage(r, files, j, k, t.offnum);
    PageMember(r, Page(files[j], k), t.block, 0, t.offnum - 1, t);
    SegmentMember(r, files[j], j, true, 0, k, t);
    FileMember(r, files, true, 0, j, t);
  }

  /** A page yields a row at a line pointer whatever block it is labelled with. */
  lemma Relabelled(r: Reader, page: Bytes, block: U32, other: U32, i: nat)
    requires |page| == PAGE_SIZE && i < Items(page) && Item(r, page, block, i).Some?
    ensures Item(r, page, other, i).Some?
  {
    hide Items, Slot;
  }

  predicate Agrees(r: Reader, files: Files, t: HeapRow) {
    ReadAt(r, files, t.block, t.offnum) == Some(t)
  }

  /** Without a base file each segment is scanned under its predecessor's blocks, so some row is not
      where its block says: if the lookup of one row does hit, it hits a page that itself is a scanned one. */
  lemma {:induction false} WithoutBase(r: Reader, files: Files, t: HeapRow) returns (astray: HeapRow)
    requires Sized(files) && 0 !in files && t in FileRows(r, files, true, 0)
    ensures astray in FileRows(r, files, true, 0) && !Agrees(r, files, astray)
    decreases t.block
  {
    hide FileRows, ReadAt, Item, Items, Page, Label, Segments;
    if !Agrees(r, files, t) { return t; }
    var j, k := ScannedPlace(r, files, true, t);
    ReadAtPage(r, files, j, k, t.offnum);
    var before := Previous(r, files, j, k, t);
    astray := WithoutBase(r, files, before);
  }

  lemma Previous(r: Reader, files: Files, j: nat, k: nat, t: HeapRow) returns (before: HeapRow)
    requires Sized(files) && 0 !in files && j < |Segments(files)| && j in files && k < SEGMENT_PAGES
    requires (k + 1) * PAGE_SIZE <= |files[j]| && 0 < t.offnum <= Items(Page(files[j], k))
    requires t.block == Label(j, k) && Item(r, Page(files[j], k), t.block, t.offnum - 1) == Some(t)
    ensures before in FileRows(r, files, true, 0) && before.block < t.block
  {
    hide FileRows, Item, Items, Page, Segments, SegmentRows, PageRows;
    SegmentNumber(files, j);
    SegmentNumber(files, j - 1);
    var i := t.offnum - 1;
    var page := Page(files[j], k);
    Relabelled(r, page, t.block, Label(j - 1, k), i);
    before := Item(r, page, Label(j - 1, k), i).value;
    PageMember(r, page, Label(j - 1, k), 0, i, before);
    SegmentMember(r, files[j], j - 1, true, 0, k, before);
    FileMember(r, files, true, 0, j - 1, before);
  }

  /** Exactly when every scanned row is what its lookup returns: a base file, or nothing found. */
  lemma ScanAgreesIff(r: Reader, files: Files)
    requires Sized(files)
    ensures (forall t :: t in FileRows(r, files, true, 0) ==> Agrees(r, files, t))
            <==> 0 in files || FileRows(r, files, true, 0) == []
  {
    hide FileRows, ReadAt, Segments;
    var rows := FileRows(r, files, true, 0);
    if 0 in files {
      forall t | t in rows ensures Agrees(r, files, t) { ScannedIsRead(r, files, true, t); }
    } else if rows != [] {
      var astray := WithoutBase(r, files, rows[0]);
    }
  }

  /** The page-level lookup of the WAL reader takes the same bytes as the scan: exactly them, for a line
      pointer the page header admits and a tuple whose data offset makes sense. */
  lemma PageLookupAgrees(r: Reader, page: Bytes, block: U32, offnum: nat, raw: Bytes)
    requires |page| == PAGE_SIZE && 0 < offnum <= Items(page)
    ensures TupleFromPage(page, offnum) == Some(raw) && |raw| > 22 && TUPLE_HEADER <= raw[22] as int <= |raw|
            <==> Item(r, page, block, offnum - 1).Some? && Item(r, page, block, offnum - 1).value.raw == raw
  {
    hide Items, LE16, LE32;
  }
}
