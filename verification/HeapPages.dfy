/** Heap pages as PostgreSQL lays them out, and relations of them cut into segment files: what a scan and a
    lookup find there (flashback_pdu_heap.go). */
module HeapPages {
  import opened Bytes
  import opened Options
  import opened Changes
  import opened Tuples
  import opened TupleForm
  import opened HeapFile
  import opened Lists
  import opened Texts
  import HeapPath

  // ---- Pages ----

  /** A line pointer: an offset of 15 bits, two flag bits that are 1 for a tuple, a length of 15 bits. */
  datatype Line = Line(off: nat, flags: nat, len: nat) {
    predicate Valid() {
      off < 0x8000 && flags < 4 && len < 0x8000
    }

    function Word(): U32
      requires Valid()
    {
      off + 0x8000 * flags + 0x2_0000 * len
    }
  }

  /** A page: log position, free fields, line pointers, and all that is behind them. */
  datatype PageOf = PageOf(lsn: nat, check: Bytes, upper: U16, special: U16, tail: Bytes, lines: seq<Line>,
                           area: Bytes) {
    predicate Valid() {
      && lsn < 0x1_0000_0000_0000_0000 && |check| == 4 && |tail| == 6
      && (forall i :: 0 <= i < |lines| ==> lines[i].Valid())
      && 24 + 4 * |lines| + |area| == 8192 && 24 + 4 * |lines| <= upper <= 8192 && special <= 8192
    }

    function Head(): (s: Bytes)
      requires Valid()
      ensures |s| == 24
    {
      Put32(lsn % 0x1_0000_0000) + Put32(lsn / 0x1_0000_0000) + check
      + Put16(24 + 4 * |lines|) + Put16(upper) + Put16(special) + tail
    }

    function Write(): (s: Bytes)
      requires Valid()
      ensures |s| == 8192
    {
      Head() + LineWords(lines) + area
    }
  }

  function LineWords(lines: seq<Line>): (s: Bytes)
    requires forall i :: 0 <= i < |lines| ==> lines[i].Valid()
    ensures |s| == 4 * |lines|
  {
    if lines == [] then [] else Put32(lines[0].Word()) + LineWords(lines[1..])
  }

  lemma HeadRead(p: PageOf)
    requires p.Valid()
    ensures var s := p.Write();
            && LE16(s, 12) == 24 + 4 * |p.lines| && LE16(s, 14) == p.upper && LE16(s, 16) == p.special
            && LE32(s, 0) + 0x1_0000_0000 * LE32(s, 4) == p.lsn
  {
    hide Put16, Put32, LE16, LE32;
    var s := p.Write();
    var low, high := p.lsn % 0x1_0000_0000, p.lsn / 0x1_0000_0000;
    assert s[0..4] == Put32(low) && s[4..8] == Put32(high);
    LE32At(s, 0, 4, low);
    LE32At(s, 4, 8, high);
    assert s[12..14] == Put16(24 + 4 * |p.lines|) && s[14..16] == Put16(p.upper) && s[16..18] == Put16(p.special);
    LE16At(s, 12, 24 + 4 * |p.lines|);
    LE16At(s, 14, p.upper);
    LE16At(s, 16, p.special);
  }

  lemma LE16At(s: Bytes, i: nat, n: U16)
    requires i + 2 <= |s| && s[i..i + 2] == Put16(n)
    ensures LE16(s, i) == n
  {
    var w := s[i..i + 2];
    assert w[0] == s[i] && w[1] == s[i + 1];
  }

  lemma {:induction false} WordAt(lines: seq<Line>, i: nat)
    requires i < |lines| && forall k :: 0 <= k < |lines| ==> lines[k].Valid()
    ensures LineWords(lines)[4 * i..4 * i + 4] == Put32(lines[i].Word())
    decreases i
  {
    hide Put32, Line.Word, Line.Valid;
    if i > 0 {
      WordAt(lines[1..], i - 1);
      assert LineWords(lines)[4 * i..4 * i + 4] == LineWords(lines[1..])[4 * (i - 1)..4 * (i - 1) + 4];
    }
  }

  lemma WordRead(p: PageOf, i: nat)
    requires p.Valid() && i < |p.lines|
    ensures LE32(p.Write(), 24 + 4 * i) == p.lines[i].Word()
  {
    hide Put32, LE32, Line.Word, PageOf.Head;
    var s := p.Write();
    WordAt(p.lines, i);
    assert s[24 + 4 * i..24 + 4 * i + 4] == LineWords(p.lines)[4 * i..4 * i + 4];
    LE32At(s, 24 + 4 * i, 24 + 4 * i + 4, p.lines[i].Word());
  }

  /** The tuple of a line: for a pointer with flag 1 and room for a tuple header, as long as it stays on the
      page. */
  function TupleAt(p: PageOf, i: nat): Option<Bytes>
    requires p.Valid() && i < |p.lines|
  {
    var l := p.lines[i];
    if l.flags == 1 && l.len >= 23 && l.off + l.len <= 8192 then Some(p.Write()[l.off..l.off + l.len]) else None
  }

  lemma WordParts(l: Line)
    requires l.Valid()
    ensures var w := l.Word(); w % 0x8000 == l.off && w / 0x8000 % 4 == l.flags && w / 0x2_0000 == l.len
  {
  }

  /** Scan and lookup find exactly the tuples of the lines, under numbers from 1 on. */
  lemma LinesRead(p: PageOf)
    requires p.Valid()
    ensures Items(p.Write()) == |p.lines|
    ensures forall i :: 0 <= i < |p.lines| ==> Slot(p.Write(), i) == TupleAt(p, i)
                                               && TupleFromPage(p.Write(), i + 1) == TupleAt(p, i)
  {
    hide PageOf.Write, LE16, LE32, Line.Word;
    HeadRead(p);
    forall i | 0 <= i < |p.lines| ensures Slot(p.Write(), i) == TupleAt(p, i)
                                          && TupleFromPage(p.Write(), i + 1) == TupleAt(p, i) {
      WordRead(p, i);
      WordParts(p.lines[i]);
    }
  }

  // ---- Rows ----

  /** A formed tuple with its transaction ids: creator, deleter, ten more bytes, and the rest of the header. */
  datatype Stored = Stored(xmin: U32, xmax: U32, ids: Bytes, infomask2: U16, infomask: U16, filler: Bytes,
                           vals: seq<StoredValue>) {
    function Header(): TupleForm.Header {
      TupleForm.Header(Put32(xmin) + Put32(xmax) + ids, infomask2, infomask, filler)
    }

    predicate Valid(p: Printer, cols: seq<Column>) {
      && |ids| == 10 && WellFormed(cols, vals, Header()) && AllPrinted(p, cols, vals)
      && BitmapInside(cols, Form(cols, vals, Header()), infomask)
    }

    /** Deleted, unless the deleter is marked as none (bit 11). */
    predicate Dead() {
      xmax != 0 && infomask / 0x800 % 2 == 0
    }
  }

  /** What a row of the page tells. */
  function RowFor(r: Reader, t: Stored, block: U32, i: nat, lsn: nat): HeapRow
    requires t.Valid(r.printer, r.cols)
  {
    var raw := Form(r.cols, t.vals, t.Header());
    HeapRow(t.xmin, t.xmax, block, i + 1, t.infomask, DataAt(t.Header(), t.vals), raw, t.Dead(), lsn,
            Told(r.printer, r.cols, t.vals, 0) + Missing(r.cols, NullBits(r.cols, raw, t.infomask), |t.vals|))
  }

  lemma TupleFields(r: Reader, t: Stored)
    requires t.Valid(r.printer, r.cols)
    ensures var raw := Form(r.cols, t.vals, t.Header());
            && |raw| >= DataAt(t.Header(), t.vals) >= TUPLE_HEADER
            && LE32(raw, 0) == t.xmin && LE32(raw, 4) == t.xmax && LE16(raw, 20) == t.infomask
            && raw[22] as int == DataAt(t.Header(), t.vals)
  {
    hide Put32, LE32, LE16, Put16, NullMap, Data, AllFit;
    var h := t.Header();
    FormedHeader(r.cols, t.vals, h);
    var raw := Form(r.cols, t.vals, h);
    assert raw[0..4] == Put32(t.xmin) && raw[4..8] == Put32(t.xmax);
    LE32At(raw, 0, 4, t.xmin);
    LE32At(raw, 4, 8, t.xmax);
  }

  lemma DeadBit(infomask: nat)
    ensures HasFlag(infomask, XMAX_INVALID) <==> infomask / 0x800 % 2 == 1
  {
  }

  /** A line that leads to a formed tuple gives its row. */
  lemma RowRead(r: Reader, p: PageOf, i: nat, t: Stored, block: U32)
    requires p.Valid() && i < |p.lines| && t.Valid(r.printer, r.cols)
    requires TupleAt(p, i) == Some(Form(r.cols, t.vals, t.Header()))
    ensures Items(p.Write()) == |p.lines| && Item(r, p.Write(), block, i) == Some(RowFor(r, t, block, i, p.lsn))
  {
    hide PageOf.Write, Form, LE32, LE16, Slot, Items, Told, Missing, NullBits, DataAt, WellFormed, AllPrinted, Walk,
         HasFlag, BitmapInside;
    LinesRead(p);
    HeadRead(p);
    TupleFields(r, t);
    DeadBit(t.infomask);
    FormedRead(r.printer, r.cols, t.vals, t.Header());
  }

  /** What stands under each line number: a row, or nothing the reader takes. */
  ghost predicate Holds(r: Reader, p: PageOf, rows: seq<Option<Stored>>)
    requires p.Valid()
  {
    && |rows| == |p.lines|
    && forall i :: 0 <= i < |rows| ==>
         match rows[i]
         case None => TupleAt(p, i) == None
         case Some(t) => t.Valid(r.printer, r.cols) && TupleAt(p, i) == Some(Form(r.cols, t.vals, t.Header()))
  }

  /** The rows of the page from line `i` on, without the dead ones unless they are wanted. */
  ghost function RowsFrom(r: Reader, rows: seq<Option<Stored>>, block: U32, lsn: nat, withDead: bool,
        i: nat): seq<HeapRow>
    requires i <= |rows| && forall k :: 0 <= k < |rows| && rows[k].Some? ==> rows[k].value.Valid(r.printer, r.cols)
    decreases |rows| - i
  {
    if i == |rows| then []
    else
      (if rows[i].None? || (rows[i].value.Dead() && !withDead) then [] else [RowFor(r, rows[i].value, block, i, lsn)])
      + RowsFrom(r, rows, block, lsn, withDead, i + 1)
  }

  lemma LineRead(r: Reader, p: PageOf, rows: seq<Option<Stored>>, block: U32, i: nat)
    requires p.Valid() && Holds(r, p, rows) && i < |rows|
    ensures rows[i].Some? ==> rows[i].value.Valid(r.printer, r.cols)
    ensures Items(p.Write()) == |rows|
    ensures Item(r, p.Write(), block, i)
            == if rows[i].None? then None else Some(RowFor(r, rows[i].value, block, i, p.lsn))
  {
    hide PageOf.Write, Slot, Items, Stored.Valid, TupleAt, RowOf, RowFor;
    LinesRead(p);
    if rows[i].Some? { RowRead(r, p, i, rows[i].value, block); }
  }

  /** Scanning a page gives its rows, in order, each with its ids, its values and its place. */
  lemma {:induction false} PageScanned(r: Reader, p: PageOf, rows: seq<Option<Stored>>, block: U32, withDead: bool,
                                       i: nat)
    requires p.Valid() && Holds(r, p, rows) && i <= |rows|
    ensures Items(p.Write()) == |rows|
    ensures forall k :: 0 <= k < |rows| && rows[k].Some? ==> rows[k].value.Valid(r.printer, r.cols)
    ensures PageRows(r, p.Write(), block, withDead, i) == RowsFrom(r, rows, block, p.lsn, withDead, i)
    decreases |rows| - i
  {
    hide PageOf.Write, PageOf.Valid, Items, Item, Stored.Valid, TupleAt, RowFor, Stored.Dead, Holds, PageRows, RowsFrom;
    RowsCount(r, p, rows);
    if i < |rows| {
      LineRead(r, p, rows, block, i);
      PageScanned(r, p, rows, block, withDead, i + 1);
      if rows[i].Some? { DeadIs(r, rows[i].value, block, i, p.lsn); }
      NextRow(r, p, rows, block, withDead, i);
    } else {
      NoMoreRows(r, p, rows, block, withDead);
    }
  }

  lemma RowsCount(r: Reader, p: PageOf, rows: seq<Option<Stored>>)
    requires p.Valid() && Holds(r, p, rows)
    ensures Items(p.Write()) == |rows| == |p.lines|
    ensures forall k :: 0 <= k < |rows| && rows[k].Some? ==> rows[k].value.Valid(r.printer, r.cols)
  {
    hide PageOf.Write, Items, Stored.Valid, TupleAt;
    LinesRead(p);
  }

  lemma NextRow(r: Reader, p: PageOf, rows: seq<Option<Stored>>, block: U32, withDead: bool, i: nat)
    requires p.Valid() && i < |rows| == Items(p.Write())
    requires forall k :: 0 <= k < |rows| && rows[k].Some? ==> rows[k].value.Valid(r.printer, r.cols)
    ensures PageRows(r, p.Write(), block, withDead, i)
            == HeapFile.Shown(Item(r, p.Write(), block, i), withDead) + PageRows(r, p.Write(), block, withDead, i + 1)
    ensures RowsFrom(r, rows, block, p.lsn, withDead, i)
            == (if rows[i].None? || (rows[i].value.Dead() && !withDead) then []
                else [RowFor(r, rows[i].value, block, i, p.lsn)])
               + RowsFrom(r, rows, block, p.lsn, withDead, i + 1)
  {
    hide PageOf.Write, PageOf.Valid, Items, Item, Stored.Valid, RowFor, Stored.Dead;
  }

  lemma NoMoreRows(r: Reader, p: PageOf, rows: seq<Option<Stored>>, block: U32, withDead: bool)
    requires p.Valid() && |rows| == Items(p.Write())
    requires forall k :: 0 <= k < |rows| && rows[k].Some? ==> rows[k].value.Valid(r.printer, r.cols)
    ensures PageRows(r, p.Write(), block, withDead, |rows|) == []
    ensures RowsFrom(r, rows, block, p.lsn, withDead, |rows|) == []
  {
    hide PageOf.Write, PageOf.Valid, Items, Item, Stored.Valid, RowFor, Stored.Dead;
  }

  lemma DeadIs(r: Reader, t: Stored, block: U32, i: nat, lsn: nat)
    requires t.Valid(r.printer, r.cols)
    ensures RowFor(r, t, block, i, lsn).dead == t.Dead()
  {
    hide Stored.Valid;
  }

  /** A page whose header makes no sense gives nothing. */
  lemma SenselessPage(r: Reader, page: Bytes, block: U32, withDead: bool)
    requires |page| == 8192
    requires var lower := page[12] as int + 0x100 * page[13] as int;
             var upper := page[14] as int + 0x100 * page[15] as int;
             lower < 24 || lower > upper || upper > 8192 || page[16] as int + 0x100 * page[17] as int > 8192
    ensures PageRows(r, page, block, withDead, 0) == []
  {
    assert Items(page) == 0;
  }

  // ---- Relations ----

  predicate WholePages(pages: seq<Bytes>) {
    forall i :: 0 <= i < |pages| ==> |pages[i]| == 8192
  }

  function Joined(pages: seq<Bytes>): Bytes {
    if pages == [] then [] else pages[0] + Joined(pages[1..])
  }

  /** The pages of segment `n`, 131072 to a segment. */
  function SegmentOf(pages: seq<Bytes>, n: nat): seq<Bytes> {
    var from := 131_072 * n;
    if from >= |pages| then [] else if from + 131_072 <= |pages| then pages[from..from + 131_072] else pages[from..]
  }

  /** The files of a relation: as many segments as its pages need, and the base file in any case. */
  function FilesOf(pages: seq<Bytes>): Files {
    map n | 0 <= n <= |pages| && (n == 0 || 131_072 * n < |pages|) :: Joined(SegmentOf(pages, n))
  }

  lemma {:induction false} JoinedPage(pages: seq<Bytes>, k: nat)
    requires WholePages(pages)
    ensures |Joined(pages)| == 8192 * |pages|
    ensures k < |pages| ==> (k + 1) * PAGE_SIZE <= |Joined(pages)| && Page(Joined(pages), k) == pages[k]
    decreases |pages|
  {
    if pages != [] {
      JoinedPage(pages[1..], if k > 0 then k - 1 else 0);
      var all, rest := Joined(pages), Joined(pages[1..]);
      assert all == pages[0] + rest;
      if k == 0 {
        assert all[0..][..PAGE_SIZE] == pages[0];
      } else if k < |pages| {
        assert all[k * PAGE_SIZE..] == rest[(k - 1) * PAGE_SIZE..];
      }
    }
  }

  lemma SegmentSize(pages: seq<Bytes>, n: nat)
    requires WholePages(pages)
    ensures WholePages(SegmentOf(pages, n)) && |SegmentOf(pages, n)| <= 131_072
    ensures forall k :: 0 <= k < |SegmentOf(pages, n)| ==>
              131_072 * n + k < |pages| && SegmentOf(pages, n)[k] == pages[131_072 * n + k]
  {
  }

  /** A lookup by block and number looks into that block's page. */
  lemma PageFound(r: Reader, pages: seq<Bytes>, b: U32, offnum: nat)
    requires WholePages(pages)
    ensures ReadAt(r, FilesOf(pages), b, offnum)
            == if offnum == 0 || b >= |pages| then None else First(PageRows(r, pages[b], b, true, 0), offnum)
  {
    hide PageRows, First, Page, Joined, SegmentOf;
    var n, k := b / 131_072, b % 131_072;
    SegmentSize(pages, n);
    SegmentLength(pages, n);
    JoinedPage(SegmentOf(pages, n), k);
    assert b == 131_072 * n + k;
  }

  lemma SegmentLength(pages: seq<Bytes>, n: nat)
    ensures |SegmentOf(pages, n)| == if 131_072 * n >= |pages| then 0
                                     else if 131_072 * n + 131_072 <= |pages| then 131_072 else |pages| - 131_072 * n
  {
  }

  /** The rows of pages `from` to `end`, each page under its own number. */
  function RowsOfPages(r: Reader, pages: seq<Bytes>, withDead: bool, from: nat, end: nat): seq<HeapRow>
    requires WholePages(pages) && end <= |pages| && end <= 0x1_0000_0000
    decreases end - from
  {
    if from >= end then []
    else PageRows(r, pages[from], from, withDead, 0) + RowsOfPages(r, pages, withDead, from + 1, end)
  }

  lemma {:induction false} RowsOfMore(r: Reader, pages: seq<Bytes>, withDead: bool, a: nat, b: nat, c: nat)
    requires WholePages(pages) && a <= b <= c <= |pages| && c <= 0x1_0000_0000
    ensures RowsOfPages(r, pages, withDead, a, c)
            == RowsOfPages(r, pages, withDead, a, b) + RowsOfPages(r, pages, withDead, b, c)
    decreases b - a
  {
    hide PageRows;
    if a < b {
      RowsOfMore(r, pages, withDead, a + 1, b, c);
      Regroup(PageRows(r, pages[a], a, withDead, 0), RowsOfPages(r, pages, withDead, a + 1, b),
              RowsOfPages(r, pages, withDead, b, c));
    }
  }

  lemma {:induction false} SegmentScanned(r: Reader, pages: seq<Bytes>, n: nat, withDead: bool, k: nat)
    requires WholePages(pages) && n < 1024 && k <= |SegmentOf(pages, n)| && 131_072 * n <= |pages|
    ensures 131_072 * n + |SegmentOf(pages, n)| <= |pages|
    ensures SegmentRows(r, Joined(SegmentOf(pages, n)), n, withDead, k)
            == RowsOfPages(r, pages, withDead, 131_072 * n + k, 131_072 * n + |SegmentOf(pages, n)|)
    decreases |SegmentOf(pages, n)| - k
  {
    hide PageRows, Joined, SegmentOf, Page;
    var part := SegmentOf(pages, n);
    SegmentSize(pages, n);
    SegmentLength(pages, n);
    JoinedPage(part, k);
    if k < |part| {
      SegmentScanned(r, pages, n, withDead, k + 1);
    }
  }

  /** The segments listed: those the relation has, but at most 1024. */
  function Listed(pages: seq<Bytes>): (m: nat)
    ensures 0 < m <= 1024 && (m > 1 ==> 131_072 * (m - 1) < |pages|)
    ensures m < 1024 ==> |pages| <= 131_072 * m
  {
    if |pages| == 0 then 1 else if |pages| > 131_072 * 1023 then 1024 else (|pages| + 131_071) / 131_072
  }

  lemma {:induction false} NumberedCount(pages: seq<Bytes>, i: nat)
    requires 1 <= i <= Listed(pages)
    ensures |Numbered(FilesOf(pages), i)| == Listed(pages) - i
    decreases Listed(pages) - i
  {
    hide Joined, SegmentOf;
    if i < Listed(pages) { NumberedCount(pages, i + 1); }
  }

  lemma SegmentsAre(pages: seq<Bytes>)
    ensures |Segments(FilesOf(pages))| == Listed(pages)
    ensures forall j :: 0 <= j < Listed(pages) ==> Segments(FilesOf(pages))[j] == j && j in FilesOf(pages)
  {
    hide Joined, SegmentOf, Numbered, Listed;
    NumberedCount(pages, 1);
    forall j | 0 <= j < Listed(pages) ensures Segments(FilesOf(pages))[j] == j && j in FilesOf(pages) {
      SegmentNumber(FilesOf(pages), j);
    }
  }

  lemma {:induction false} RelationFrom(r: Reader, pages: seq<Bytes>, withDead: bool, j: nat)
    requires WholePages(pages) && j <= Listed(pages)
    requires |Segments(FilesOf(pages))| == Listed(pages)
    requires forall n :: n in Segments(FilesOf(pages)) ==> n in FilesOf(pages)
    ensures var end := if |pages| <= 0x800_0000 then |pages| else 0x800_0000;
            FileRows(r, FilesOf(pages), withDead, j) == RowsOfPages(r, pages, withDead, 131_072 * j, end)
    decreases Listed(pages) - j
  {
    hide SegmentRows, SegmentOf, Segments, Listed, FilesOf, FileRows, RowsOfPages;
    var end := if |pages| <= 0x800_0000 then |pages| else 0x800_0000;
    if j < Listed(pages) {
      RelationFrom(r, pages, withDead, j + 1);
      NextSegment(r, pages, withDead, j);
      SegmentScanned(r, pages, j, withDead, 0);
      SegmentLength(pages, j);
      var next := 131_072 * j + |SegmentOf(pages, j)|;
      assert j + 1 < Listed(pages) || j + 1 == Listed(pages);
      RowsOfMore(r, pages, withDead, 131_072 * j, next, end);
      if next < 131_072 * (j + 1) { NoRowsFrom(r, pages, withDead, next, end); }
      if end < 131_072 * (j + 1) { NoRowsFrom(r, pages, withDead, 131_072 * (j + 1), end); }
    } else {
      FilesEnd(r, pages, withDead);
      NoRowsFrom(r, pages, withDead, 131_072 * j, end);
    }
  }

  lemma NoRowsFrom(r: Reader, pages: seq<Bytes>, withDead: bool, from: nat, end: nat)
    requires WholePages(pages) && end <= |pages| && end <= 0x1_0000_0000
    ensures from >= end ==> RowsOfPages(r, pages, withDead, from, end) == []
  {
    hide PageRows;
  }

  lemma FilesEnd(r: Reader, pages: seq<Bytes>, withDead: bool)
    requires |Segments(FilesOf(pages))| == Listed(pages)
    requires forall n :: n in Segments(FilesOf(pages)) ==> n in FilesOf(pages)
    ensures FileRows(r, FilesOf(pages), withDead, Listed(pages)) == []
  {
    hide SegmentRows, Segments, Listed, FilesOf;
  }

  lemma NextSegment(r: Reader, pages: seq<Bytes>, withDead: bool, j: nat)
    requires j < Listed(pages) == |Segments(FilesOf(pages))|
    requires forall n :: n in Segments(FilesOf(pages)) ==> n in FilesOf(pages)
    ensures 131_072 * j <= |pages|
    ensures FileRows(r, FilesOf(pages), withDead, j)
            == SegmentRows(r, Joined(SegmentOf(pages, j)), j, withDead, 0)
               + FileRows(r, FilesOf(pages), withDead, j + 1)
  {
    hide SegmentRows, Joined, SegmentOf, Segments, Listed;
    SegmentsAre(pages);
  }

  /** Scanning a relation's files gives the rows of its pages, in order and each under its own block; of more
      than 1024 segments the rest is left out. */
  lemma RelationScanned(r: Reader, pages: seq<Bytes>, withDead: bool)
    requires WholePages(pages)
    ensures forall n :: n in Segments(FilesOf(pages)) ==> n in FilesOf(pages)
    ensures Segments(FilesOf(pages)) != []
    ensures var end := if |pages| <= 0x800_0000 then |pages| else 0x800_0000;
            FileRows(r, FilesOf(pages), withDead, 0) == RowsOfPages(r, pages, withDead, 0, end)
  {
    hide FileRows, RowsOfPages, FilesOf, Segments;
    SegmentsExist(FilesOf(pages));
    SegmentsAre(pages);
    RelationFrom(r, pages, withDead, 0);
  }

  /** The 8192 bytes a page is asked for with are that page: in the relation's file or a numbered segment of it,
      under the directory of its database. */
  lemma PageAsked(pages: seq<Bytes>, dboid: U32, node: U32, b: U32)
    requires WholePages(pages) && b < |pages|
    ensures
      var at, n := HeapPath.HeapRelFile(dboid, node, b), b / 131_072;
      && at.path == (if dboid == 0 then "global/" else "base/" + Decimal(dboid) + "/") + Decimal(node)
                    + (if b < 131_072 then "" else "." + Decimal(n))
      && n in FilesOf(pages) && at.off + 8192 <= |FilesOf(pages)[n]|
      && FilesOf(pages)[n][at.off..at.off + 8192] == pages[b]
  {
    hide Joined, SegmentOf, Decimal;
    var n, k := b / 131_072, b % 131_072;
    SegmentSize(pages, n);
    SegmentLength(pages, n);
    JoinedPage(SegmentOf(pages, n), k);
    assert b == 131_072 * n + k;
    var file := FilesOf(pages)[n];
    assert Page(file, k) == file[k * 8192..k * 8192 + 8192];
  }
}
