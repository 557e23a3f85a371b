/** PostgreSQL's side of the page format: records laid out one after another at 8-aligned offsets,
    cut into page bodies, each page behind a 24- or 40-byte header. Reading such pages back gives
    exactly the records the reader is built to see. */
module WalLayout {
  import opened Bytes
  import opened WalPages

  /** The free part of a page header: everything but the continuation flag and remaining length. */
  datatype Head = Head(magic: U16, long: bool, otherFlags: nat, address: Bytes, tail: Bytes) {
    predicate Valid() {
      && 0xD090 <= magic <= 0xD200 && otherFlags < 0x4000
      && |address| == 12 && |tail| == (if long then 20 else 4)
    }

    /** The 8-byte words of the page body. */
    function BodyWords(): nat {
      if long then 1019 else 1021
    }

    function Room(): nat {
      8 * BodyWords()
    }

    function Write(rem: U32): (s: Bytes)
      requires Valid()
      ensures |s| == PAGE_SIZE - Room()
    {
      Put16(magic)
      + Put16(otherFlags * 4 + (if long then 2 else 0) + (if rem > 0 then 1 else 0))
      + address + Put32(rem) + tail
    }
  }

  predicate ValidHeads(heads: seq<Head>) {
    forall i :: 0 <= i < |heads| ==> heads[i].Valid()
  }

  /** An XLOG record starts with its own total length. */
  predicate IsRecord(rec: Bytes) {
    RECORD_HEADER <= |rec| < 0x1_0000_0000 && LE32(rec, 0) == |rec|
  }

  predicate AllRecords(recs: seq<Bytes>) {
    forall i :: 0 <= i < |recs| ==> IsRecord(recs[i])
  }

  /** A record of resource manager 0, XLOG, whose info byte tells a switch to the next segment. */
  predicate Switches(rec: Bytes) {
    |rec| >= RECORD_HEADER && rec[17] == 0 && 0x40 <= rec[16] < 0x50
  }

  predicate AnySwitch(recs: seq<Bytes>) {
    exists i :: 0 <= i < |recs| && Switches(recs[i])
  }

  predicate NoSwitch(recs: seq<Bytes>) {
    !AnySwitch(recs)
  }

  /** The records up to and with the first switch. */
  function Through(recs: seq<Bytes>): seq<Bytes> {
    if recs == [] then [] else if Switches(recs[0]) then [recs[0]] else [recs[0]] + Through(recs[1..])
  }

  lemma {:induction false} ThroughAppend(a: seq<Bytes>, b: seq<Bytes>)
    ensures Through(a + b) == if AnySwitch(a) then Through(a) else a + Through(b)
    ensures AnySwitch(a + b) <==> AnySwitch(a) || AnySwitch(b)
    decreases |a|
  {
    hide Switches, AnySwitch;
    if a == [] {
      NoneSwitches();
      assert a + b == b;
    } else {
      assert (a + b)[0] == a[0] && (a + b)[1..] == a[1..] + b;
      ThroughAppend(a[1..], b);
      FirstOrLater(a);
      FirstOrLater(a + b);
      assert Through(a + b) == if Switches(a[0]) then [a[0]] else [a[0]] + Through(a[1..] + b);
      assert [a[0]] + (a[1..] + Through(b)) == a + Through(b);
    }
  }

  lemma NoneSwitches()
    ensures !AnySwitch([])
  {
  }

  lemma FirstOrLater(a: seq<Bytes>)
    requires a != []
    ensures AnySwitch(a) <==> Switches(a[0]) || AnySwitch(a[1..])
  {
    hide Switches;
    if AnySwitch(a) { var i :| 0 <= i < |a| && Switches(a[i]); assert i > 0 ==> Switches(a[1..][i - 1]); }
    if AnySwitch(a[1..]) { var i :| 0 <= i < |a[1..]| && Switches(a[1..][i]); assert Switches(a[i + 1]); }
  }

  lemma {:induction false} ThroughAll(a: seq<Bytes>)
    requires NoSwitch(a)
    ensures Through(a) == a
    decreases |a|
  {
    hide Switches;
    if a != [] { FirstOrLater(a); ThroughAll(a[1..]); }
  }

  function Padded(rec: Bytes): (s: Bytes)
    ensures |s| == MaxAlign(|rec|)
  {
    rec + Zeros(MaxAlign(|rec|) - |rec|)
  }

  /** What is left to write: the rest of a record begun on this page, and the records after it. */
  datatype Rest = Rest(carry: Bytes, recs: seq<Bytes>)

  /** The bytes of `recs` that go in the next `w` words, zero-filled after the last record. */
  function Body(recs: seq<Bytes>, w: nat): (s: Bytes)
    ensures |s| == 8 * w
  {
    if recs == [] then Zeros(8 * w)
    else if |recs[0]| > 8 * w then recs[0][..8 * w]
    else Padded(recs[0]) + Body(recs[1..], w - Words(|recs[0]|))
  }

  function After(recs: seq<Bytes>, w: nat): (r: Rest)
  {
    if recs == [] || w == 0 then Rest([], recs)
    else if |recs[0]| > 8 * w then Rest(recs[0][8 * w..], recs[1..])
    else After(recs[1..], w - Words(|recs[0]|))
  }

  function Page(h: Head, r: Rest): (s: Bytes)
    requires h.Valid() && |r.carry| < 0x1_0000_0000
    ensures |s| == PAGE_SIZE
  {
    h.Write(|r.carry|)
    + if |r.carry| > h.Room() then r.carry[..h.Room()]
      else Padded(r.carry) + Body(r.recs, h.BodyWords() - Words(|r.carry|))
  }

  function Next(h: Head, r: Rest): Rest
  {
    if |r.carry| > h.Room() then Rest(r.carry[h.Room()..], r.recs)
    else After(r.recs, h.BodyWords() - Words(|r.carry|))
  }

  lemma {:induction false} AfterIsSmall(recs: seq<Bytes>, w: nat)
    requires AllRecords(recs)
    ensures |After(recs, w).carry| < 0x1_0000_0000
    ensures AllRecords(After(recs, w).recs)
    decreases |recs|
  {
    if recs != [] && w > 0 {
      assert IsRecord(recs[0]);
      if |recs[0]| <= 8 * w {
        AfterIsSmall(recs[1..], w - Words(|recs[0]|));
      }
    }
  }

  function Pages(heads: seq<Head>, r: Rest): (pages: seq<Bytes>)
    requires ValidHeads(heads) && |r.carry| < 0x1_0000_0000 && AllRecords(r.recs)
    ensures |pages| == |heads| && WholePages(pages)
    decreases |heads|
  {
    if heads == [] then []
    else
      AfterIsSmall(r.recs, if |r.carry| > heads[0].Room() then 0 else heads[0].BodyWords() - Words(|r.carry|));
      [Page(heads[0], r)] + Pages(heads[1..], Next(heads[0], r))
  }

  /** All the room the pages have for records. */
  function Capacity(heads: seq<Head>): nat {
    if heads == [] then 0 else heads[0].Room() + Capacity(heads[1..])
  }

  /** The room left on the page that holds offset `off` of the record stream. */
  function RoomAt(heads: seq<Head>, off: nat): nat {
    if heads == [] then 0
    else if off < heads[0].Room() then heads[0].Room() - off
    else RoomAt(heads[1..], off - heads[0].Room())
  }

  /** The records the reader can see, by their offsets in the stream: not over 1 MiB, with the whole
      24-byte record header on the page where the record starts, and ending within the pages. */
  predicate Readable(heads: seq<Head>, off: nat, rec: Bytes) {
    |rec| <= 1_048_576 && RoomAt(heads, off) >= RECORD_HEADER && off + |rec| <= Capacity(heads)
  }

  function ReadableFrom(heads: seq<Head>, off: nat, recs: seq<Bytes>): seq<Bytes>
    decreases |recs|
  {
    if recs == [] then []
    else
      (if Readable(heads, off, recs[0]) then [recs[0]] else [])
      + ReadableFrom(heads, off + MaxAlign(|recs[0]|), recs[1..])
  }

  lemma {:induction false} ReadableOnNextPage(h: Head, heads: seq<Head>, off: nat, recs: seq<Bytes>)
    requires off >= h.Room()
    ensures ReadableFrom([h] + heads, off, recs) == ReadableFrom(heads, off - h.Room(), recs)
    decreases |recs|
  {
    if recs != [] {
      assert ([h] + heads)[1..] == heads;
      ReadableOnNextPage(h, heads, off + MaxAlign(|recs[0]|), recs[1..]);
    }
  }

  /** Reassembly state when the page being read starts with `carry`: either the record was taken up,
      and the state holds what came before, or it is being passed over. */
  predicate Holds(f: Frame, carry: Bytes) {
    && f.padSkip == 0
    && (f.contNeed == 0 ==> f.cont == [])
    && (f.contNeed > 0 ==> carry != [] && f.contNeed == |f.cont| + |carry| && |f.cont| >= RECORD_HEADER)
  }

  /** The record being taken up, if the pages to come hold the rest of it. */
  function Awaited(f: Frame, carry: Bytes, heads: seq<Head>): seq<Bytes> {
    if f.contNeed > 0 && |carry| <= Capacity(heads) then [f.cont + carry] else []
  }

  lemma ScanWholeRecord(rec: Bytes, rest: Bytes)
    requires IsRecord(rec) && |rec| <= MAX_RECORD
    ensures ScanBody(Fresh, Padded(rec) + rest)
            == if Switches(rec) then Scan(Fresh, [rec], true) else ScanBody(Fresh, rest).Before(rec)
  {
    var body := Padded(rec) + rest;
    assert body[..|rec|] == rec;
    assert body[MaxAlign(|rec|)..] == rest;
    assert LE32(body, 0) == LE32(rec, 0);
  }

  lemma ScanRecordStart(rec: Bytes, room: nat)
    requires IsRecord(rec) && room < |rec|
    ensures ScanBody(Fresh, rec[..room])
         == Scan(if room >= RECORD_HEADER && |rec| <= MAX_RECORD then Frame(rec[..room], |rec|, 0) else Fresh,
                 [], false)
  {
    assert room >= RECORD_HEADER ==> LE32(rec[..room], 0) == LE32(rec, 0);
  }

  lemma ScanNoRecord(n: nat)
    ensures ScanBody(Fresh, Zeros(n)) == Scan(Fresh, [], false)
  {
  }

  /** The records that end on the page. */
  function Whole(recs: seq<Bytes>, w: nat): seq<Bytes>
  {
    if recs == [] || w == 0 || |recs[0]| > 8 * w then []
    else [recs[0]] + Whole(recs[1..], w - Words(|recs[0]|))
  }

  /** The reassembly state after the page: the record cut by the page end is taken up when its header
      is whole and it is not too long. */
  function Cut(recs: seq<Bytes>, w: nat): Frame
  {
    if recs == [] || w == 0 then Fresh
    else if |recs[0]| > 8 * w then
      if 8 * w >= RECORD_HEADER && |recs[0]| <= MAX_RECORD then Frame(recs[0][..8 * w], |recs[0]|, 0) else Fresh
    else Cut(recs[1..], w - Words(|recs[0]|))
  }

  /** What a page gives whose records are `recs`, and the state after it: a switch ends the reading. */
  function Seen(f: Frame, recs: seq<Bytes>): Scan {
    if AnySwitch(recs) then Scan(Fresh, Through(recs), true) else Scan(f, recs, false)
  }

  lemma SeenMore(f: Frame, rec: Bytes, recs: seq<Bytes>)
    ensures Seen(f, [rec] + recs) == if Switches(rec) then Scan(Fresh, [rec], true) else Seen(f, recs).Before(rec)
  {
    hide Switches;
    FirstOrLater([rec] + recs);
    assert ([rec] + recs)[1..] == recs;
  }

  lemma {:induction false} ScanOfBody(recs: seq<Bytes>, w: nat)
    requires 8 * w <= PAGE_SIZE
    requires AllRecords(recs)
    ensures ScanBody(Fresh, Body(recs, w)) == Seen(Cut(recs, w), Whole(recs, w))
    decreases |recs|
  {
    hide ScanBody, Switches, LE32, Padded, Words, Seen;
    if recs == [] {
      ScanNoRecord(8 * w);
      NothingSeen();
    } else {
      var rec := recs[0];
      assert IsRecord(rec);
      if |rec| > 8 * w {
        ScanRecordStart(rec, 8 * w);
        NothingSeen();
      } else {
        var w' := w - Words(|rec|);
        ScanOfBody(recs[1..], w');
        ScanWholeRecord(rec, Body(recs[1..], w'));
        SeenMore(Cut(recs, w), rec, Whole(recs[1..], w'));
      }
    }
  }

  lemma NothingSeen()
    ensures forall f :: Seen(f, []) == Scan(f, [], false)
  {
  }

  lemma {:induction false} CutHolds(recs: seq<Bytes>, w: nat)
    requires AllRecords(recs)
    ensures Holds(Cut(recs, w), After(recs, w).carry)
    decreases |recs|
  {
    if recs != [] && w > 0 {
      var rec := recs[0];
      assert IsRecord(rec);
      if |rec| > 8 * w {
        assert rec[..8 * w] + rec[8 * w..] == rec;
      } else {
        CutHolds(recs[1..], w - Words(|rec|));
      }
    }
  }

  lemma ReadableHere(h: Head, heads: seq<Head>, room: nat, rec: Bytes)
    requires 0 < room <= h.Room()
    ensures Readable([h] + heads, h.Room() - room, rec)
       <==> |rec| <= MAX_RECORD && room >= RECORD_HEADER && |rec| <= room + Capacity(heads)
  {
    assert ([h] + heads)[1..] == heads;
  }

  /** What is readable from `w` words before the end of a page, split into the records that end on
      the page, the one the page end cuts, and the readable records of the pages after it. */
  ghost predicate PageSplit(h: Head, heads: seq<Head>, recs: seq<Bytes>, w: nat)
    requires w <= h.BodyWords()
  {
    var r := After(recs, w);
    ReadableFrom([h] + heads, h.Room() - 8 * w, recs)
    == Whole(recs, w) + Awaited(Cut(recs, w), r.carry, heads) + ReadableFrom(heads, MaxAlign(|r.carry|), r.recs)
  }

  lemma ReadableCut(h: Head, heads: seq<Head>, recs: seq<Bytes>, w: nat)
    requires 0 < w <= h.BodyWords()
    requires recs != [] && |recs[0]| > 8 * w && IsRecord(recs[0])
    ensures PageSplit(h, heads, recs, w)
  {
    hide IsRecord, Readable, Words;
    var rec, off := recs[0], h.Room() - 8 * w;
    var next := ReadableFrom(heads, MaxAlign(|rec[8 * w..]|), recs[1..]);
    ReadableHere(h, heads, 8 * w, rec);
    ReadableOnNextPage(h, heads, off + MaxAlign(|rec|), recs[1..]);
    assert rec[..8 * w] + rec[8 * w..] == rec;
    assert ReadableFrom([h] + heads, off, recs)
        == (if Readable([h] + heads, off, rec) then [rec] else []) + next;
  }

  lemma RegroupPages(a: seq<Bytes>, b: seq<Bytes>, c: seq<Bytes>, d: seq<Bytes>)
    ensures (a + b) + (c + d) == a + (b + c + d)
  {
  }

  lemma ReadableStep(heads: seq<Head>, off: nat, recs: seq<Bytes>)
    requires recs != [] && Readable(heads, off, recs[0])
    ensures ReadableFrom(heads, off, recs) == [recs[0]] + ReadableFrom(heads, off + MaxAlign(|recs[0]|), recs[1..])
  {
  }

  /** Stepping over a record that ends on the page. */
  lemma ReadablePast(h: Head, heads: seq<Head>, recs: seq<Bytes>, w: nat)
    requires recs != [] && w <= h.BodyWords() && |recs[0]| <= 8 * w && IsRecord(recs[0])
    requires Readable([h] + heads, h.Room() - 8 * w, recs[0])
    requires PageSplit(h, heads, recs[1..], w - Words(|recs[0]|))
    ensures PageSplit(h, heads, recs, w)
  {
    hide Readable, Words, Awaited, ReadableFrom, LE32;
    var rec, w' := recs[0], w - Words(|recs[0]|);
    var r := After(recs[1..], w');
    ReadableStep([h] + heads, h.Room() - 8 * w, recs);
    assert After(recs, w) == r && Cut(recs, w) == Cut(recs[1..], w') && Whole(recs, w) == [rec] + Whole(recs[1..], w');
    hide After, Cut, Whole;
    RegroupPages([rec], Whole(recs[1..], w'), Awaited(Cut(recs, w), r.carry, heads),
            ReadableFrom(heads, MaxAlign(|r.carry|), r.recs));
  }

  lemma ReadablePageEnd(h: Head, heads: seq<Head>, recs: seq<Bytes>, w: nat)
    requires w <= h.BodyWords() && (recs == [] || w == 0)
    ensures PageSplit(h, heads, recs, w)
  {
    hide IsRecord, Readable, Words;
    if recs != [] {
      ReadableOnNextPage(h, heads, h.Room(), recs);
    }
  }

  lemma {:induction false} ReadableOnPage(h: Head, heads: seq<Head>, recs: seq<Bytes>, w: nat)
    requires w <= h.BodyWords() && AllRecords(recs)
    ensures PageSplit(h, heads, recs, w)
    decreases |recs|
  {
    if recs == [] || w == 0 {
      ReadablePageEnd(h, heads, recs, w);
    } else {
      var rec := recs[0];
      assert IsRecord(rec) && AllRecords(recs[1..]);
      assert RECORD_HEADER <= |rec|;
      hide *;
      if |rec| > 8 * w {
        ReadableCut(h, heads, recs, w);
      } else {
        assert |rec| <= MAX_RECORD && 0 < 8 * w <= h.Room() by { FitsOnPage(h, rec, w); }
        ReadableHere(h, heads, 8 * w, rec);
        ReadableOnPage(h, heads, recs[1..], w - Words(|rec|));
        ReadablePast(h, heads, recs, w);
      }
    }
  }

  lemma FitsOnPage(h: Head, rec: Bytes, w: nat)
    requires 0 < w <= h.BodyWords() && |rec| <= 8 * w
    ensures |rec| <= MAX_RECORD && 8 * w <= h.Room()
  {
  }

  lemma InfoFlags(other: nat, long: bool, cont: bool)
    ensures
      var info := other * 4 + (if long then XLP_LONG_HEADER else 0) + (if cont then XLP_FIRST_CONT else 0);
      && (HasFlag(info, XLP_FIRST_CONT) <==> cont)
      && (HasFlag(info, XLP_LONG_HEADER) <==> long)
  {
    var info := other * 4 + (if long then XLP_LONG_HEADER else 0) + (if cont then XLP_FIRST_CONT else 0);
    assert info / 2 == other * 2 + if long then 1 else 0;
  }

  lemma MagicIsKnown(m: U16)
    requires 0xD090 <= m <= 0xD200
    ensures LooksLikeMagic(m)
  {
  }

  lemma ReadHeader(h: Head, rem: U32, body: Bytes)
    requires h.Valid() && |body| == h.Room()
    ensures
      var page := h.Write(rem) + body;
      && LooksLikeMagic(LE16(page, 0))
      && HeaderLen(page) == PAGE_SIZE - h.Room() && page[HeaderLen(page)..] == body
      && (HasFlag(LE16(page, 2), XLP_FIRST_CONT) <==> rem > 0)
      && LE32(page, 16) == rem
  {
    hide HasFlag, LooksLikeMagic, LE32, Put32, Put16;
    var page := h.Write(rem) + body;
    assert page[16..20] == Put32(rem);
    LE32At(page, 16, 20, rem);
    var info := h.otherFlags * 4 + (if h.long then XLP_LONG_HEADER else 0) + (if rem > 0 then XLP_FIRST_CONT else 0);
    assert page[0..2] == Put16(h.magic) && page[2..4] == Put16(info);
    assert LE16(page, 0) == LE16(page[0..2], 0) && LE16(page, 2) == LE16(page[2..4], 0);
    InfoFlags(h.otherFlags, h.long, rem > 0);
    MagicIsKnown(h.magic);
  }

  lemma ScanPlainPage(h: Head, recs: seq<Bytes>)
    requires h.Valid() && AllRecords(recs)
    ensures ScanPage(Fresh, Page(h, Rest([], recs))) == Seen(Cut(recs, h.BodyWords()), Whole(recs, h.BodyWords()))
  {
    hide Body, ScanBody, Switches, Seen, LE32, HasFlag, HeaderLen, LooksLikeMagic, Head.Write, Cut, Whole, Words;
    var body := Body(recs, h.BodyWords());
    assert Padded([]) + body == body;
    ReadHeader(h, 0, body);
    ScanOfBody(recs, h.BodyWords());
    assert body[0..] == body;
  }

  lemma ScanMiddlePage(h: Head, r: Rest, f: Frame)
    requires h.Valid() && h.Room() < |r.carry| < 0x1_0000_0000 && Holds(f, r.carry)
    ensures ScanPage(f, Page(h, r))
         == Scan(if f.contNeed > 0 then f.(cont := f.cont + r.carry[..h.Room()]) else f, [], false)
  {
    ReadHeader(h, |r.carry|, r.carry[..h.Room()]);
  }

  /** The record taken up, when the page ends it. */
  function Taken(f: Frame, carry: Bytes): seq<Bytes> {
    if f.contNeed > 0 then [f.cont + carry] else []
  }

  lemma ScanLastPage(h: Head, r: Rest, f: Frame)
    requires h.Valid() && 0 < |r.carry| <= h.Room() && Holds(f, r.carry)
    requires AllRecords(r.recs)
    ensures
      var w := h.BodyWords() - Words(|r.carry|);
      ScanPage(f, Page(h, r)) == Seen(Cut(r.recs, w), Taken(f, r.carry) + Whole(r.recs, w))
  {
    hide Body, ScanBody, LE32, HasFlag, HeaderLen, LooksLikeMagic, Head.Write, Cut, Whole, Words, Seen;
    var rem, w := |r.carry|, h.BodyWords() - Words(|r.carry|);
    var body := Padded(r.carry) + Body(r.recs, w);
    ReadHeader(h, rem, body);
    ScanOfBody(r.recs, w);
    assert body[..rem] == r.carry;
    assert body[MaxAlign(rem)..] == Body(r.recs, w);
    if f.contNeed > 0 {
      assert (f.cont + r.carry)[..f.contNeed] == f.cont + r.carry;
      SeenMore(Cut(r.recs, w), f.cont + r.carry, Whole(r.recs, w));
    } else {
      assert [] + Whole(r.recs, w) == Whole(r.recs, w);
    }
  }

  lemma {:induction false} NothingReadable(off: nat, recs: seq<Bytes>)
    ensures ReadableFrom([], off, recs) == []
    decreases |recs|
  {
    if recs != [] {
      NothingReadable(off + MaxAlign(|recs[0]|), recs[1..]);
    }
  }

  /** What the reader can see from the middle of the stream: what is being taken up, then every readable
      record of the rest. */
  function InSight(heads: seq<Head>, r: Rest, f: Frame): seq<Bytes> {
    Awaited(f, r.carry, heads) + ReadableFrom(heads, MaxAlign(|r.carry|), r.recs)
  }

  /** Reading from there gives what is in sight, up to a switch, which ends the reading in a fresh state. */
  ghost predicate ReadsFrom(heads: seq<Head>, r: Rest, f: Frame)
    requires ValidHeads(heads) && |r.carry| < 0x1_0000_0000 && AllRecords(r.recs)
  {
    var s, l := ScanPages(f, Pages(heads, r)), InSight(heads, r, f);
    s.recs == Through(l) && s.switched == AnySwitch(l) && (s.switched ==> s.frame == Fresh)
  }

  /** One page of the stream: if its scan gives `out` and leaves `f'`, reading on from `f'` reads on
      with the rest of the stream. */
  lemma ReadPage(h: Head, rest: seq<Head>, r: Rest, f: Frame, f': Frame, out: seq<Bytes>)
    requires h.Valid() && ValidHeads(rest) && |r.carry| < 0x1_0000_0000 && AllRecords(r.recs)
    requires ScanPage(f, Page(h, r)) == Seen(f', out)
    ensures
      var next := Next(h, r);
      && |next.carry| < 0x1_0000_0000 && AllRecords(next.recs)
      && ScanPages(f, Pages([h] + rest, r))
         == if AnySwitch(out) then Scan(Fresh, Through(out), true)
            else var t := ScanPages(f', Pages(rest, next)); t.(recs := out + t.recs)
  {
    hide ScanPage, IsRecord, Page, Words, AllRecords, After;
    assert ([h] + rest)[1..] == rest;
    AfterIsSmall(r.recs, if |r.carry| > h.Room() then 0 else h.BodyWords() - Words(|r.carry|));
  }

  /** Passing the pages a long record fills. */
  lemma ReadMiddlePage(h: Head, r: Rest, f: Frame) returns (f': Frame)
    requires h.Valid() && h.Room() < |r.carry| < 0x1_0000_0000 && Holds(f, r.carry)
    ensures ScanPage(f, Page(h, r)) == Scan(f', [], false)
    ensures Holds(f', r.carry[h.Room()..])
    ensures forall rest: seq<Head> ::
              Awaited(f', r.carry[h.Room()..], rest) == Awaited(f, r.carry, [h] + rest)
  {
    ScanMiddlePage(h, r, f);
    hide ScanPage, Page, IsSwitch;
    f' := if f.contNeed > 0 then f.(cont := f.cont + r.carry[..h.Room()]) else f;
    assert f.contNeed > 0 ==> f'.cont + r.carry[h.Room()..] == f.cont + r.carry;
    forall rest: seq<Head>
      ensures Awaited(f', r.carry[h.Room()..], rest) == Awaited(f, r.carry, [h] + rest)
    {
      assert ([h] + rest)[1..] == rest;
    }
  }

  /** The page that ends the record being read, and starts others. */
  lemma ReadLastPage(h: Head, r: Rest, f: Frame)
    requires h.Valid() && |r.carry| <= h.Room() && Holds(f, r.carry)
    requires AllRecords(r.recs)
    ensures
      var w := h.BodyWords() - Words(|r.carry|);
      && ScanPage(f, Page(h, r)) == Seen(Cut(r.recs, w), Taken(f, r.carry) + Whole(r.recs, w))
      && Holds(Cut(r.recs, w), After(r.recs, w).carry)
  {
    hide ScanPage, Page, Cut, Whole, After, IsRecord, AllRecords, Words, Seen;
    var w := h.BodyWords() - Words(|r.carry|);
    if r.carry == [] {
      assert r == Rest([], r.recs) && f == Fresh && Words(0) == 0;
      assert [] + Whole(r.recs, w) == Whole(r.recs, w);
      ScanPlainPage(h, r.recs);
    } else {
      ScanLastPage(h, r, f);
    }
    CutHolds(r.recs, w);
  }

  lemma SightOnMiddle(h: Head, rest: seq<Head>, r: Rest, f: Frame, f': Frame)
    requires h.Room() < |r.carry|
    requires Awaited(f', r.carry[h.Room()..], rest) == Awaited(f, r.carry, [h] + rest)
    ensures InSight([h] + rest, r, f) == InSight(rest, Next(h, r), f')
  {
    hide ReadableFrom, Awaited, Words;
    ReadableOnNextPage(h, rest, MaxAlign(|r.carry|), r.recs);
    assert MaxAlign(|r.carry[h.Room()..]|) == MaxAlign(|r.carry|) - h.Room();
  }

  lemma SightOnLast(h: Head, rest: seq<Head>, r: Rest, f: Frame)
    requires |r.carry| <= h.Room() && Holds(f, r.carry) && AllRecords(r.recs)
    ensures
      var w := h.BodyWords() - Words(|r.carry|);
      InSight([h] + rest, r, f)
      == Taken(f, r.carry) + Whole(r.recs, w) + InSight(rest, After(r.recs, w), Cut(r.recs, w))
  {
    hide AllRecords, Holds, Cut, Whole, After, ReadableFrom, Words;
    var w := h.BodyWords() - Words(|r.carry|);
    var next := After(r.recs, w);
    ReadableOnPage(h, rest, r.recs, w);
    assert Taken(f, r.carry) == Awaited(f, r.carry, [h] + rest);
    RegroupPages(Taken(f, r.carry), Whole(r.recs, w), Awaited(Cut(r.recs, w), next.carry, rest),
            ReadableFrom(rest, MaxAlign(|next.carry|), next.recs));
  }

  lemma ReadOnMiddle(h: Head, rest: seq<Head>, r: Rest, f: Frame, f': Frame)
    requires h.Valid() && ValidHeads(rest) && h.Room() < |r.carry| < 0x1_0000_0000 && AllRecords(r.recs)
    requires ScanPage(f, Page(h, r)) == Scan(f', [], false)
    requires Awaited(f', r.carry[h.Room()..], rest) == Awaited(f, r.carry, [h] + rest)
    requires ReadsFrom(rest, Next(h, r), f')
    ensures ReadsFrom([h] + rest, r, f)
  {
    hide ScanPage, ScanPages, Pages, Page, AllRecords, InSight, Awaited, Words, Head.Valid, Through, Seen, AnySwitch;
    NothingSeen();
    NoneSwitches();
    ReadPage(h, rest, r, f, f', []);
    SightOnMiddle(h, rest, r, f, f');
    var t := ScanPages(f', Pages(rest, Next(h, r)));
    assert [] + t.recs == t.recs;
  }

  lemma ReadOnLast(h: Head, rest: seq<Head>, r: Rest, f: Frame)
    requires h.Valid() && ValidHeads(rest) && |r.carry| <= h.Room() && Holds(f, r.carry)
    requires AllRecords(r.recs)
    requires
      var w := h.BodyWords() - Words(|r.carry|);
      && |After(r.recs, w).carry| < 0x1_0000_0000 && AllRecords(After(r.recs, w).recs)
      && ReadsFrom(rest, After(r.recs, w), Cut(r.recs, w))
    ensures ReadsFrom([h] + rest, r, f)
  {
    hide ScanPage, ScanPages, Pages, Page, AllRecords, AnySwitch, Through, Holds, Cut, Whole, After, InSight, Words,
         Seen;
    var w := h.BodyWords() - Words(|r.carry|);
    var here := Taken(f, r.carry) + Whole(r.recs, w);
    ReadLastPage(h, r, f);
    ReadPage(h, rest, r, f, Cut(r.recs, w), here);
    SightOnLast(h, rest, r, f);
    ThroughAppend(here, InSight(rest, After(r.recs, w), Cut(r.recs, w)));
  }

  lemma {:induction false} ReadFrom(heads: seq<Head>, r: Rest, f: Frame)
    requires ValidHeads(heads) && |r.carry| < 0x1_0000_0000 && AllRecords(r.recs) && Holds(f, r.carry)
    ensures ReadsFrom(heads, r, f)
    decreases |heads|
  {
    if heads == [] {
      NothingReadable(MaxAlign(|r.carry|), r.recs);
    } else {
      hide *;
      var h, rest := heads[0], heads[1..];
      assert heads == [h] + rest;
      assert h.Valid() && ValidHeads(rest) by { ValidHeadsSplit(heads); }
      NextRest(h, r);
      if |r.carry| > h.Room() {
        var f' := ReadMiddlePage(h, r, f);
        ReadFrom(rest, Next(h, r), f');
        ReadOnMiddle(h, rest, r, f, f');
      } else {
        ReadLastPage(h, r, f);
        ReadFrom(rest, Next(h, r), Cut(r.recs, h.BodyWords() - Words(|r.carry|)));
        ReadOnLast(h, rest, r, f);
      }
    }
  }

  lemma ValidHeadsSplit(heads: seq<Head>)
    requires ValidHeads(heads) && heads != []
    ensures heads[0].Valid() && ValidHeads(heads[1..])
  {
  }

  lemma NextRest(h: Head, r: Rest)
    requires |r.carry| < 0x1_0000_0000 && AllRecords(r.recs)
    ensures
      var next := Next(h, r);
      && |next.carry| < 0x1_0000_0000 && AllRecords(next.recs)
      && (if |r.carry| > h.Room() then next.carry == r.carry[h.Room()..] && next.recs == r.recs
          else |r.carry| <= 8 * h.BodyWords() && next == After(r.recs, h.BodyWords() - Words(|r.carry|)))
  {
    if |r.carry| <= h.Room() {
      AfterIsSmall(r.recs, h.BodyWords() - Words(|r.carry|));
    }
  }

  lemma NothingTaken(heads: seq<Head>, recs: seq<Bytes>)
    ensures InSight(heads, Rest([], recs), Fresh) == ReadableFrom(heads, 0, recs)
  {
  }

  /** Reading pages that hold `recs` gives, in order and once, exactly the records the reader can see, up
      to and with the first switch among them, which alone ends the reading; a record it cannot see never
      misaligns what follows. */
  lemma ReadLayout(heads: seq<Head>, recs: seq<Bytes>)
    requires ValidHeads(heads) && AllRecords(recs)
    ensures
      var s, l := ScanPages(Fresh, Pages(heads, Rest([], recs))), ReadableFrom(heads, 0, recs);
      s.recs == Through(l) && s.switched == AnySwitch(l) && (NoSwitch(recs) ==> s.recs == l && !s.switched)
  {
    hide ScanPages, Pages, Through, AnySwitch, ReadableFrom;
    ReadFrom(heads, Rest([], recs), Fresh);
    NothingTaken(heads, recs);
    if NoSwitch(recs) {
      ReadableAmong(heads, 0, recs);
      ThroughAll(ReadableFrom(heads, 0, recs));
    }
  }

  lemma {:induction false} ReadableAmong(heads: seq<Head>, off: nat, recs: seq<Bytes>)
    requires NoSwitch(recs)
    ensures NoSwitch(ReadableFrom(heads, off, recs))
    decreases |recs|
  {
    hide Switches, Readable;
    if recs != [] {
      FirstOrLater(recs);
      ReadableAmong(heads, off + MaxAlign(|recs[0]|), recs[1..]);
      ThroughAppend(if Readable(heads, off, recs[0]) then [recs[0]] else [],
                    ReadableFrom(heads, off + MaxAlign(|recs[0]|), recs[1..]));
    }
  }

  /** A page that does not start like one of the log is passed over. */
  lemma OtherPagesSkipped(f: Frame, page: Bytes)
    requires |page| == PAGE_SIZE && !(0xD090 <= page[0] as int + 0x100 * page[1] as int <= 0xD200)
    ensures ScanPage(f, page) == Scan(f, [], false)
  {
  }
}
