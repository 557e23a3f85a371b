/** From a record's bytes to what it means for transactions (emit, handleXact in
    flashback_walparse.go; commit parsing in flashback_xact.go). */
module WalRecords {
  import opened Bytes
  import opened Options
  import opened Changes
  import opened Transactions
  import XLogBody
  import XLogAssembly

  const RM_XACT: Byte := 1
  const XACT_HAS_INFO := 0x80
  const XACT_COMMIT := 0x00
  const XACT_ABORT := 0x20
  const XACT_COMMIT_PREPARED := 0x30
  const XACT_ABORT_PREPARED := 0x40
  const XINFO_HAS_DBINFO := 1
  const XINFO_HAS_SUBXACTS := 2
  const MAX_SUBXACTS := 0x10_0000

  /** Two's complement at 64 bits. */
  function Wrap64(n: int): int {
    var m := n % 0x1_0000_0000_0000_0000;
    if m >= 0x8000_0000_0000_0000 then m - 0x1_0000_0000_0000_0000 else m
  }

  function LE64(s: Bytes, i: nat): int
    requires i + 8 <= |s|
  {
    Wrap64(LE32(s, i) + 0x1_0000_0000 * LE32(s, i + 4))
  }

  /** Microseconds since 2000 as a time; the conversion to nanoseconds wraps at 64 bits. */
  function PgTime(us: int): Time {
    Some(Wrap64(us * 1000))
  }

  datatype Xact = Xact(time: Time, subs: seq<U32>)

  function SubXids(b: Bytes, n: nat): seq<U32> {
    if n == 0 || 4 > |b| then [] else [LE32(b, 0)] + SubXids(b[4..], n - 1)
  }

  /** The number of sub-xids to read, from a signed 32-bit count. */
  function SubCount(n: U32): nat {
    if n >= 0x8000_0000 then 0 else if n > MAX_SUBXACTS then MAX_SUBXACTS else n
  }

  function ParseXact(info: Byte, payload: Bytes, prepared: bool): Xact {
    var off := if prepared then 4 else 0;
    if off + 8 > |payload| then Xact(None, [])
    else
      var time := PgTime(LE64(payload, off));
      if !HasFlag(info as int, XACT_HAS_INFO) || off + 12 > |payload| then Xact(time, [])
      else
        var xinfo := LE32(payload, off + 8);
        var at := off + 12 + if HasFlag(xinfo, XINFO_HAS_DBINFO) then 8 else 0;
        if !HasFlag(xinfo, XINFO_HAS_SUBXACTS) || at + 4 > |payload| then Xact(time, [])
        else Xact(time, SubXids(payload[at + 4..], SubCount(LE32(payload, at))))
  }

  method ParseXactCommit(info: Byte, payload: Bytes, prepared: bool) returns (out: Xact)
    ensures out == ParseXact(info, payload, prepared)
  {
    hide LE64, LE32, HasFlag, PgTime;
    var off := 0;
    if prepared { off := 4; }
    if off + 8 > |payload| { return Xact(None, []); }
    var time := PgTime(LE64(payload, off));
    off := off + 8;
    if !HasFlag(info as int, XACT_HAS_INFO) { return Xact(time, []); }
    if off + 4 > |payload| { return Xact(time, []); }
    var xinfo := LE32(payload, off);
    off := off + 4;
    if HasFlag(xinfo, XINFO_HAS_DBINFO) { off := off + 8; }
    if !HasFlag(xinfo, XINFO_HAS_SUBXACTS) || off + 4 > |payload| { return Xact(time, []); }
    var n := SubCount(LE32(payload, off));
    off := off + 4;
    var subs := ReadSubXids(payload, off, n);
    out := Xact(time, subs);
  }

  method ReadSubXids(payload: Bytes, start: nat, n: nat) returns (subs: seq<U32>)
    requires start <= |payload|
    ensures subs == SubXids(payload[start..], n)
  {
    var i, off := 0, start;
    subs := [];
    while i < n && off + 4 <= |payload|
      invariant i <= n && start <= off <= |payload|
      invariant subs + SubXids(payload[off..], n - i) == SubXids(payload[start..], n)
    {
      XLogBody.Suffix32(payload, off, 0);
      assert payload[off..][4..] == payload[off + 4..];
      subs := subs + [LE32(payload, off)];
      i, off := i + 1, off + 4;
    }
  }

  function MainData(rec: Bytes): Bytes {
    if |rec| < RECORD_HEADER || |rec| == RECORD_HEADER then []
    else
      var p := XLogBody.Split(rec[RECORD_HEADER..]);
      if p.Parts? && p.main != [] then p.main else rec[RECORD_HEADER..]
  }

  function Op(info: Byte): nat {
    info as int / 16 % 8 * 16
  }

  function XactEvent(rec: Bytes): Event
    requires |rec| >= RECORD_HEADER
  {
    var op, xid := Op(rec[16]), LE32(rec, 4);
    var x := ParseXact(rec[16], MainData(rec), op == XACT_COMMIT_PREPARED || op == XACT_ABORT_PREPARED);
    if op == XACT_COMMIT || op == XACT_COMMIT_PREPARED then Commit(xid, x.subs, x.time)
    else if op == XACT_ABORT || op == XACT_ABORT_PREPARED then Abort(xid, x.subs)
    else Other
  }

  /** The decoder of heap records, which may depend on every record seen before (the page cache and
      the TOAST chunks it has collected). */
  type HeapDecoder = (seq<Bytes>, Bytes) -> seq<Change>

  function Classify(heap: HeapDecoder, seen: seq<Bytes>, rec: Bytes): Event {
    if |rec| < RECORD_HEADER then Other
    else if rec[17] == RM_XACT then XactEvent(rec)
    else Rows(heap(seen, rec))
  }

  function EventsOf(heap: HeapDecoder, recs: seq<Bytes>): (evs: seq<Event>)
    ensures |evs| == |recs|
  {
    if recs == [] then []
    else
      var front := recs[..|recs| - 1];
      EventsOf(heap, front) + [Classify(heap, front, recs[|recs| - 1])]
  }

  // ---- Commit and abort records as PostgreSQL writes them ----

  /** A record: total length, xid, previous LSN, info, resource manager, checksum, body. */
  function WriteRecord(xid: U32, prev: Bytes, info: Byte, rmid: Byte, check: Bytes, body: Bytes): (rec: Bytes)
    requires |prev| == 8 && |check| == 6 && RECORD_HEADER + |body| < 0x1_0000_0000
    ensures |rec| == RECORD_HEADER + |body|
  {
    Put32(RECORD_HEADER + |body|) + (Put32(xid) + (prev + ([info, rmid] + (check + body))))
  }

  /** The main data of a commit or abort: the time in microseconds since 2000, and flags, database and
      sub-xids where there are any. */
  datatype XactData = XactData(us: int, otherFlags: nat, dbInfo: Option<Bytes>, subs: seq<U32>, tail: Bytes) {
    predicate Valid() {
      && -0x8000_0000_0000_0000 <= us < 0x8000_0000_0000_0000 && otherFlags < 0x4000_0000
      && (dbInfo.Some? ==> |dbInfo.value| == 8) && |subs| < 0x1_0000_0000
    }

    predicate HasInfo() {
      otherFlags > 0 || dbInfo.Some? || subs != []
    }

    /** Bit 0 for the database, bit 1 for sub-xids. */
    function XInfo(): U32
      requires Valid()
    {
      otherFlags * 4 + (if dbInfo.Some? then 1 else 0) + if subs != [] then 2 else 0
    }

    function Write(): Bytes
      requires Valid()
    {
      Put64(us) + if !HasInfo() then tail else
        Put32(XInfo()) + ((if dbInfo.Some? then dbInfo.value else []) + WriteSubs())
    }

    function WriteSubs(): Bytes
      requires Valid()
    {
      if subs == [] then tail else Put32(|subs|) + (WriteIds(subs) + tail)
    }

    /** In nanoseconds, which are exact within 64 bits and wrap beyond. */
    function Time(): Time {
      Some((1000 * us + 0x8000_0000_0000_0000) % 0x1_0000_0000_0000_0000 - 0x8000_0000_0000_0000)
    }

    /** The sub-xids the reader takes: 1048576 at most, none when there are more than a signed count tells. */
    function Read(): seq<U32> {
      if |subs| <= 1_048_576 then subs else if |subs| < 0x8000_0000 then subs[..1_048_576] else []
    }
  }

  /** A signed number in eight bytes. */
  function Put64(n: int): (s: Bytes)
    requires -0x8000_0000_0000_0000 <= n < 0x8000_0000_0000_0000
    ensures |s| == 8
  {
    var m := if n < 0 then n + 0x1_0000_0000_0000_0000 else n;
    Put32(m % 0x1_0000_0000) + Put32(m / 0x1_0000_0000)
  }

  lemma WrapIs(n: int)
    ensures Wrap64(n) == (n + 0x8000_0000_0000_0000) % 0x1_0000_0000_0000_0000 - 0x8000_0000_0000_0000
  {
  }

  lemma Read64(n: int, rest: Bytes)
    requires -0x8000_0000_0000_0000 <= n < 0x8000_0000_0000_0000
    ensures LE64(Put64(n) + rest, 0) == n && (Put64(n) + rest)[8..] == rest
  {
    hide Put32, LE32;
    var m := if n < 0 then n + 0x1_0000_0000_0000_0000 else n;
    var low, high := m % 0x1_0000_0000, m / 0x1_0000_0000;
    var w := Put64(n) + rest;
    assert w == Put32(low) + (Put32(high) + rest);
    XLogAssembly.Front32(low, Put32(high) + rest);
    XLogAssembly.Front32(high, rest);
    XLogBody.Suffix32(w, 4, 0);
    assert w[4..][4..] == w[8..];
  }

  function WriteIds(ids: seq<U32>): Bytes {
    if ids == [] then [] else Put32(ids[0]) + WriteIds(ids[1..])
  }

  lemma {:induction false} IdsRead(ids: seq<U32>, tail: Bytes, n: nat)
    requires n <= |ids|
    ensures SubXids(WriteIds(ids) + tail, n) == ids[..n]
    decreases |ids|
  {
    if n > 0 {
      hide Put32, LE32;
      var w, rest := WriteIds(ids) + tail, WriteIds(ids[1..]) + tail;
      assert w == Put32(ids[0]) + rest;
      XLogAssembly.Front32(ids[0], rest);
      IdsRead(ids[1..], tail, n - 1);
    }
  }

  lemma XInfoFlags(d: XactData)
    requires d.Valid()
    ensures HasFlag(d.XInfo(), XINFO_HAS_DBINFO) <==> d.dbInfo.Some?
    ensures HasFlag(d.XInfo(), XINFO_HAS_SUBXACTS) <==> d.subs != []
  {
    assert d.XInfo() / 2 == d.otherFlags * 2 + if d.subs != [] then 1 else 0;
  }

  /** Time, flags and the rest at their offsets. */
  lemma XactFields(d: XactData)
    requires d.Valid()
    ensures
      var w := d.Write();
      && |w| >= 8 && PgTime(LE64(w, 0)) == d.Time()
      && (d.HasInfo() ==> |w| >= 12 && LE32(w, 8) == d.XInfo())
      && (d.HasInfo() ==>
            var at := 12 + if d.dbInfo.Some? then 8 else 0;
            |w| >= at && w[at..] == d.WriteSubs())
  {
    hide Put32, LE32, XactData.XInfo, XactData.WriteSubs, LE64, Put64, Wrap64;
    var w := d.Write();
    var w8 := if !d.HasInfo() then d.tail
              else Put32(d.XInfo()) + ((if d.dbInfo.Some? then d.dbInfo.value else []) + d.WriteSubs());
    Read64(d.us, w8);
    WrapIs(1000 * d.us);
    if d.HasInfo() {
      XLogAssembly.Front32(d.XInfo(), (if d.dbInfo.Some? then d.dbInfo.value else []) + d.WriteSubs());
      XLogBody.Suffix32(w, 8, 0);
      assert w[12..] == (if d.dbInfo.Some? then d.dbInfo.value else []) + d.WriteSubs();
    }
  }

  lemma Shifted(front: Bytes, w: Bytes, i: nat)
    requires |front| == 4 && i + 4 <= |w|
    ensures LE32(front + w, 4 + i) == LE32(w, i)
  {
    assert (front + w)[4..] == w;
    XLogBody.Suffix32(front + w, 4, i);
  }

  /** The data of a prepared transaction's end is that of any other, behind four bytes. */
  lemma PreparedAlike(info: Byte, front: Bytes, w: Bytes)
    requires |front| == 4
    ensures ParseXact(info, front + w, true) == ParseXact(info, w, false)
  {
    hide LE32, HasFlag, PgTime, SubXids, SubCount, Wrap64;
    var all := front + w;
    if |w| >= 8 {
      Shifted(front, w, 0);
      Shifted(front, w, 4);
      if |w| >= 12 {
        Shifted(front, w, 8);
        var at := 12 + if HasFlag(LE32(w, 8), XINFO_HAS_DBINFO) then 8 else 0;
        if at + 4 <= |w| {
          Shifted(front, w, at);
          assert all[4 + at + 4..] == w[at + 4..];
        }
      }
    }
  }

  /** The parser gives back time and sub-xids, whatever follows them. */
  lemma XactRead(d: XactData, info: Byte, front: Bytes)
    requires d.Valid() && (info >= 0x80 <==> d.HasInfo()) && |front| in {0, 4}
    ensures ParseXact(info, front + d.Write(), |front| == 4) == Xact(d.Time(), d.Read())
  {
    hide XactData.Write, XactData.Time, XactData.Valid, ParseXact, HasFlag;
    PlainXactRead(d, info);
    if |front| == 4 { PreparedAlike(info, front, d.Write()); } else { assert front + d.Write() == d.Write(); }
  }

  lemma InfoBit(info: Byte)
    ensures HasFlag(info as int, XACT_HAS_INFO) <==> info >= 0x80
  {
  }

  lemma PlainXactRead(d: XactData, info: Byte)
    requires d.Valid() && (info >= 0x80 <==> d.HasInfo())
    ensures ParseXact(info, d.Write(), false) == Xact(d.Time(), d.Read())
  {
    hide HasFlag, LE64, PgTime, XactData.Write, XactData.XInfo, XactData.Time;
    XactFields(d);
    XInfoFlags(d);
    InfoBit(info);
    if d.HasInfo() && d.subs != [] {
      var w := d.Write();
      var at := 12 + if d.dbInfo.Some? then 8 else 0;
      XLogAssembly.Front32(|d.subs|, WriteIds(d.subs) + d.tail);
      XLogBody.Suffix32(w, at, 0);
      assert w[at + 4..] == w[at..][4..];
      IdsRead(d.subs, d.tail, SubCount(|d.subs|));
      assert d.subs[..|d.subs|] == d.subs;
    }
  }

  lemma RecordFields(xid: U32, prev: Bytes, info: Byte, rmid: Byte, check: Bytes, body: Bytes)
    requires |prev| == 8 && |check| == 6 && RECORD_HEADER + |body| < 0x1_0000_0000
    ensures
      var rec := WriteRecord(xid, prev, info, rmid, check, body);
      && LE32(rec, 0) == |rec| && LE32(rec, 4) == xid && rec[16] == info && rec[17] == rmid
      && rec[RECORD_HEADER..] == body
  {
    hide Put32, LE32;
    var rec := WriteRecord(xid, prev, info, rmid, check, body);
    var rest := prev + ([info, rmid] + (check + body));
    XLogAssembly.Front32(RECORD_HEADER + |body|, Put32(xid) + rest);
    XLogAssembly.Front32(xid, rest);
    assert rec[4..] == Put32(xid) + rest;
    XLogBody.Suffix32(rec, 4, 0);
  }

  /** What a transaction record does, by bits 4 to 6 of its info byte: 0 and 3 commit, 2 and 4 abort; 3 and 4
      do it for a prepared transaction. */
  function KindOf(info: Byte): nat {
    info as int / 16 % 8
  }

  lemma KindIs(info: Byte)
    ensures Op(info) == XACT_COMMIT <==> KindOf(info) == 0
    ensures Op(info) == XACT_ABORT <==> KindOf(info) == 2
    ensures Op(info) == XACT_COMMIT_PREPARED <==> KindOf(info) == 3
    ensures Op(info) == XACT_ABORT_PREPARED <==> KindOf(info) == 4
  {
  }

  /** A commit or abort record, of a prepared transaction or not, is read as that commit or abort, with its
      xid, time and sub-xids. */
  lemma XactRecordRead(xid: U32, prev: Bytes, info: Byte, check: Bytes, b: XLogAssembly.Body, d: XactData, front: Bytes)
    requires |prev| == 8 && |check| == 6
    requires b.Valid() && !b.main.Omitted? && d.Valid() && b.main.bytes == front + d.Write()
    requires RECORD_HEADER + |XLogAssembly.Assemble(b)| < 0x1_0000_0000
    requires KindOf(info) in {0, 2, 3, 4} && |front| == if KindOf(info) >= 3 then 4 else 0
    requires info >= 0x80 <==> d.HasInfo()
    ensures
      var rec := WriteRecord(xid, prev, info, 1, check, XLogAssembly.Assemble(b));
      forall heap: HeapDecoder, seen ::
        Classify(heap, seen, rec)
        == if KindOf(info) in {0, 3} then Commit(xid, d.Read(), d.Time()) else Abort(xid, d.Read())
  {
    var body := XLogAssembly.Assemble(b);
    hide Op, KindOf, HasFlag, LE32, ParseXact, XLogAssembly.Assemble, XactData.Write, WriteRecord, XactData.Time,
         XLogBody.Split, XactData.Read, XactData.Valid, XactData.HasInfo, Put64;
    RecordFields(xid, prev, info, 1, check, body);
    XLogAssembly.SplitAssembled(b);
    KindIs(info);
    WrittenSize(d);
    XactRead(d, info, front);
    assert b.main.bytes != [];
    assert MainData(WriteRecord(xid, prev, info, 1, check, body)) == front + d.Write() by {
      assert body != [] by { NoBytesNoMain(); }
    }
  }

  /** The same where the payload stands bare in the record, as long as it cannot be split into a record's parts
      with main data. */
  lemma BareRecordRead(xid: U32, prev: Bytes, info: Byte, check: Bytes, d: XactData, front: Bytes)
    requires |prev| == 8 && |check| == 6 && d.Valid() && RECORD_HEADER + |front + d.Write()| < 0x1_0000_0000
    requires var p := XLogBody.Split(front + d.Write()); p.Malformed? || p.main == []
    requires KindOf(info) in {0, 2, 3, 4} && |front| == if KindOf(info) >= 3 then 4 else 0
    requires info >= 0x80 <==> d.HasInfo()
    ensures
      var rec := WriteRecord(xid, prev, info, 1, check, front + d.Write());
      forall heap: HeapDecoder, seen ::
        Classify(heap, seen, rec)
        == if KindOf(info) in {0, 3} then Commit(xid, d.Read(), d.Time()) else Abort(xid, d.Read())
  {
    var body := front + d.Write();
    hide Op, KindOf, HasFlag, LE32, ParseXact, XactData.Write, WriteRecord, XactData.Time, XLogBody.Split,
         XactData.Read, XactData.Valid, XactData.HasInfo, Put64;
    RecordFields(xid, prev, info, 1, check, body);
    KindIs(info);
    WrittenSize(d);
    XactRead(d, info, front);
    assert MainData(WriteRecord(xid, prev, info, 1, check, body)) == body;
  }

  lemma WrittenSize(d: XactData)
    requires d.Valid()
    ensures d.Write() != []
  {
  }

  /** Any other record of a transaction means nothing, and a record of another resource manager is left to
      the decoder of rows. */
  lemma OtherRecordRead(xid: U32, prev: Bytes, info: Byte, rmid: Byte, check: Bytes, body: Bytes)
    requires |prev| == 8 && |check| == 6 && RECORD_HEADER + |body| < 0x1_0000_0000
    ensures
      var rec := WriteRecord(xid, prev, info, rmid, check, body);
      && (rmid == 1 && KindOf(info) !in {0, 2, 3, 4} ==>
            forall heap: HeapDecoder, seen :: Classify(heap, seen, rec) == Other)
      && (rmid != 1 ==> forall heap: HeapDecoder, seen :: Classify(heap, seen, rec) == Rows(heap(seen, rec)))
  {
    hide Op, KindOf, LE32, ParseXact, WriteRecord, MainData;
    RecordFields(xid, prev, info, rmid, check, body);
    KindIs(info);
  }

  lemma NoBytesNoMain()
    ensures XLogBody.Split([]).Parts? ==> XLogBody.Split([]).main == []
  {
  }
}
