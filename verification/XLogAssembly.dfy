/** Assembling a record body the way PostgreSQL's XLogRecordAssemble does, and the proof that the
    splitter undoes it whenever a main-data header is written. */
module XLogAssembly {
  import opened Bytes
  import opened Options
  import opened XLogBody

  /** A page image: its stored bytes, the hole taken out of it, and the flag bits. */
  datatype ImageRef = ImageRef(bytes: Bytes, holeOff: U16, holeLen: U16, bimg: Byte) {
    /** Bits 2 to 4 say how the image is compressed: 1 for PGLZ, 2 for LZ4, 4 for ZSTD, 0 for not at all. */
    function Packing(): nat {
      bimg as int / 4 % 8
    }

    /** A compressed image says whether a hole was taken out, of any length; a plain one leaves as much out as
        it is shorter than a page. */
    predicate Valid() {
      && |bytes| < 0x1_0000
      && (Packing() == 0 ==> holeLen == if |bytes| <= 8192 then 8192 - |bytes| else 0)
      && (Packing() != 0 && bimg as int % 2 == 0 ==> holeLen == 0)
    }

    predicate WritesHole() {
      Packing() != 0 && bimg as int % 2 == 1
    }

    function Write(): Bytes
      requires Valid()
    {
      Put16(|bytes|) + Put16(holeOff) + [bimg] + if WritesHole() then Put16(holeLen) else []
    }
  }

  /** A block reference to be written. */
  datatype Ref = Ref(id: Byte, fork: nat, willInit: bool, image: Option<ImageRef>, hasData: bool, data: Bytes,
                     sameRel: bool, rel: RelId, blkno: U32) {
    predicate Valid() {
      && id <= 32 && fork < 16 && |data| < 0x1_0000 && (data != [] ==> hasData)
      && (image.Some? ==> image.value.Valid())
    }

    function Flags(): (f: Byte)
      requires Valid()
    {
      (fork + (if image.Some? then 0x10 else 0) + (if hasData then 0x20 else 0) + (if willInit then 0x40 else 0)
       + if sameRel then 0x80 else 0) as Byte
    }

    function WriteImage(): Bytes
      requires Valid()
    {
      if image.Some? then image.value.Write() else []
    }

    function WriteRel(): Bytes {
      (if sameRel then [] else Put32(rel.spc) + Put32(rel.db) + Put32(rel.rel)) + Put32(blkno)
    }

    function Write(): Bytes
      requires Valid()
    {
      [id] + WriteHeader()
    }

    function WriteHeader(): Bytes
      requires Valid()
    {
      [Flags()] + (Put16(|data|) + (WriteImage() + WriteRel()))
    }

    function WritePayload(): Bytes {
      (if image.Some? then image.value.bytes else []) + data
    }

    function ToMeta(): Meta
      requires Valid()
    {
      var img := if image.Some? then image.value else ImageRef([], 0, 0, 0);
      Meta(Flags(), |data|, image.Some?, if image.Some? then |img.bytes| else 0, img.holeOff, img.bimg, img.holeLen,
           rel, blkno)
    }

    /** What the reader of the record should get. */
    function ToBlock(): Block {
      var img := if image.Some? then image.value else ImageRef([], 0, 0, 0);
      Block(rel, blkno, data, img.bytes, img.holeOff, img.holeLen, img.bimg)
    }
  }

  predicate ValidRefs(refs: seq<Ref>) {
    forall i :: 0 <= i < |refs| ==> refs[i].Valid()
  }

  /** The same-relation shorthand is used only where the relation is the previous block's. */
  predicate SameRels(refs: seq<Ref>, last: RelId)
    decreases |refs|
  {
    refs == [] || ((refs[0].sameRel ==> refs[0].rel == last) && SameRels(refs[1..], refs[0].rel))
  }

  datatype MainData = Omitted | Short(bytes: Bytes) | Long(bytes: Bytes) {
    predicate Valid() {
      match this
      case Omitted => true
      case Short(m) => |m| < 0x100
      case Long(m) => |m| < 0x1_0000_0000
    }

    function Header(): Bytes
      requires Valid()
    {
      match this
      case Omitted => []
      case Short(m) => [255, |m| as Byte]
      case Long(m) => [254] + Put32(|m|)
    }

    function Data(): Bytes {
      if Omitted? then [] else bytes
    }
  }

  datatype Body = Body(refs: seq<Ref>, origin: Option<U16>, topXid: Option<U32>, main: MainData) {
    predicate Valid() {
      ValidRefs(refs) && SameRels(refs, RelId(0, 0, 0)) && main.Valid()
    }
  }

  function WriteRefs(refs: seq<Ref>): Bytes
    requires ValidRefs(refs)
  {
    if refs == [] then [] else refs[0].Write() + WriteRefs(refs[1..])
  }

  function WritePayloads(refs: seq<Ref>): Bytes {
    if refs == [] then [] else refs[0].WritePayload() + WritePayloads(refs[1..])
  }

  function WriteOrigin(origin: Option<U16>): Bytes {
    if origin.None? then [] else [253] + Put16(origin.value)
  }

  function WriteTopXid(topXid: Option<U32>): Bytes {
    if topXid.None? then [] else [252] + Put32(topXid.value)
  }

  function Assemble(b: Body): Bytes
    requires b.Valid()
  {
    WriteRefs(b.refs) + (WriteOrigin(b.origin) + (WriteTopXid(b.topXid) + (b.main.Header()
    + (WritePayloads(b.refs) + b.main.Data()))))
  }

  function Blocks(refs: seq<Ref>): seq<Block> {
    if refs == [] then [] else [refs[0].ToBlock()] + Blocks(refs[1..])
  }

  function Metas(refs: seq<Ref>): seq<Meta>
    requires ValidRefs(refs)
  {
    if refs == [] then [] else [refs[0].ToMeta()] + Metas(refs[1..])
  }

  function LastRel(refs: seq<Ref>, last: RelId): RelId {
    if refs == [] then last else LastRel(refs[1..], refs[0].rel)
  }

  // ---- Fields at the front of a string ----

  lemma Front16(n: U16, rest: Bytes)
    ensures LE16(Put16(n) + rest, 0) == n && (Put16(n) + rest)[2..] == rest
  {
    var p := Put16(n);
    var s := p + rest;
    assert s[0] == p[0] && s[1] == p[1];
  }

  lemma Front32(n: U32, rest: Bytes)
    ensures LE32(Put32(n) + rest, 0) == n && (Put32(n) + rest)[4..] == rest
  {
    var p := Put32(n);
    var s := p + rest;
    assert s[0] == p[0] && s[1] == p[1] && s[2] == p[2] && s[3] == p[3];
  }

  lemma FlagsRead(r: Ref)
    requires r.Valid()
    ensures
      var f := r.Flags() as int;
      && (HasFlag(f, HAS_IMAGE) <==> r.image.Some?)
      && (HasFlag(f, HAS_DATA) <==> r.hasData)
      && (HasFlag(f, SAME_REL) <==> r.sameRel)
  {
    var f := r.Flags() as int;
    assert f / 0x10 == (if r.image.Some? then 1 else 0) + 2 * (if r.hasData then 1 else 0)
                       + 4 * (if r.willInit then 1 else 0) + 8 * if r.sameRel then 1 else 0;
    assert f / 0x20
      == (if r.hasData then 1 else 0) + 2 * (if r.willInit then 1 else 0) + 4 * if r.sameRel then 1 else 0;
    assert f / 0x80 == if r.sameRel then 1 else 0;
  }

  lemma PackingIs(i: ImageRef)
    ensures Compressed(i.bimg) <==> i.Packing() != 0
    ensures HasFlag(i.bimg as int, IMAGE_HAS_HOLE) <==> i.bimg as int % 2 == 1
    ensures i.Valid() ==> i.holeLen == HoleLen(i.bimg, |i.bytes|, i.holeLen)
  {
    var q := i.bimg as int / 4;
    assert i.bimg as int / 8 == q / 2 && i.bimg as int / 16 == q / 4;
    LowBits(q);
    OneOfThree(q % 8);
  }

  lemma OneOfThree(r: nat)
    requires r < 8
    ensures r == 0 <==> r % 2 == 0 && r / 2 % 2 == 0 && r / 4 == 0
  {
  }

  lemma LowBits(q: nat)
    ensures q % 8 % 2 == q % 2 && q % 8 / 2 % 2 == q / 2 % 2 && q % 8 / 4 == q / 4 % 2
  {
    var r, h := q % 8, q / 8;
    assert q == 8 * h + r && q / 2 == 4 * h + r / 2 && q / 4 == 2 * h + r / 4;
  }

  lemma ImageRead(i: ImageRef, rest: Bytes)
    requires i.Valid()
    ensures
      var w := i.Write() + rest;
      && ReadImage(w) == Image(|i.bytes|, i.holeOff, i.bimg, i.holeLen, |i.Write()|)
      && w[|i.Write()|..] == rest
  {
    var w := i.Write() + rest;
    var hole := if i.WritesHole() then Put16(i.holeLen) else [];
    hide HasFlag, Put16, LE16, Compressed, ImageRef.Packing;
    PackingIs(i);
    Front16(|i.bytes|, Put16(i.holeOff) + ([i.bimg] + (hole + rest)));
    Front16(i.holeOff, [i.bimg] + (hole + rest));
    assert w == Put16(|i.bytes|) + (Put16(i.holeOff) + ([i.bimg] + (hole + rest)));
    assert w[2..] == Put16(i.holeOff) + ([i.bimg] + (hole + rest));
    assert w[5..] == hole + rest;
    assert LE16(w, 2) == LE16(w[2..], 0) by { Suffix16(w, 2, 0); }
    if i.WritesHole() {
      Front16(i.holeLen, rest);
      assert LE16(w, 5) == LE16(w[5..], 0) by { Suffix16(w, 5, 0); }
    }
  }

  lemma RelRead(r: Ref, rest: Bytes)
    ensures
      var w := r.WriteRel() + rest;
      && w[|r.WriteRel()|..] == rest
      && |r.WriteRel()| == (if r.sameRel then 4 else 16)
      && LE32(w, |r.WriteRel()| - 4) == r.blkno
      && (!r.sameRel ==> RelId(LE32(w, 0), LE32(w, 4), LE32(w, 8)) == r.rel)
  {
    hide LE32, Put32;
    var w := r.WriteRel() + rest;
    Front32(r.blkno, rest);
    if r.sameRel {
      assert w == Put32(r.blkno) + rest;
    } else {
      var w2 := Put32(r.rel.rel) + (Put32(r.blkno) + rest);
      var w1 := Put32(r.rel.db) + w2;
      assert w == Put32(r.rel.spc) + w1;
      Front32(r.rel.spc, w1); Front32(r.rel.db, w2); Front32(r.rel.rel, Put32(r.blkno) + rest);
      assert w[4..] == w1 && w[8..] == w2 && w[12..] == Put32(r.blkno) + rest;
      Suffix32(w, 4, 0); Suffix32(w, 8, 0); Suffix32(w, 12, 0);
    }
  }

  /** A block header is read right from any string whose fields are the right ones. */
  lemma HeaderOf(w: Bytes, r: Ref, last: RelId)
    requires r.Valid() && (r.sameRel ==> r.rel == last)
    requires |w| >= 3 + |r.WriteImage()| + |r.WriteRel()|
    requires w[0] == r.Flags() && LE16(w, 1) == |r.data|
    requires r.image.Some? ==>
               var i := r.image.value;
               ReadImage(w[3..]) == Image(|i.bytes|, i.holeOff, i.bimg, i.holeLen, |i.Write()|)
    requires
      var v := w[3 + |r.WriteImage()|..];
      && |r.WriteRel()| == (if r.sameRel then 4 else 16)
      && LE32(v, |r.WriteRel()| - 4) == r.blkno
      && (!r.sameRel ==> RelId(LE32(v, 0), LE32(v, 4), LE32(v, 8)) == r.rel)
    ensures ReadBlockHeader(w, last) == Header(r.ToMeta(), 3 + |r.WriteImage()| + |r.WriteRel()|)
  {
    FlagsRead(r);
    hide HasFlag, LE16, LE32, ReadImage, Put16, Put32, ImageRef.Write, Ref.WriteRel, Ref.Flags;
  }

  lemma CutAt(a: Bytes, b: Bytes)
    ensures (a + b)[..|a|] == a && (a + b)[|a|..] == b
  {
  }

  lemma FixedPart(flags: Byte, n: U16, rest: Bytes)
    ensures
      var w := [flags] + (Put16(n) + rest);
      |w| == 3 + |rest| && w[0] == flags && LE16(w, 1) == n && w[3..] == rest
  {
    var p := Put16(n);
    var w := [flags] + (p + rest);
    assert w[1] == p[0] && w[2] == p[1];
  }

  lemma Append(a: Bytes, b: Bytes, c: Bytes, d: Bytes, rest: Bytes)
    ensures (a + (b + (c + d))) + rest == a + (b + (c + (d + rest)))
  {
  }

  lemma ImageValid(r: Ref)
    requires r.Valid()
    ensures if r.image.Some? then r.image.value.Valid() && r.WriteImage() == r.image.value.Write()
            else r.WriteImage() == []
  {
  }

  lemma HeaderRead(r: Ref, last: RelId, rest: Bytes)
    requires r.Valid() && (r.sameRel ==> r.rel == last)
    ensures ReadBlockHeader(r.WriteHeader() + rest, last) == Header(r.ToMeta(), |r.WriteHeader()|)
  {
    var v := r.WriteRel() + rest;
    var w := [r.Flags()] + (Put16(|r.data|) + (r.WriteImage() + v));
    hide HasFlag, LE16, LE32, ReadImage, Put16, Put32, Ref.WriteImage, Ref.WriteRel, Ref.Flags, ReadBlockHeader,
         Ref.ToMeta, Compressed;
    Append([r.Flags()], Put16(|r.data|), r.WriteImage(), r.WriteRel(), rest);
    FixedPart(r.Flags(), |r.data|, r.WriteImage() + v);
    CutAt(r.WriteImage(), v);
    assert w[3 + |r.WriteImage()|..] == w[3..][|r.WriteImage()|..];
    assert r.image.Some? ==> r.image.value.Valid() && r.WriteImage() == r.image.value.Write() by { ImageValid(r); }
    if r.image.Some? {
      ImageRead(r.image.value, v);
    }
    RelRead(r, rest);
    HeaderOf(w, r, last);
  }

  lemma ItemRead(r: Ref, last: RelId, topXid: U32, rest: Bytes)
    requires r.Valid() && (r.sameRel ==> r.rel == last)
    ensures ReadItem(r.Write() + rest, last, topXid) == BlockItem(r.ToMeta(), |r.Write()|)
    ensures (r.Write() + rest)[|r.Write()|..] == rest
  {
    hide ReadBlockHeader, Ref.ToMeta, Put16, Ref.WriteRel, Ref.WriteImage, Ref.Flags;
    HeaderRead(r, last, rest);
    assert (r.Write() + rest)[1..] == r.WriteHeader() + rest;
  }

  lemma HeadersStep(w: Bytes, last: RelId, topXid: U32, meta: Meta, size: nat)
    requires w != [] && ReadItem(w, last, topXid) == BlockItem(meta, size)
    ensures ReadHeaders(w, last, topXid) == ReadHeaders(w[size..], meta.rel, topXid).Before(meta)
  {
    hide ReadItem;
  }

  lemma PrependCons(m: Meta, metas: seq<Meta>, h: Headers)
    ensures Prepend([m] + metas, h) == Prepend(metas, h).Before(m)
  {
    if h.Headers? {
      assert [m] + (metas + h.metas) == ([m] + metas) + h.metas;
    }
  }

  /** Block headers come back as written, and reading goes on after them with the last relation. */
  lemma {:induction false} RefsRead(refs: seq<Ref>, last: RelId, topXid: U32, tail: Bytes)
    requires ValidRefs(refs) && SameRels(refs, last)
    ensures ReadHeaders(WriteRefs(refs) + tail, last, topXid)
         == Prepend(Metas(refs), ReadHeaders(tail, LastRel(refs, last), topXid))
    decreases |refs|
  {
    hide ReadHeaders, ReadItem, Ref.Write, Ref.Valid;
    if refs == [] {
      assert WriteRefs(refs) + tail == tail;
      assert Prepend([], ReadHeaders(tail, last, topXid)) == ReadHeaders(tail, last, topXid);
    } else {
      var r, rest := refs[0], WriteRefs(refs[1..]) + tail;
      assert r.Valid() && ValidRefs(refs[1..]);
      assert WriteRefs(refs) + tail == r.Write() + rest;
      assert r.ToMeta().rel == r.rel;
      hide Ref.ToMeta, Prepend;
      ItemRead(r, last, topXid, rest);
      HeadersStep(r.Write() + rest, last, topXid, r.ToMeta(), |r.Write()|);
      RefsRead(refs[1..], r.rel, topXid, tail);
      PrependCons(r.ToMeta(), Metas(refs[1..]), ReadHeaders(tail, LastRel(refs, last), topXid));
    }
  }

  lemma OriginRead(origin: Option<U16>, last: RelId, topXid: U32, tail: Bytes)
    ensures ReadHeaders(WriteOrigin(origin) + tail, last, topXid) == ReadHeaders(tail, last, topXid)
  {
    var w := WriteOrigin(origin) + tail;
    if origin.None? {
      assert w == tail;
    } else {
      assert w[3..] == tail;
    }
  }

  lemma TopXidRead(xid: Option<U32>, last: RelId, tail: Bytes)
    ensures ReadHeaders(WriteTopXid(xid) + tail, last, 0)
         == ReadHeaders(tail, last, if xid.Some? then xid.value else 0)
  {
    var w := WriteTopXid(xid) + tail;
    if xid.None? {
      assert w == tail;
    } else {
      Front32(xid.value, tail);
      assert w[1..] == Put32(xid.value) + tail;
      Suffix32(w, 1, 0);
      assert w[5..] == tail;
    }
  }

  lemma MainRead(main: MainData, last: RelId, topXid: U32, tail: Bytes)
    requires main.Valid() && !main.Omitted?
    ensures ReadHeaders(main.Header() + tail, last, topXid) == Headers([], topXid, |main.bytes|, tail)
  {
    var w := main.Header() + tail;
    match main
    case Short(m) => assert w[2..] == tail;
    case Long(m) =>
      Front32(|m|, tail);
      assert w[1..] == Put32(|m|) + tail;
      Suffix32(w, 1, 0);
      assert w[5..] == tail;
  }

  lemma PayloadStep(r: Ref, metas: seq<Meta>, rest: Bytes)
    requires r.Valid()
    ensures ReadPayload([r.ToMeta()] + metas, r.WritePayload() + rest) == ReadPayload(metas, rest).Before(r.ToBlock())
  {
    hide HasFlag, Ref.Flags, ImageRef.Valid;
    FlagsRead(r);
    var img := if r.image.Some? then r.image.value.bytes else [];
    var w, all := r.WritePayload() + rest, [r.ToMeta()] + metas;
    assert all[0] == r.ToMeta() && all[1..] == metas;
    assert w == img + (r.data + rest);
    assert w[..|img|] == img && w[|img|..] == r.data + rest;
    assert w[|img|..][..|r.data|] == r.data && w[|img|..][|r.data|..] == rest;
  }

  lemma NoPayload(tail: Bytes)
    ensures ReadPayload(Metas([]), WritePayloads([]) + tail) == Payload(Blocks([]), tail)
  {
    assert WritePayloads([]) + tail == tail;
  }

  lemma FirstPayload(refs: seq<Ref>, tail: Bytes)
    requires ValidRefs(refs) && refs != []
    ensures refs[0].Valid() && ValidRefs(refs[1..])
    ensures WritePayloads(refs) + tail == refs[0].WritePayload() + (WritePayloads(refs[1..]) + tail)
    ensures Metas(refs) == [refs[0].ToMeta()] + Metas(refs[1..])
            && Blocks(refs) == [refs[0].ToBlock()] + Blocks(refs[1..])
  {
    hide Ref.ToMeta, Ref.ToBlock, Ref.WritePayload;
  }

  lemma {:induction false} PayloadRead(refs: seq<Ref>, tail: Bytes)
    requires ValidRefs(refs)
    ensures ReadPayload(Metas(refs), WritePayloads(refs) + tail) == Payload(Blocks(refs), tail)
    decreases |refs|
  {
    hide ReadPayload, WritePayloads, Metas, Blocks, ValidRefs, Ref.ToMeta, Ref.ToBlock, Ref.WritePayload, Ref.Valid;
    if refs == [] {
      NoPayload(tail);
    } else {
      FirstPayload(refs, tail);
      PayloadStep(refs[0], Metas(refs[1..]), WritePayloads(refs[1..]) + tail);
      PayloadRead(refs[1..], tail);
    }
  }

  /** A record with an item id that is neither a block's nor one of the four others is rejected. */
  lemma UnknownIdRejected(refs: seq<Ref>, id: Byte, rest: Bytes)
    requires ValidRefs(refs) && SameRels(refs, RelId(0, 0, 0)) && 32 < id < 252
    ensures Split(WriteRefs(refs) + ([id] + rest)) == Malformed
  {
    hide WriteRefs, Metas, LastRel;
    RefsRead(refs, NoRel, 0, [id] + rest);
  }

  /** Headers as far as the main-data header. */
  lemma HeadersRead(b: Body)
    requires b.Valid()
    ensures
      var rest := b.main.Header() + (WritePayloads(b.refs) + b.main.Data());
      ReadHeaders(Assemble(b), NoRel, 0)
      == Prepend(Metas(b.refs), ReadHeaders(rest, LastRel(b.refs, NoRel), if b.topXid.Some? then b.topXid.value else 0))
  {
    hide ReadHeaders, WriteRefs, WritePayloads, WriteOrigin, WriteTopXid, Metas;
    var rest := b.main.Header() + (WritePayloads(b.refs) + b.main.Data());
    RefsRead(b.refs, NoRel, 0, WriteOrigin(b.origin) + (WriteTopXid(b.topXid) + rest));
    OriginRead(b.origin, LastRel(b.refs, NoRel), 0, WriteTopXid(b.topXid) + rest);
    TopXidRead(b.topXid, LastRel(b.refs, NoRel), rest);
  }

  /** Splitting undoes assembling: every relation, block number, image, hole, data, top-level xid and
      the main data come back, provided a main-data header was written. */
  lemma SplitAssembled(b: Body)
    requires b.Valid() && !b.main.Omitted?
    ensures Split(Assemble(b))
         == Parts(Blocks(b.refs), b.main.bytes, if b.topXid.Some? then b.topXid.value else 0)
  {
    hide ReadHeaders, WriteRefs, WritePayloads, WriteOrigin, WriteTopXid, Metas, Assemble, ReadPayload, MainData.Header;
    HeadersRead(b);
    MainRead(b.main, LastRel(b.refs, NoRel), if b.topXid.Some? then b.topXid.value else 0,
             WritePayloads(b.refs) + b.main.bytes);
    PayloadRead(b.refs, b.main.bytes);
    assert Metas(b.refs) + [] == Metas(b.refs);
    assert b.main.bytes[..|b.main.bytes|] == b.main.bytes;
  }

  // ---- Records without main data: the header is left out, and the payload is read as headers ----

  /** Reading on into bytes that are not headers always uses up at least one of them. */
  lemma {:induction false} HeadersShrink(b: Bytes, last: RelId, topXid: U32)
    requires b != []
    ensures
      var h := ReadHeaders(b, last, topXid);
      h.Headers? ==> |h.rest| < |b|
    decreases |b|
  {
    hide ReadItem;
    match ReadItem(b, last, topXid)
    case BadItem =>
    case Main(_, _) =>
    case Passed(xid, size) =>
      if b[size..] != [] { HeadersShrink(b[size..], last, xid); }
    case BlockItem(meta, size) =>
      if b[size..] != [] { HeadersShrink(b[size..], meta.rel, topXid); }
  }

  /** The payload of the written blocks does not fit in fewer bytes. */
  lemma {:induction false} PayloadTooShort(refs: seq<Ref>, more: seq<Meta>, rest: Bytes)
    requires ValidRefs(refs) && |rest| < |WritePayloads(refs)|
    ensures ReadPayload(Metas(refs) + more, rest).ShortPayload?
    decreases |refs|
  {
    if refs != [] {
      var r := refs[0];
      var metas := Metas(refs) + more;
      assert r.Valid() && ValidRefs(refs[1..]);
      FlagsRead(r);
      hide HasFlag, Ref.Flags, Ref.Valid;
      var m := metas[0];
      assert m == r.ToMeta() && metas[1..] == Metas(refs[1..]) + more;
      assert ImageSize(m) + DataSize(m) == |r.WritePayload()|;
      if ImageSize(m) + DataSize(m) <= |rest| {
        PayloadTooShort(refs[1..], more, rest[ImageSize(m)..][DataSize(m)..]);
      }
    }
  }

  /** Without a main-data header the splitter gets the record right exactly when the blocks carry no
      image and no data; otherwise it rejects the record. */
  lemma SplitWithoutMain(b: Body)
    requires b.Valid() && b.main.Omitted?
    ensures Split(Assemble(b))
         == if WritePayloads(b.refs) == []
            then Parts(Blocks(b.refs), [], if b.topXid.Some? then b.topXid.value else 0)
            else Malformed
  {
    var payload := WritePayloads(b.refs);
    var topXid := if b.topXid.Some? then b.topXid.value else 0;
    HeadersRead(b);
    assert b.main.Header() + (payload + b.main.Data()) == payload;
    var h := ReadHeaders(payload, LastRel(b.refs, NoRel), topXid);
    if payload == [] {
      PayloadRead(b.refs, []);
      assert payload + [] == [] && Metas(b.refs) + [] == Metas(b.refs);
    } else {
      HeadersShrink(payload, LastRel(b.refs, NoRel), topXid);
      if h.Headers? {
        PayloadTooShort(b.refs, h.metas, h.rest);
      }
    }
  }
}
