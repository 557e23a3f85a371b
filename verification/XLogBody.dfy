/** Splitting the body of an XLOG record into block references and main data
    (flashbackSplitXLogBody in flashback_walparse.go). */
module XLogBody {
  import opened Bytes

  const ID_DATA_SHORT: Byte := 255
  const ID_DATA_LONG: Byte := 254
  const ID_ORIGIN: Byte := 253
  const ID_TOP_XID: Byte := 252
  const MAX_BLOCK_ID: Byte := 32
  const HAS_IMAGE := 0x10
  const HAS_DATA := 0x20
  const SAME_REL := 0x80
  const IMAGE_HAS_HOLE := 0x01
  const IMAGE_PGLZ := 0x04
  const IMAGE_LZ4 := 0x08
  const IMAGE_ZSTD := 0x10

  datatype RelId = RelId(spc: U32, db: U32, rel: U32)

  const NoRel := RelId(0, 0, 0)

  /** A block header as read. */
  datatype Meta = Meta(flags: Byte, dataLen: U16, hasImage: bool, imgLen: U16, holeOff: U16, bimg: Byte,
                       holeLen: U16, rel: RelId, blkno: U32)

  /** A block reference as handed on to the record decoders. */
  datatype Block = Block(rel: RelId, blkno: U32, data: Bytes, image: Bytes, holeOff: U16, holeLen: U16,
                         bimg: Byte)

  datatype Parts = Malformed | Parts(blocks: seq<Block>, main: Bytes, topXid: U32)

  predicate Compressed(bimg: Byte) {
    HasFlag(bimg as int, IMAGE_PGLZ) || HasFlag(bimg as int, IMAGE_LZ4) || HasFlag(bimg as int, IMAGE_ZSTD)
  }

  /** The hole length stored with a block: explicit for a compressed image with a hole, the page
      size less the image otherwise. */
  function HoleLen(bimg: Byte, imgLen: U16, explicit: U16): U16 {
    if Compressed(bimg) then (if HasFlag(bimg as int, IMAGE_HAS_HOLE) then explicit else 0)
    else if PAGE_SIZE >= imgLen then PAGE_SIZE - imgLen
    else 0
  }

  // ---- Reading, as functions of what is left to read ----

  datatype Image = BadImage | Image(imgLen: U16, holeOff: U16, bimg: Byte, holeLen: U16, size: nat)

  function ReadImage(b: Bytes): (r: Image)
    ensures r.Image? ==> r.size <= |b|
  {
    if 5 > |b| then BadImage
    else
      var imgLen, bimg := LE16(b, 0), b[4];
      if Compressed(bimg) && HasFlag(bimg as int, IMAGE_HAS_HOLE) then
        if 7 > |b| then BadImage
        else Image(imgLen, LE16(b, 2), bimg, LE16(b, 5), 7)
      else Image(imgLen, LE16(b, 2), bimg, HoleLen(bimg, imgLen, 0), 5)
  }

  datatype Header = BadHeader | Header(meta: Meta, size: nat)

  /** A block header after its id byte: flags, data length, image header, relation, block number. */
  function ReadBlockHeader(b: Bytes, last: RelId): (r: Header)
    ensures r.Header? ==> r.size <= |b|
  {
    if 3 > |b| then BadHeader
    else
      var flags, dataLen := b[0], LE16(b, 1);
      var img := if HasFlag(flags as int, HAS_IMAGE) then ReadImage(b[3..]) else Image(0, 0, 0, 0, 0);
      if img.BadImage? then BadHeader
      else
        var b' := b[3 + img.size..];
        var n := if HasFlag(flags as int, SAME_REL) then 4 else 16;
        if n > |b'| then BadHeader
        else
          var rel := if n == 4 then last else RelId(LE32(b', 0), LE32(b', 4), LE32(b', 8));
          Header(Meta(flags, dataLen, HasFlag(flags as int, HAS_IMAGE), img.imgLen, img.holeOff, img.bimg,
                      img.holeLen, rel, LE32(b', n - 4)),
                 3 + img.size + n)
  }

  datatype Headers = BadHeaders | Headers(metas: seq<Meta>, topXid: U32, mainLen: U32, rest: Bytes) {
    function Before(m: Meta): Headers {
      if BadHeaders? then this else this.(metas := [m] + metas)
    }
  }

  /** One header item: the end of the headers with the main-data length, an item that is passed over
      (an origin or a top-level xid), or a block header. */
  datatype Item = BadItem | Main(mainLen: U32, size: nat) | Passed(topXid: U32, size: nat)
    | BlockItem(meta: Meta, size: nat)

  function ReadItem(b: Bytes, last: RelId, topXid: U32): (r: Item)
    requires b != []
    ensures !r.BadItem? ==> 0 < r.size <= |b|
  {
    if b[0] == ID_DATA_SHORT then
      if 2 > |b| then BadItem else Main(b[1] as int, 2)
    else if b[0] == ID_DATA_LONG then
      if 5 > |b| then BadItem else Main(LE32(b, 1), 5)
    else if b[0] == ID_ORIGIN then
      if 3 > |b| then BadItem else Passed(topXid, 3)
    else if b[0] == ID_TOP_XID then
      if 5 > |b| then BadItem else Passed(LE32(b, 1), 5)
    else if b[0] > MAX_BLOCK_ID then BadItem
    else
      var h := ReadBlockHeader(b[1..], last);
      if h.BadHeader? then BadItem else BlockItem(h.meta, 1 + h.size)
  }

  /** Everything up to the payload. */
  function ReadHeaders(b: Bytes, last: RelId, topXid: U32): (r: Headers)
    decreases |b|
  {
    if b == [] then Headers([], topXid, 0, [])
    else
      match ReadItem(b, last, topXid)
      case BadItem => BadHeaders
      case Main(mainLen, size) => Headers([], topXid, mainLen, b[size..])
      case Passed(topXid', size) => ReadHeaders(b[size..], last, topXid')
      case BlockItem(meta, size) => ReadHeaders(b[size..], meta.rel, topXid).Before(meta)
  }

  function ImageSize(m: Meta): nat {
    if m.hasImage then m.imgLen else 0
  }

  function DataSize(m: Meta): nat {
    if HasFlag(m.flags as int, HAS_DATA) then m.dataLen else 0
  }

  datatype Payload = ShortPayload | Payload(blocks: seq<Block>, rest: Bytes) {
    function Before(b: Block): Payload {
      if ShortPayload? then this else this.(blocks := [b] + blocks)
    }
  }

  /** Images and data, block by block. */
  function ReadPayload(metas: seq<Meta>, rest: Bytes): (r: Payload)
    decreases |metas|
  {
    if metas == [] then Payload([], rest)
    else
      var m := metas[0];
      if ImageSize(m) + DataSize(m) > |rest| then ShortPayload
      else
        var img, rest' := rest[..ImageSize(m)], rest[ImageSize(m)..];
        ReadPayload(metas[1..], rest'[DataSize(m)..])
        .Before(Block(m.rel, m.blkno, rest'[..DataSize(m)], img, m.holeOff, m.holeLen, m.bimg))
  }

  function Split(body: Bytes): Parts {
    var h := ReadHeaders(body, NoRel, 0);
    if h.BadHeaders? then Malformed
    else
      var p := ReadPayload(h.metas, h.rest);
      if p.ShortPayload? || h.mainLen > |p.rest| then Malformed
      else Parts(p.blocks, p.rest[..h.mainLen], h.topXid)
  }

  // ---- The splitter as it runs: one offset moving over the body ----

  lemma Suffix32(b: Bytes, i: nat, k: nat)
    requires i + k + 4 <= |b|
    ensures LE32(b, i + k) == LE32(b[i..], k)
  {
  }

  lemma Suffix16(b: Bytes, i: nat, k: nat)
    requires i + k + 2 <= |b|
    ensures LE16(b, i + k) == LE16(b[i..], k)
  {
  }

  method SplitImageHeader(body: Bytes, start: nat) returns (img: Image)
    requires start <= |body|
    ensures img == ReadImage(body[start..])
  {
    var i := start;
    if i + 5 > |body| { return BadImage; }
    var imgLen, holeOff, bimg := LE16(body, i), LE16(body, i + 2), body[i + 4];
    Suffix16(body, i, 0);
    Suffix16(body, i, 2);
    i := i + 5;
    var holeLen: U16 := 0;
    if Compressed(bimg) && HasFlag(bimg as int, IMAGE_HAS_HOLE) {
      if i + 2 > |body| { return BadImage; }
      holeLen := LE16(body, i);
      Suffix16(body, start, 5);
      i := i + 2;
    } else if !Compressed(bimg) {
      if PAGE_SIZE >= imgLen { holeLen := PAGE_SIZE - imgLen; }
    }
    img := Image(imgLen, holeOff, bimg, holeLen, i - start);
  }

  /** The relation and block number: all four fields, or the block number alone after the same relation. */
  method SplitRelation(body: Bytes, i: nat, same: bool, last: RelId) returns (rel: RelId, blkno: U32, size: nat)
    requires i + (if same then 4 else 16) <= |body|
    ensures var b := body[i..];
            size == (if same then 4 else 16) && blkno == LE32(b, size - 4)
            && rel == if same then last else RelId(LE32(b, 0), LE32(b, 4), LE32(b, 8))
  {
    hide LE32;
    Suffix32(body, i, 0);
    if same { return last, LE32(body, i), 4; }
    Suffix32(body, i, 4);
    Suffix32(body, i, 8);
    Suffix32(body, i, 12);
    return RelId(LE32(body, i), LE32(body, i + 4), LE32(body, i + 8)), LE32(body, i + 12), 16;
  }

  method SplitBlockHeader(body: Bytes, start: nat, last: RelId) returns (h: Header)
    requires start <= |body|
    ensures h == ReadBlockHeader(body[start..], last)
  {
    hide LE16, LE32, ReadImage, HasFlag;
    var i := start;
    if i + 3 > |body| { return BadHeader; }
    var flags, dataLen := body[i], LE16(body, i + 1);
    Suffix16(body, i, 1);
    i := i + 3;
    var img := Image(0, 0, 0, 0, 0);
    if HasFlag(flags as int, HAS_IMAGE) {
      img := SplitImageHeader(body, i);
      assert body[start..][3..] == body[i..];
      if img.BadImage? { return BadHeader; }
      i := i + img.size;
    }
    assert body[start..][3 + img.size..] == body[i..];
    var same := HasFlag(flags as int, SAME_REL);
    if i + (if same then 4 else 16) > |body| { return BadHeader; }
    var rel, blkno, size := SplitRelation(body, i, same, last);
    i := i + size;
    h := Header(Meta(flags, dataLen, HasFlag(flags as int, HAS_IMAGE), img.imgLen, img.holeOff, img.bimg,
                     img.holeLen, rel, blkno), i - start);
  }

  function Prepend(metas: seq<Meta>, h: Headers): Headers {
    if h.BadHeaders? then h else h.(metas := metas + h.metas)
  }

  lemma PrependOne(metas: seq<Meta>, m: Meta, h: Headers)
    ensures Prepend(metas, h.Before(m)) == Prepend(metas + [m], h)
  {
    if h.Headers? {
      assert metas + ([m] + h.metas) == (metas + [m]) + h.metas;
    }
  }

  method SplitItem(body: Bytes, start: nat, last: RelId, topXid: U32) returns (item: Item)
    requires start < |body|
    ensures item == ReadItem(body[start..], last, topXid)
  {
    hide ReadBlockHeader, LE32;
    var id, i := body[start], start + 1;
    if id == ID_DATA_SHORT {
      if i >= |body| { return BadItem; }
      item := Main(body[i] as int, 2);
    } else if id == ID_DATA_LONG {
      if i + 4 > |body| { return BadItem; }
      Suffix32(body, start, 1);
      item := Main(LE32(body, i), 5);
    } else if id == ID_ORIGIN {
      if i + 2 > |body| { return BadItem; }
      item := Passed(topXid, 3);
    } else if id == ID_TOP_XID {
      if i + 4 > |body| { return BadItem; }
      Suffix32(body, start, 1);
      item := Passed(LE32(body, i), 5);
    } else if id > MAX_BLOCK_ID {
      item := BadItem;
    } else {
      var h := SplitBlockHeader(body, i, last);
      assert body[start..][1..] == body[i..];
      item := if h.BadHeader? then BadItem else BlockItem(h.meta, 1 + h.size);
    }
  }

  method SplitHeaders(body: Bytes) returns (h: Headers)
    ensures h == ReadHeaders(body, NoRel, 0)
  {
    hide ReadItem;
    var metas: seq<Meta>, last, topXid: U32, i := [], NoRel, 0, 0;
    assert body[0..] == body;
    while i < |body|
      invariant 0 <= i <= |body|
      invariant ReadHeaders(body, NoRel, 0) == Prepend(metas, ReadHeaders(body[i..], last, topXid))
    {
      var item := SplitItem(body, i, last, topXid);
      if item.BadItem? { return BadHeaders; }
      assert body[i..][item.size..] == body[i + item.size..];
      i := i + item.size;
      match item
      case Main(mainLen, _) => return Headers(metas, topXid, mainLen, body[i..]);
      case Passed(xid, _) => topXid := xid;
      case BlockItem(meta, _) =>
        PrependOne(metas, meta, ReadHeaders(body[i..], meta.rel, topXid));
        last, metas := meta.rel, metas + [meta];
    }
    h := Headers(metas, topXid, 0, []);
  }

  function PrependBlocks(blocks: seq<Block>, p: Payload): Payload {
    if p.ShortPayload? then p else p.(blocks := blocks + p.blocks)
  }

  lemma PrependOneBlock(blocks: seq<Block>, b: Block, p: Payload)
    ensures PrependBlocks(blocks, p.Before(b)) == PrependBlocks(blocks + [b], p)
  {
    if p.Payload? {
      assert blocks + ([b] + p.blocks) == (blocks + [b]) + p.blocks;
    }
  }

  method SplitPayload(metas: seq<Meta>, payload: Bytes) returns (p: Payload)
    ensures p == ReadPayload(metas, payload)
  {
    hide HasFlag;
    var blocks: seq<Block>, rest := [], payload;
    for k := 0 to |metas|
      invariant ReadPayload(metas, payload) == PrependBlocks(blocks, ReadPayload(metas[k..], rest))
    {
      ghost var before := rest;
      var m := metas[k];
      var b := Block(m.rel, m.blkno, [], [], m.holeOff, m.holeLen, m.bimg);
      if m.hasImage && m.imgLen > 0 {
        if m.imgLen > |rest| { return ShortPayload; }
        b := b.(image := rest[..m.imgLen]);
        rest := rest[m.imgLen..];
      }
      if HasFlag(m.flags as int, HAS_DATA) && m.dataLen > 0 {
        if m.dataLen > |rest| { return ShortPayload; }
        b := b.(data := rest[..m.dataLen]);
        rest := rest[m.dataLen..];
      }
      assert metas[k..][0] == m && metas[k..][1..] == metas[k + 1..];
      assert ReadPayload(metas[k..], before) == ReadPayload(metas[k + 1..], rest).Before(b);
      PrependOneBlock(blocks, b, ReadPayload(metas[k + 1..], rest));
      blocks := blocks + [b];
    }
    p := Payload(blocks, rest);
  }

  method SplitXLogBody(body: Bytes) returns (parts: Parts)
    ensures parts == Split(body)
  {
    var h := SplitHeaders(body);
    if h.BadHeaders? { return Malformed; }
    var p := SplitPayload(h.metas, h.rest);
    if p.ShortPayload? { return Malformed; }
    var main: Bytes := [];
    if h.mainLen > 0 {
      if h.mainLen > |p.rest| { return Malformed; }
      main := p.rest[..h.mainLen];
    }
    parts := Parts(p.blocks, main, h.topXid);
  }
}
