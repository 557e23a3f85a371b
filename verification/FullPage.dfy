/** Restoring full page images from block references (flashbackRebuildFPW and flashbackInsertPageHole). */
module FullPage {
  import opened Bytes
  import opened Options
  import opened XLogBody
  import opened XLogAssembly
  import Pglz

  /** `s` cut or zero-filled to `n` bytes: what copying `s` over a zeroed buffer leaves. */
  function Fit(s: Bytes, n: nat): (r: Bytes)
    ensures |r| == n
  {
    if |s| >= n then s[..n] else s + Zeros(n - |s|)
  }

  /** The page with its hole put back; nothing if the hole does not lie within page and image. */
  function WithHole(packed: Bytes, holeOff: int, holeLen: int): (page: Option<Bytes>)
    ensures page.Some? ==> |page.value| == PAGE_SIZE
  {
    if holeLen <= 0 then Some(Fit(packed, PAGE_SIZE))
    else if holeOff < 0 || holeOff + holeLen > PAGE_SIZE || holeOff > |packed| then None
    else Some(packed[..holeOff] + Zeros(holeLen) + Fit(packed[holeOff..], PAGE_SIZE - holeOff - holeLen))
  }

  /** Go's copy: as much of `src` as fits from index `at` on. */
  function Copied(dest: Bytes, at: nat, src: Bytes): (r: Bytes)
    requires at <= |dest|
    ensures |r| == |dest|
  {
    var n := if |src| < |dest| - at then |src| else |dest| - at;
    dest[..at] + src[..n] + dest[at + n..]
  }

  method CopyAt(dest: array<Byte>, at: nat, src: Bytes)
    requires at <= dest.Length
    modifies dest
    ensures dest[..] == Copied(old(dest[..]), at, src)
  {
    var n := if |src| < dest.Length - at then |src| else dest.Length - at;
    forall i | 0 <= i < n {
      dest[at + i] := src[i];
    }
    assert forall i :: 0 <= i < n ==> dest[at + i] == src[i];
    assert forall i :: at <= i < at + n ==> dest[i] == src[i - at];
  }

  lemma CopiedOnZeros(src: Bytes, n: nat)
    requires |src| <= n
    ensures Copied(Zeros(n), 0, src) == src + Zeros(n - |src|) == Fit(src, n)
  {
    assert Zeros(n)[|src|..] == Zeros(n - |src|);
  }

  lemma CopiedBehind(front: Bytes, hole: nat, n: nat, src: Bytes)
    requires |front| + hole <= n
    ensures Copied(front + Zeros(n - |front|), |front| + hole, src)
            == front + Zeros(hole) + Fit(src, n - |front| - hole)
  {
    var at := |front| + hole;
    var dest := front + Zeros(n - |front|);
    assert dest[..at] == front + Zeros(hole);
    TailCopied(dest, at, src);
  }

  method InsertPageHole(packed: Bytes, holeOff: int, holeLen: int) returns (page: Option<Bytes>)
    ensures page == WithHole(packed, holeOff, holeLen)
  {
    hide Copied;
    if holeLen <= 0 {
      if |packed| >= PAGE_SIZE { return Some(packed[..PAGE_SIZE]); }
      var buf := new Byte[PAGE_SIZE](_ => 0);
      assert buf[..] == Zeros(PAGE_SIZE);
      CopyAt(buf, 0, packed);
      CopiedOnZeros(packed, PAGE_SIZE);
      return Some(buf[..]);
    }
    if holeOff < 0 || holeLen < 0 || holeOff + holeLen > PAGE_SIZE { return None; }
    if holeOff > |packed| { return None; }
    var filled := FillAround(packed, holeOff, holeLen);
    page := Some(filled);
  }

  method FillAround(packed: Bytes, holeOff: nat, holeLen: nat) returns (page: Bytes)
    requires holeOff + holeLen <= PAGE_SIZE && holeOff <= |packed|
    ensures page == packed[..holeOff] + Zeros(holeLen) + Fit(packed[holeOff..], PAGE_SIZE - holeOff - holeLen)
  {
    hide Fit, Zeros, Copied;
    var front := packed[..holeOff];
    var buf := new Byte[PAGE_SIZE](_ => 0);
    assert buf[..] == Zeros(PAGE_SIZE);
    CopyAt(buf, 0, front);
    CopiedOnZeros(front, PAGE_SIZE);
    CopyAt(buf, holeOff + holeLen, packed[holeOff..]);
    CopiedBehind(front, holeLen, PAGE_SIZE, packed[holeOff..]);
    page := buf[..];
  }

  lemma TailCopied(before: Bytes, at: nat, src: Bytes)
    requires at <= |before| && forall i :: at <= i < |before| ==> before[i] == 0
    ensures
      var n := if |src| < |before| - at then |src| else |before| - at;
      before[..at] + src[..n] + before[at + n..] == before[..at] + Fit(src, |before| - at)
  {
  }

  /** Decoders of other libraries (LZ4, ZSTD), as functions of input and wanted length. */
  datatype Foreign = Foreign(lz4: (Bytes, nat) -> Option<Bytes>, zstd: (Bytes, nat) -> Option<Bytes>)

  function Unpack(foreign: Foreign, bimg: Byte, src: Bytes, n: nat): Option<Bytes> {
    if src == [] || n == 0 then None
    else if HasFlag(bimg as int, IMAGE_PGLZ) then Pglz.Decompress(src, n)
    else if HasFlag(bimg as int, IMAGE_LZ4) then foreign.lz4(src, n)
    else if HasFlag(bimg as int, IMAGE_ZSTD) then foreign.zstd(src, n)
    else None
  }

  /** The page a block reference carries, if it carries one that can be rebuilt. */
  function Rebuild(foreign: Foreign, b: Block): (page: Option<Bytes>)
    ensures page.Some? ==> |page.value| == PAGE_SIZE
  {
    if b.image == [] then None
    else if Compressed(b.bimg) then
      var want := PAGE_SIZE - b.holeLen;
      if want <= 0 then None
      else
        var raw := Unpack(foreign, b.bimg, b.image, want);
        if raw.None? || |raw.value| != want then None else WithHole(raw.value, b.holeOff, b.holeLen)
    else WithHole(b.image, b.holeOff, b.holeLen)
  }

  // ---- Taking the hole out ----

  /** A page whose bytes in [off, off + len) are all zero. */
  predicate HasHole(page: Bytes, off: nat, len: nat) {
    && |page| == PAGE_SIZE && off + len <= PAGE_SIZE && len < PAGE_SIZE
    && page[off..off + len] == Zeros(len)
  }

  function WithoutHole(page: Bytes, off: nat, len: nat): Bytes
    requires HasHole(page, off, len)
  {
    page[..off] + page[off + len..]
  }

  /** An image that PostgreSQL writes for `page`: the page without its hole, plain, PGLZ-encoded, or encoded
      for one of the other decoders, which gives it back. */
  ghost predicate ImageOf(foreign: Foreign, i: ImageRef, page: Bytes) {
    && i.Valid() && HasHole(page, i.holeOff, i.holeLen)
    && var packed := WithoutHole(page, i.holeOff, i.holeLen);
       match i.Packing()
       case 0 => i.bytes == packed
       case 1 => EncodedAs(i.bytes, packed)
       case 2 => i.bytes != [] && foreign.lz4(i.bytes, |packed|) == Some(packed)
       case 4 => i.bytes != [] && foreign.zstd(i.bytes, |packed|) == Some(packed)
       case _ => false
  }

  ghost predicate EncodedAs(src: Bytes, out: Bytes) {
    exists groups: seq<Pglz.Group> :: Pglz.Compresses(groups, src, out)
  }

  lemma HoleBack(page: Bytes, off: nat, len: nat)
    requires HasHole(page, off, len)
    ensures WithHole(WithoutHole(page, off, len), off, len) == Some(page)
  {
    var packed := WithoutHole(page, off, len);
    assert packed[..off] == page[..off] && packed[off..] == page[off + len..];
    assert page == page[..off] + page[off..off + len] + page[off + len..];
    if len == 0 {
      assert packed == page && page[..PAGE_SIZE] == page;
    } else {
      assert Fit(packed[off..], PAGE_SIZE - off - len) == page[off + len..];
    }
  }

  /** Rebuilding gives the page back, whatever the other decoders do. */
  lemma RebuildsPage(foreign: Foreign, r: Ref, page: Bytes)
    requires r.Valid() && r.image.Some? && ImageOf(foreign, r.image.value, page)
    ensures Rebuild(foreign, r.ToBlock()) == Some(page)
  {
    var i, b := r.image.value, r.ToBlock();
    var packed := WithoutHole(page, i.holeOff, i.holeLen);
    HoleBack(page, i.holeOff, i.holeLen);
    PackingIs(i);
    PackingBits(i);
    if i.Packing() == 1 {
      Pglz.DecompressIff(i.bytes, |packed|, packed);
      assert b.image != [] by { EncodingNotEmpty(i.bytes, packed); }
    }
  }

  lemma PackingBits(i: ImageRef)
    ensures HasFlag(i.bimg as int, IMAGE_PGLZ) <==> i.Packing() % 2 == 1
    ensures HasFlag(i.bimg as int, IMAGE_LZ4) <==> i.Packing() / 2 % 2 == 1
    ensures HasFlag(i.bimg as int, IMAGE_ZSTD) <==> i.Packing() / 4 == 1
  {
    var q := i.bimg as int / 4;
    assert i.bimg as int / 8 == q / 2 && i.bimg as int / 16 == q / 4;
    LowBits(q);
  }

  lemma EncodingNotEmpty(src: Bytes, out: Bytes)
    requires EncodedAs(src, out) && out != []
    ensures src != []
  {
    Pglz.DecompressIff(src, |out|, out);
  }

  lemma {:induction false} BlocksAt(refs: seq<Ref>, k: nat)
    requires k < |refs|
    ensures k < |Blocks(refs)| && Blocks(refs)[k] == refs[k].ToBlock()
    decreases k
  {
    if k > 0 {
      BlocksAt(refs[1..], k - 1);
    }
  }

  /** Full page restore: a page written into a record as the image of block `k`, hole removed and
      encoded or not, is the page rebuilt from block `k` of the split record. */
  lemma PageRestored(foreign: Foreign, b: Body, k: nat, page: Bytes)
    requires b.Valid() && !b.main.Omitted? && k < |b.refs|
    requires b.refs[k].image.Some? && ImageOf(foreign, b.refs[k].image.value, page)
    ensures
      var p := Split(Assemble(b));
      p.Parts? && k < |p.blocks| && Rebuild(foreign, p.blocks[k]) == Some(page)
  {
    hide *;
    assert b.refs[k].Valid() by { RefValid(b, k); }
    SplitAssembled(b);
    BlocksAt(b.refs, k);
    RebuildsPage(foreign, b.refs[k], page);
  }

  lemma RefValid(b: Body, k: nat)
    requires b.Valid() && k < |b.refs|
    ensures b.refs[k].Valid()
  {
  }
}
