/** PGLZ decompression of page images and TOAST values (flashbackPGLZDecompress in flashback_fpw.go).
    The compressed form is a sequence of groups: a control byte whose bits say, lowest first, which of
    the next items are back-references, then the items. */
module Pglz {
  import opened Bytes
  import opened Options
  import opened Lists

  // ---- The decoder ----

  /** Appends `len` bytes, each a copy of the byte `off` back: with `off < len` it repeats itself. */
  function CopyBack(out: Bytes, off: nat, len: nat): (r: Bytes)
    requires 0 < off <= |out|
    ensures |r| == |out| + len
    decreases len
  {
    if len == 0 then out else CopyBack(out + [out[|out| - off]], off, len - 1)
  }

  function Clip(len: nat, out: Bytes, n: nat): nat
    requires |out| <= n
  {
    if |out| + len <= n then len else n - |out|
  }

  /** A back-reference at the front of `s`: its length, distance and written size. */
  datatype Reference = NoReference | Reference(len: nat, off: nat, size: nat)

  function ReadReference(s: Bytes): (r: Reference)
    ensures r.Reference? ==> 2 <= r.size <= |s| && r.len >= 3
  {
    if 2 > |s| then NoReference
    else
      var len := s[0] as int % 16 + 3;
      var off := s[0] as int / 16 * 256 + s[1] as int;
      if len < 18 then Reference(len, off, 2)
      else if 2 >= |s| then NoReference
      else Reference(len + s[2] as int, off, 3)
  }

  /** Decoding from input `s` with output `out` so far and `left` bits of the control byte unused;
      the result is the whole output of length `n`, if all input is used up at that length. */
  function Decode(ctrl: nat, left: nat, s: Bytes, out: Bytes, n: nat): (r: Option<Bytes>)
    requires |out| <= n
    ensures r.Some? ==> |r.value| == n
    decreases |s|
  {
    if s == [] || |out| >= n then
      if s == [] && |out| == n then Some(out) else None
    else if left == 0 then Decode(s[0] as int, 8, s[1..], out, n)
    else if ctrl % 2 == 1 then
      var ref := ReadReference(s);
      if ref.NoReference? || ref.off == 0 || ref.off > |out| then None
      else Decode(ctrl / 2, left - 1, s[ref.size..], CopyBack(out, ref.off, Clip(ref.len, out, n)), n)
    else Decode(ctrl / 2, left - 1, s[1..], out + [s[0]], n)
  }

  function Decompress(src: Bytes, n: nat): (r: Option<Bytes>) {
    if n == 0 then None else Decode(0, 0, src, [], n)
  }

  /** What a copy means: the output before it is kept, and every byte it adds equals the byte `off`
      before it, bytes added by the same copy included. */
  lemma {:induction false} CopyBackMeaning(out: Bytes, off: nat, len: nat)
    requires 0 < off <= |out|
    ensures
      var r := CopyBack(out, off, len);
      r[..|out|] == out && forall k :: |out| <= k < |out| + len ==> r[k] == r[k - off]
    decreases len
  {
    if len > 0 {
      var out' := out + [out[|out| - off]];
      CopyBackMeaning(out', off, len - 1);
      var r := CopyBack(out, off, len);
      assert r[..|out|] == r[..|out'|][..|out|];
      assert r[|out|] == r[..|out'|][|out|] && r[|out| - off] == r[..|out'|][|out| - off];
    }
  }

  // ---- The decoder as it runs, writing the destination in place ----

  method CopyMatch(dest: array<Byte>, start: nat, off: nat, len: nat) returns (dp: nat)
    requires 0 < off <= start <= dest.Length
    modifies dest
    ensures start <= dp <= dest.Length
    ensures dest[..dp] == CopyBack(old(dest[..start]), off, Clip(len, old(dest[..start]), dest.Length))
  {
    dp := start;
    var nlen := len;
    while nlen > 0 && dp < dest.Length
      invariant start <= dp <= dest.Length
      invariant CopyBack(dest[..dp], off, Clip(nlen, dest[..dp], dest.Length))
             == CopyBack(old(dest[..start]), off, Clip(len, old(dest[..start]), dest.Length))
    {
      ghost var before := dest[..dp];
      dest[dp] := dest[dp - off];
      dp := dp + 1;
      nlen := nlen - 1;
      assert dest[..dp] == before + [before[|before| - off]];
    }
  }

  /** The decoder's state is carried over between control bytes by the output and the input only. */
  lemma ControlByteDone(ctrl: nat, left: nat, s: Bytes, out: Bytes, n: nat)
    requires |out| <= n && (left == 0 || s == [] || |out| == n)
    ensures Decode(ctrl, left, s, out, n) == Decode(0, 0, s, out, n)
  {
  }

  method TakeReference(src: Bytes, start: nat) returns (ref: Reference)
    requires start < |src|
    ensures ref == ReadReference(src[start..])
    ensures ref.Reference? ==> start + ref.size <= |src| && src[start..][ref.size..] == src[start + ref.size..]
  {
    var sp := start;
    if sp + 2 > |src| { return NoReference; }
    var nlen := src[sp] as int % 16 + 3;
    var off := src[sp] as int / 16 * 256 + src[sp + 1] as int;
    sp := sp + 2;
    if nlen == 18 {
      if sp >= |src| { return NoReference; }
      nlen := nlen + src[sp] as int;
      sp := sp + 1;
    }
    ref := Reference(nlen, off, sp - start);
  }

  /** The literals and back-references under one control byte. */
  method TakeGroup(src: Bytes, first: nat, control: nat, dest: array<Byte>, filled: nat)
        returns (ok: bool, sp: nat, dp: nat)
    requires first <= |src| && filled <= dest.Length
    modifies dest
    ensures first <= sp <= |src| && dp <= dest.Length
    ensures var result := Decode(control, 8, src[first..], old(dest[..filled]), dest.Length);
            if ok then Decode(0, 0, src[sp..], dest[..dp], dest.Length) == result else result.None?
  {
    hide ReadReference, CopyBack, Clip;
    sp, dp := first, filled;
    var ctrl, bit, n := control, 0, dest.Length;
    ghost var result := Decode(control, 8, src[first..], dest[..filled], n);
    while bit < 8 && sp < |src| && dp < n
      invariant 0 <= bit <= 8 && first <= sp <= |src| && 0 <= dp <= n
      invariant Decode(ctrl, 8 - bit, src[sp..], dest[..dp], n) == result
      decreases 8 - bit
    {
      ghost var out := dest[..dp];
      if ctrl % 2 == 1 {
        var ref := TakeReference(src, sp);
        if ref.NoReference? || ref.off <= 0 || ref.off > dp { return false, sp, dp; }
        sp := sp + ref.size;
        dp := CopyMatch(dest, dp, ref.off, ref.len);
      } else {
        dest[dp] := src[sp];
        assert src[sp..][1..] == src[sp + 1..];
        dp, sp := dp + 1, sp + 1;
        assert dest[..dp] == out + [src[sp - 1]];
      }
      ctrl, bit := ctrl / 2, bit + 1;
    }
    ControlByteDone(ctrl, 8 - bit, src[sp..], dest[..dp], n);
    ok := true;
  }

  method DecompressInto(src: Bytes, dest: array<Byte>) returns (ok: bool)
    modifies dest
    ensures ok <==> Decompress(src, dest.Length).Some?
    ensures ok ==> dest[..] == Decompress(src, dest.Length).value
  {
    hide ReadReference, CopyBack, Clip;
    if dest.Length == 0 { return false; }
    var sp, dp, n := 0, 0, dest.Length;
    ghost var result := Decompress(src, n);
    assert src[0..] == src && dest[..0] == [];
    while sp < |src| && dp < n
      invariant 0 <= sp <= |src| && 0 <= dp <= n
      invariant Decode(0, 0, src[sp..], dest[..dp], n) == result
      decreases |src| - sp
    {
      assert src[sp..][1..] == src[sp + 1..];
      var more;
      more, sp, dp := TakeGroup(src, sp + 1, src[sp] as int, dest, dp);
      if !more { return false; }
    }
    ok := dp == n && sp == |src|;
    assert dest[..n] == dest[..];
  }

  // ---- The compressed form ----

  /** A literal byte, or a back-reference `off` back for `len` bytes. */
  datatype Item = Literal(b: Byte) | Match(off: nat, len: nat) {
    predicate Valid() {
      Match? ==> 0 < off < 0x1000 && 3 <= len <= 273
    }

    function Write(): (s: Bytes)
      requires Valid()
      ensures s != []
    {
      match this
      case Literal(b) => [b]
      case Match(off, len) =>
        if len < 18 then [(off / 256 * 16 + len - 3) as Byte, (off % 256) as Byte]
        else [(off / 256 * 16 + 15) as Byte, (off % 256) as Byte, (len - 18) as Byte]
    }
  }

  predicate ValidItems(items: seq<Item>) {
    forall i :: 0 <= i < |items| ==> items[i].Valid()
  }

  function WriteItems(items: seq<Item>): Bytes
    requires ValidItems(items)
  {
    if items == [] then [] else items[0].Write() + WriteItems(items[1..])
  }

  /** The low bits of a control byte name the back-references among the items that follow. */
  predicate Marks(ctrl: nat, items: seq<Item>)
    decreases |items|
  {
    items == [] || ((ctrl % 2 == 1 <==> items[0].Match?) && Marks(ctrl / 2, items[1..]))
  }

  datatype Group = Group(ctrl: Byte, items: seq<Item>)

  /** Up to eight items to a group; only the last group may have fewer. */
  predicate ValidGroups(groups: seq<Group>)
    decreases |groups|
  {
    groups == [] ||
    (var g := groups[0];
     && 0 < |g.items| <= 8 && (|g.items| < 8 ==> |groups| == 1)
     && ValidItems(g.items) && Marks(g.ctrl as int, g.items) && ValidGroups(groups[1..]))
  }

  function WriteGroups(groups: seq<Group>): Bytes
    requires ValidGroups(groups)
    decreases |groups|
  {
    if groups == [] then []
    else [groups[0].ctrl] + (WriteItems(groups[0].items) + WriteGroups(groups[1..]))
  }

  function Items(groups: seq<Group>): seq<Item> {
    if groups == [] then [] else groups[0].items + Items(groups[1..])
  }

  /** Playing items onto the output, cut at `n` bytes; an item that starts at `n` or refers back
      before the start of the output cannot be played. */
  function Play(items: seq<Item>, out: Bytes, n: nat): (r: Option<Bytes>)
    requires |out| <= n
    ensures r.Some? ==> |r.value| <= n
    decreases |items|
  {
    if items == [] then Some(out)
    else if |out| == n then None
    else
      match items[0]
      case Literal(b) => Play(items[1..], out + [b], n)
      case Match(off, len) =>
        if off == 0 || off > |out| then None
        else Play(items[1..], CopyBack(out, off, Clip(len, out, n)), n)
  }

  // ---- The decoder accepts exactly the compressed forms of its output ----

  lemma ReferenceWritten(i: Item, rest: Bytes)
    requires i.Valid() && i.Match?
    ensures ReadReference(i.Write() + rest) == Reference(i.len, i.off, |i.Write()|)
    ensures (i.Write() + rest)[|i.Write()|..] == rest
  {
  }

  lemma ReferenceRead(s: Bytes)
    requires var r := ReadReference(s); r.Reference? && r.off > 0
    ensures
      var r := ReadReference(s);
      var i := Match(r.off, r.len);
      i.Valid() && s == i.Write() + s[r.size..]
  {
    var r := ReadReference(s);
    var i := Match(r.off, r.len);
    assert i.Write() == s[..r.size];
  }

  function PlayOne(i: Item, out: Bytes, n: nat): (r: Bytes)
    requires |out| < n && (i.Match? ==> 0 < i.off <= |out|)
    ensures |r| <= n
  {
    match i
    case Literal(b) => out + [b]
    case Match(off, len) => CopyBack(out, off, Clip(len, out, n))
  }

  /** What a decoding step does with the item at the front of its input, and what playing does. */
  lemma DecodeItem(ctrl: nat, left: nat, i: Item, rest: Bytes, out: Bytes, n: nat)
    requires i.Valid() && (ctrl % 2 == 1 <==> i.Match?) && left > 0 && |out| < n
    requires i.Match? ==> i.off <= |out|
    ensures Decode(ctrl, left, i.Write() + rest, out, n) == Decode(ctrl / 2, left - 1, rest, PlayOne(i, out, n), n)
  {
    var s := i.Write() + rest;
    if i.Match? {
      ReferenceWritten(i, rest);
      hide CopyBack, ReadReference, Item.Write;
    } else {
      assert s[1..] == rest;
    }
  }

  lemma PlayItem(i: Item, items: seq<Item>, out: Bytes, n: nat)
    requires i.Valid() && |out| <= n && Play([i] + items, out, n).Some?
    ensures |out| < n && (i.Match? ==> 0 < i.off <= |out|)
    ensures Play([i] + items, out, n) == Play(items, PlayOne(i, out, n), n)
  {
    assert ([i] + items)[1..] == items;
    hide CopyBack, Clip;
  }

  lemma FormStep(i: Item, items: seq<Item>, groups: seq<Group>)
    requires i.Valid() && ValidItems(items) && ValidGroups(groups)
    ensures ValidItems([i] + items)
    ensures WriteItems([i] + items) + WriteGroups(groups) == i.Write() + (WriteItems(items) + WriteGroups(groups))
    ensures ([i] + items) + Items(groups) == [i] + (items + Items(groups))
  {
    assert ([i] + items)[1..] == items;
    hide WriteGroups, Items, Item.Write, Item.Valid;
    Regroup(i.Write(), WriteItems(items), WriteGroups(groups));
    Regroup([i], items, Items(groups));
  }

  /** The control byte of the next group is taken up when the bits of the last one are used. */
  lemma GroupStart(ctrl: nat, groups: seq<Group>, out: Bytes, n: nat)
    requires ValidGroups(groups) && groups != [] && |out| <= n && Play(Items(groups), out, n).Some?
    ensures
      var g := groups[0];
      && ValidItems(g.items) && Marks(g.ctrl as int, g.items) && ValidGroups(groups[1..])
      && |g.items| <= 8 && (|g.items| == 8 || groups[1..] == [])
      && Items(groups) == g.items + Items(groups[1..])
      && Decode(ctrl, 0, WriteGroups(groups), out, n)
         == Decode(g.ctrl as int, 8, WriteItems(g.items) + WriteGroups(groups[1..]), out, n)
  {
    var g := groups[0];
    assert |Items(groups)| > 0;
    assert WriteGroups(groups)[1..] == WriteItems(g.items) + WriteGroups(groups[1..]);
    hide WriteItems, CopyBack, Clip, ReadReference;
  }

  lemma FirstItem(ctrl: nat, items: seq<Item>)
    requires ValidItems(items) && Marks(ctrl, items) && items != []
    ensures items[0].Valid() && ValidItems(items[1..]) && items == [items[0]] + items[1..]
    ensures (ctrl % 2 == 1 <==> items[0].Match?) && Marks(ctrl / 2, items[1..])
  {
    hide Item.Valid;
  }

  lemma NoItems(groups: seq<Group>)
    requires ValidGroups(groups)
    ensures ValidItems([]) && [] + Items(groups) == Items(groups)
    ensures WriteItems([]) + WriteGroups(groups) == WriteGroups(groups)
  {
    hide Items, WriteGroups;
  }

  lemma DecodeNothing(ctrl: nat, left: nat, out: Bytes, n: nat)
    requires |out| <= n && Play(Items([]), out, n).Some? && |Play(Items([]), out, n).value| == n
    ensures Decode(ctrl, left, WriteGroups([]), out, n) == Play(Items([]), out, n)
  {
  }

  lemma {:induction false} DecodeCompressed(ctrl: nat, left: nat, items: seq<Item>, groups: seq<Group>, out: Bytes,
        n: nat)
    requires ValidItems(items) && Marks(ctrl, items) && ValidGroups(groups)
    requires |items| <= left && (|items| == left || groups == []) && |out| <= n
    requires var p := Play(items + Items(groups), out, n); p.Some? && |p.value| == n
    ensures Decode(ctrl, left, WriteItems(items) + WriteGroups(groups), out, n) == Play(items + Items(groups), out, n)
    decreases |groups|, |items|
  {
    hide *;
    if items == [] {
      NoItems(groups);
      if groups == [] {
        DecodeNothing(ctrl, left, out, n);
      } else {
        GroupStart(ctrl, groups, out, n);
        DecodeCompressed(groups[0].ctrl as int, 8, groups[0].items, groups[1..], out, n);
      }
    } else {
      var i := items[0];
      FirstItem(ctrl, items);
      FormStep(i, items[1..], groups);
      PlayItem(i, items[1..] + Items(groups), out, n);
      DecodeItem(ctrl, left, i, WriteItems(items[1..]) + WriteGroups(groups), out, n);
      DecodeCompressed(ctrl / 2, left - 1, items[1..], groups, PlayOne(i, out, n), n);
    }
  }

  /** The items and groups an accepted input consists of. */
  lemma {:induction false} DecodedForm(ctrl: nat, left: nat, s: Bytes, out: Bytes, n: nat)
    returns (items: seq<Item>, groups: seq<Group>)
    requires |out| <= n && left <= 8 && Decode(ctrl, left, s, out, n).Some?
    ensures ValidItems(items) && Marks(ctrl, items) && ValidGroups(groups)
    ensures |items| <= left && (|items| == left || groups == [])
    ensures s != [] && |out| < n && left > 0 ==> items != []
    ensures s == WriteItems(items) + WriteGroups(groups)
    ensures Play(items + Items(groups), out, n) == Decode(ctrl, left, s, out, n)
    decreases |s|
  {
    if s == [] || |out| >= n {
      items, groups := [], [];
    } else if left == 0 {
      var its, gs := DecodedForm(s[0] as int, 8, s[1..], out, n);
      items, groups := [], [Group(s[0], its)] + gs;
      assert groups[1..] == gs;
      assert items + Items(groups) == its + Items(gs);
    } else {
      var i := if ctrl % 2 == 1 then var ref := ReadReference(s); Match(ref.off, ref.len) else Literal(s[0]);
      if i.Match? {
        ReferenceRead(s);
      } else {
        assert s == i.Write() + s[1..];
      }
      var rest := s[|i.Write()|..];
      assert i.Valid() && s == i.Write() + rest && (i.Match? ==> i.off <= |out|);
      hide *;
      DecodeItem(ctrl, left, i, rest, out, n);
      var its, gs := DecodedForm(ctrl / 2, left - 1, rest, PlayOne(i, out, n), n);
      items, groups := [i] + its, gs;
      FormStep(i, its, gs);
      FormMarks(ctrl, i, its);
      PlayOn(i, its + Items(gs), out, n);
    }
  }

  lemma FormMarks(ctrl: nat, i: Item, items: seq<Item>)
    requires (ctrl % 2 == 1 <==> i.Match?) && Marks(ctrl / 2, items)
    ensures Marks(ctrl, [i] + items)
  {
    assert ([i] + items)[1..] == items;
  }

  lemma PlayOn(i: Item, items: seq<Item>, out: Bytes, n: nat)
    requires i.Valid() && |out| < n && (i.Match? ==> i.off <= |out|)
    ensures Play([i] + items, out, n) == Play(items, PlayOne(i, out, n), n)
  {
    assert ([i] + items)[1..] == items;
    hide CopyBack, Clip;
  }

  /** Decompression succeeds with `out` exactly when the input is the compressed form of some items
      that play to `out`: all input is used, and every output byte is a literal or copied back. */
  lemma DecompressIff(src: Bytes, n: nat, out: Bytes)
    ensures Decompress(src, n) == Some(out)
       <==> n > 0 && |out| == n
            && exists groups: seq<Group> :: Compresses(groups, src, out)
  {
    if Decompress(src, n) == Some(out) {
      var items, groups := DecodedForm(0, 0, src, [], n);
      assert items == [];
      assert items + Items(groups) == Items(groups) && WriteItems(items) + WriteGroups(groups) == WriteGroups(groups);
      assert Compresses(groups, src, out);
    }
    if n > 0 && |out| == n && exists groups: seq<Group> :: Compresses(groups, src, out) {
      var groups: seq<Group> :| Compresses(groups, src, out);
      assert [] + Items(groups) == Items(groups);
      DecodeCompressed(0, 0, [], groups, [], n);
      assert WriteItems([]) + WriteGroups(groups) == WriteGroups(groups);
    }
  }

  ghost predicate Compresses(groups: seq<Group>, src: Bytes, out: Bytes) {
    ValidGroups(groups) && src == WriteGroups(groups) && Play(Items(groups), [], |out|) == Some(out)
  }

  // ---- Round trip ----

  /** Playing items with no limit on the output. */
  function Expand(items: seq<Item>, out: Bytes): (r: Option<Bytes>)
    requires ValidItems(items)
    ensures r.Some? ==> |r.value| >= |out| + |items|
    decreases |items|
  {
    if items == [] then Some(out)
    else
      match items[0]
      case Literal(b) => Expand(items[1..], out + [b])
      case Match(off, len) => if off > |out| then None else Expand(items[1..], CopyBack(out, off, len))
  }

  lemma {:induction false} PlayIsExpand(items: seq<Item>, out: Bytes, n: nat)
    requires ValidItems(items) && Expand(items, out).Some? && n == |Expand(items, out).value|
    ensures Play(items, out, n) == Expand(items, out)
    decreases |items|
  {
    hide CopyBack;
    if items != [] {
      var i := items[0];
      assert i.Valid() && ValidItems(items[1..]);
      PlayIsExpand(items[1..], match i case Literal(b) => out + [b] case Match(off, len) => CopyBack(out, off, len), n);
    }
  }

  function Pow2(k: nat): nat {
    if k == 0 then 1 else 2 * Pow2(k - 1)
  }

  function Control(items: seq<Item>): (c: nat)
    ensures c < Pow2(|items|)
  {
    if items == [] then 0 else (if items[0].Match? then 1 else 0) + 2 * Control(items[1..])
  }

  lemma {:induction false} ControlMarks(items: seq<Item>)
    ensures Marks(Control(items), items)
    decreases |items|
  {
    if items != [] {
      ControlMarks(items[1..]);
    }
  }

  lemma {:induction false} Pow2Grows(j: nat, k: nat)
    requires j <= k
    ensures Pow2(j) <= Pow2(k)
    decreases k
  {
    if j < k {
      Pow2Grows(j, k - 1);
    }
  }

  function MakeGroup(items: seq<Item>): (g: Group)
    requires |items| <= 8
    ensures Marks(g.ctrl as int, g.items)
  {
    Pow2Grows(|items|, 8);
    assert Pow2(8) == 256 by { assert Pow2(2) == 4 && Pow2(4) == 16 && Pow2(6) == 64; }
    ControlMarks(items);
    Group(Control(items) as Byte, items)
  }

  /** An encoder's packing: eight items to a group. */
  function Pack(items: seq<Item>): (groups: seq<Group>)
    requires ValidItems(items)
    ensures ValidGroups(groups) && Items(groups) == items
  {
    if items == [] then []
    else if |items| <= 8 then [MakeGroup(items)]
    else
      assert items[..8] + items[8..] == items;
      [MakeGroup(items[..8])] + Pack(items[8..])
  }

  /** Decoding undoes encoding, for every item list, overlapping back-references included. */
  lemma RoundTrip(items: seq<Item>)
    requires ValidItems(items) && items != [] && Expand(items, []).Some?
    ensures
      var out := Expand(items, []).value;
      Decompress(WriteGroups(Pack(items)), |out|) == Some(out)
  {
    var out := Expand(items, []).value;
    PlayIsExpand(items, [], |out|);
    assert Compresses(Pack(items), WriteGroups(Pack(items)), out);
    DecompressIff(WriteGroups(Pack(items)), |out|, out);
  }
}
