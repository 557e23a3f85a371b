/** The pages kept of blocks, told by relation and block number instead of by the cache's packed key
    (flashbackFPWKey in flashback_walparse.go). */
module KeptPages {
  import opened Bytes
  import opened Options
  import opened Changes
  import opened Tuples
  import opened XLogBody
  import opened FullPage
  import opened PageCache
  import opened HeapRecords

  /** A block of a file node. */
  datatype Place = Place(rel: U32, block: U32)

  function KeyOf(p: Place): nat {
    PageKey(p.rel, p.block)
  }

  /** Two blocks have two keys. */
  lemma KeysDiffer(p: Place, q: Place)
    ensures KeyOf(p) == KeyOf(q) <==> p == q
  {
  }

  // ---- The images a log brings ----

  function ImageAt(d: Dict, b: Block): seq<StoreCall<Place>> {
    if (b.rel.rel !in d.tables && b.rel.rel !in d.otherNodes) || Rebuild(d.foreign, b).None? then []
    else [StoreCall(Place(b.rel.rel, b.blkno), Rebuild(d.foreign, b).value)]
  }

  function ImagesAt(d: Dict, blocks: seq<Block>): seq<StoreCall<Place>> {
    if blocks == [] then [] else ImagesAt(d, blocks[..|blocks| - 1]) + ImageAt(d, blocks[|blocks| - 1])
  }

  /** Records of the resource managers 0, 9 and 10 (XLOG and the two of heaps) bring page images, but for
      truncations. */
  predicate BringsImages(rec: Bytes) {
    |rec| >= RECORD_HEADER && rec[17] in {0, 9, 10} && !(rec[17] == 10 && rec[16] as int / 16 % 8 == 3)
  }

  lemma BringsIff(rec: Bytes)
    ensures BringsImages(rec) <==> HasBlocks(rec)
  {
  }

  function ImagesOf(d: Dict, rec: Bytes): seq<StoreCall<Place>> {
    if !BringsImages(rec) then []
    else
      var p := Split(rec[RECORD_HEADER..]);
      if p.Malformed? then [] else ImagesAt(d, p.blocks)
  }

  function AllImages(d: Dict, recs: seq<Bytes>): seq<StoreCall<Place>> {
    if recs == [] then [] else AllImages(d, recs[..|recs| - 1]) + ImagesOf(d, recs[|recs| - 1])
  }

  /** The page kept of a block: its last image, while the block is among those whose pages were taken in last. */
  function Kept(d: Dict, images: seq<StoreCall<Place>>, p: Place): Option<Bytes> {
    if p in Newest(Admissions(d.maxPages, images), d.maxPages) then LastPage(images, p) else None
  }

  // ---- The cache holds just that ----

  function Keyed(images: seq<StoreCall<Place>>): (calls: seq<StoreCall<nat>>)
    ensures |calls| == |images|
  {
    if images == [] then []
    else
      var c := images[|images| - 1];
      Keyed(images[..|images| - 1]) + [StoreCall(KeyOf(c.key), c.page)]
  }

  lemma {:induction false} KeyedAppend(a: seq<StoreCall<Place>>, b: seq<StoreCall<Place>>)
    ensures Keyed(a + b) == Keyed(a) + Keyed(b)
    decreases |b|
  {
    hide KeyOf;
    if b == [] {
      assert a + b == a;
    } else {
      KeyedAppend(a, b[..|b| - 1]);
      assert (a + b)[..|a + b| - 1] == a + b[..|b| - 1];
    }
  }

  lemma {:induction false} KeyedImages(d: Dict, blocks: seq<Block>)
    ensures Images(d, blocks) == Keyed(ImagesAt(d, blocks))
    decreases |blocks|
  {
    hide Rebuild;
    if blocks != [] {
      var front, b := blocks[..|blocks| - 1], blocks[|blocks| - 1];
      KeyedImages(d, front);
      KeyedAppend(ImagesAt(d, front), ImageAt(d, b));
      if ImageAt(d, b) != [] { assert ImageAt(d, b)[..0] == []; }
    }
  }

  lemma {:induction false} StoresAreKeyed(d: Dict, recs: seq<Bytes>)
    ensures AllStores(d, recs) == Keyed(AllImages(d, recs))
    decreases |recs|
  {
    hide Images, ImagesAt, Split;
    if recs != [] {
      var front, rec := recs[..|recs| - 1], recs[|recs| - 1];
      StoresAreKeyed(d, front);
      BringsIff(rec);
      KeyedAppend(AllImages(d, front), ImagesOf(d, rec));
      if HasBlocks(rec) && Split(rec[RECORD_HEADER..]).Parts? { KeyedImages(d, Split(rec[RECORD_HEADER..]).blocks); }
    }
  }

  lemma {:induction false} KeyedLast(images: seq<StoreCall<Place>>, p: Place)
    ensures LastPage(Keyed(images), KeyOf(p)) == LastPage(images, p)
    decreases |images|
  {
    hide KeyOf;
    if images != [] {
      KeysDiffer(images[|images| - 1].key, p);
      KeyedLast(images[..|images| - 1], p);
    }
  }

  function KeysOf(places: seq<Place>): (keys: seq<nat>)
    ensures |keys| == |places|
    ensures forall i :: 0 <= i < |places| ==> keys[i] == KeyOf(places[i])
  {
    seq(|places|, i requires 0 <= i < |places| => KeyOf(places[i]))
  }

  lemma KeysIn(places: seq<Place>, p: Place)
    ensures KeyOf(p) in KeysOf(places) <==> p in places
  {
    hide KeyOf;
    if p in places { var i :| 0 <= i < |places| && places[i] == p; assert KeysOf(places)[i] == KeyOf(p); }
    if KeyOf(p) in KeysOf(places) {
      var i :| 0 <= i < |places| && KeysOf(places)[i] == KeyOf(p);
      KeysDiffer(places[i], p);
    }
  }

  lemma KeysNewest(places: seq<Place>, n: nat)
    ensures Newest(KeysOf(places), n) == KeysOf(Newest(places, n))
  {
    hide KeyOf;
  }

  lemma {:induction false} KeyedAdmissions(max: nat, images: seq<StoreCall<Place>>)
    requires max > 0
    ensures Admissions(max, Keyed(images)) == KeysOf(Admissions(max, images))
    ensures forall p :: KeyOf(p) in After(max, Keyed(images)).data <==> p in After(max, images).data
    decreases |images|
  {
    hide KeyOf, After, KeysOf, Keyed, Admissions;
    if images == [] {
      NoneTaken(max);
    } else {
      var front, c := images[..|images| - 1], images[|images| - 1];
      KeyedAdmissions(max, front);
      OneTaken(max, images);
      forall p ensures KeyOf(p) in After(max, Keyed(images)).data <==> p in After(max, images).data {
        HeldIff(max, Keyed(images), KeyOf(p));
        HeldIff(max, images, p);
        KeysNewest(Admissions(max, images), max);
        KeysIn(Newest(Admissions(max, images), max), p);
      }
    }
  }

  lemma NoneTaken(max: nat)
    ensures Keyed([]) == [] && KeysOf([]) == []
    ensures Admissions<nat>(max, []) == [] && Admissions<Place>(max, []) == []
    ensures After<nat>(max, []).data == map[] && After<Place>(max, []).data == map[]
  {
  }

  lemma OneTaken(max: nat, images: seq<StoreCall<Place>>)
    requires images != []
    requires var front := images[..|images| - 1];
             && Admissions(max, Keyed(front)) == KeysOf(Admissions(max, front))
             && forall p :: KeyOf(p) in After(max, Keyed(front)).data <==> p in After(max, front).data
    ensures Admissions(max, Keyed(images)) == KeysOf(Admissions(max, images))
  {
    hide KeyOf, After;
    var front, c := images[..|images| - 1], images[|images| - 1];
    assert Keyed(images)[..|front|] == Keyed(front);
  }

  lemma HeldIff<K(!new)>(max: nat, calls: seq<StoreCall<K>>, k: K)
    requires max > 0
    ensures k in After(max, calls).data <==> k in Newest(Admissions(max, calls), max)
    ensures k in After(max, calls).data ==> LastPage(calls, k) == Some(After(max, calls).data[k])
  {
    hide After, Newest, Admissions, LastPage;
    RefinesUnbounded(max, calls);
  }

  /** Whatever images came before, the cache gives for a block the page kept of it. */
  lemma CachedIsKept(d: Dict, recs: seq<Bytes>, p: Place)
    ensures CachedPage(d, AllStores(d, recs), KeyOf(p)) == Kept(d, AllImages(d, recs), p)
  {
    hide KeyOf, After, Newest, Admissions, LastPage, AllStores, AllImages, Keyed;
    var images := AllImages(d, recs);
    StoresAreKeyed(d, recs);
    KeyedAdmissions(d.maxPages, images);
    HeldIff(d.maxPages, Keyed(images), KeyOf(p));
    HeldIff(d.maxPages, images, p);
    KeyedLast(images, p);
  }

  /** Images of other blocks leave the page of a block that is still kept alone. */
  lemma {:induction false} OthersStay(d: Dict, images: seq<StoreCall<Place>>, more: seq<StoreCall<Place>>, p: Place)
    requires forall i :: 0 <= i < |more| ==> more[i].key != p
    requires Kept(d, images, p).Some? && Kept(d, images + more, p).Some?
    ensures Kept(d, images + more, p) == Kept(d, images, p)
  {
    hide Admissions, Newest;
    LastOfOthers(images, more, p);
  }

  lemma {:induction false} LastOfOthers(images: seq<StoreCall<Place>>, more: seq<StoreCall<Place>>, p: Place)
    requires forall i :: 0 <= i < |more| ==> more[i].key != p
    ensures LastPage(images + more, p) == LastPage(images, p)
    decreases |more|
  {
    if more == [] {
      assert images + more == images;
    } else {
      LastOfOthers(images, more[..|more| - 1], p);
      assert (images + more)[..|images + more| - 1] == images + more[..|more| - 1];
    }
  }
}
