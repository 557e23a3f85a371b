/** The bounded cache of restored pages (flashbackFPWCache in flashback_walparse.go). */
module PageCache {
  import opened Bytes
  import opened Options

  const DEFAULT_PAGES := 512

  datatype Entries<K(==)> = Entries(keys: seq<K>, data: map<K, Bytes>)

  /** Storing a page: an empty page is ignored, a held key is overwritten in place, and a new key
      pushes out the oldest one when the cache is full. */
  function Store<K>(max: nat, c: Entries<K>, k: K, page: Bytes): Entries<K> {
    if page == [] then c
    else if k in c.data then Entries(c.keys, c.data[k := page])
    else if max > 0 && |c.data| >= max && |c.keys| > 0 then
      Entries(c.keys[1..] + [k], (c.data - {c.keys[0]})[k := page])
    else Entries(c.keys + [k], c.data[k := page])
  }

  class FpwCache {
    const max: nat
    var keys: seq<nat>
    var data: map<nat, Bytes>
    ghost var calls: seq<StoreCall<nat>>

    /** The contents are those the stores made so far leave. */
    ghost predicate Valid()
      reads this
    {
      max > 0 && Contents() == After(max, calls)
    }

    constructor (limit: int)
      ensures max == if limit <= 0 then 512 else limit
      ensures Contents() == Entries([], map[])
      ensures Valid() && calls == []
    {
      max := if limit <= 0 then DEFAULT_PAGES else limit;
      keys, data, calls := [], map[], [];
    }

    function Contents(): Entries<nat>
      reads this
    {
      Entries(keys, data)
    }

    /** A page is given for the `max` keys taken in last, and it is the one last stored under its key. */
    method Get(k: nat) returns (page: Option<Bytes>)
      requires Valid()
      ensures page.Some? <==> k in Newest(Admissions(max, calls), max)
      ensures page.Some? ==> page == LastPage(calls, k)
    {
      RefinesUnbounded(max, calls);
      hide After, Newest, Admissions, LastPage;
      page := if k in data then Some(data[k]) else None;
    }

    method Set(k: nat, page: Bytes)
      requires Valid()
      modifies this
      ensures Contents() == Store(max, old(Contents()), k, page)
      ensures Valid() && calls == old(calls) + [StoreCall(k, page)]
    {
      calls := calls + [StoreCall(k, page)];
      assert calls[..|calls| - 1] == old(calls);
      if page == [] { return; }
      if k in data {
        data := data[k := page];
        return;
      }
      if max > 0 && |data| >= max && |keys| > 0 {
        var oldest := keys[0];
        keys := keys[1..];
        data := data - {oldest};
      }
      data := data[k := page];
      keys := keys + [k];
    }
  }

  // ---- What any run of stores leaves ----

  datatype StoreCall<K(==)> = StoreCall(key: K, page: Bytes)

  function After<K>(max: nat, calls: seq<StoreCall<K>>): Entries<K> {
    if calls == [] then Entries([], map[])
    else
      var c := calls[|calls| - 1];
      Store(max, After(max, calls[..|calls| - 1]), c.key, c.page)
  }

  /** The page last stored under a key, were the cache unbounded. */
  function LastPage<K>(calls: seq<StoreCall<K>>, k: K): Option<Bytes> {
    if calls == [] then None
    else
      var c := calls[|calls| - 1];
      if c.key == k && c.page != [] then Some(c.page) else LastPage(calls[..|calls| - 1], k)
  }

  /** Every key at the time it was taken in anew, oldest first. */
  function Admissions<K>(max: nat, calls: seq<StoreCall<K>>): seq<K> {
    if calls == [] then []
    else
      var front, c := calls[..|calls| - 1], calls[|calls| - 1];
      Admissions(max, front) + if c.page != [] && c.key !in After(max, front).data then [c.key] else []
  }

  function Newest<K>(s: seq<K>, n: nat): seq<K> {
    if |s| <= n then s else s[|s| - n..]
  }

  /** Key list and map hold the same keys, none twice. */
  ghost predicate Consistent<K(!new)>(c: Entries<K>) {
    && |c.keys| == |c.data|
    && (forall i, j :: 0 <= i < j < |c.keys| ==> c.keys[i] != c.keys[j])
    && (forall k :: k in c.keys <==> k in c.data)
  }

  lemma DropOldest<K(!new)>(c: Entries<K>)
    requires Consistent(c) && c.keys != []
    ensures Consistent(Entries(c.keys[1..], c.data - {c.keys[0]}))
  {
    var rest, data := c.keys[1..], c.data - {c.keys[0]};
    assert c.keys == [c.keys[0]] + rest;
    assert data.Keys == c.data.Keys - {c.keys[0]};
    assert |data| == |data.Keys| && |c.data| == |c.data.Keys|;
  }

  lemma AddNewest<K(!new)>(c: Entries<K>, k: K, page: Bytes)
    requires Consistent(c) && k !in c.data
    ensures Consistent(Entries(c.keys + [k], c.data[k := page]))
  {
    var data := c.data[k := page];
    assert data.Keys == c.data.Keys + {k};
    assert |data| == |data.Keys| && |c.data| == |c.data.Keys|;
  }

  lemma StoreConsistent<K(!new)>(max: nat, c: Entries<K>, k: K, page: Bytes)
    requires max > 0 && Consistent(c) && |c.data| <= max
    ensures Consistent(Store(max, c, k, page)) && |Store(max, c, k, page).data| <= max
  {
    if page != [] {
      if k in c.data {
        assert c.data[k := page].Keys == c.data.Keys;
        assert |c.data[k := page]| == |c.data[k := page].Keys| && |c.data| == |c.data.Keys|;
      } else if |c.data| >= max {
        DropOldest(c);
        hide Consistent;
        AddNewest(Entries(c.keys[1..], c.data - {c.keys[0]}), k, page);
        assert Consistent(Store(max, c, k, page));
        SizeIsKeys(Store(max, c, k, page));
      } else {
        AddNewest(c, k, page);
        SizeIsKeys(Store(max, c, k, page));
      }
    }
  }

  lemma SizeIsKeys<K(!new)>(c: Entries<K>)
    requires Consistent(c)
    ensures |c.data| == |c.keys|
  {
  }

  ghost predicate Refines<K(!new)>(max: nat, calls: seq<StoreCall<K>>) {
    var c := After(max, calls);
    && Consistent(c) && |c.data| <= max
    && (forall k :: k in c.data ==> LastPage(calls, k) == Some(c.data[k]))
    && c.keys == Newest(Admissions(max, calls), max)
  }

  lemma KeysMove<K(!new)>(max: nat, c: Entries<K>, log: seq<K>, k: K, page: Bytes)
    requires max > 0 && |c.data| == |c.keys| <= max && c.keys == Newest(log, max)
    ensures Store(max, c, k, page).keys == Newest(log + if page != [] && k !in c.data then [k] else [], max)
  {
  }

  lemma PagesMove<K(!new)>(max: nat, c: Entries<K>, front: seq<StoreCall<K>>, s: StoreCall<K>)
    requires forall k :: k in c.data ==> LastPage(front, k) == Some(c.data[k])
    ensures
      var c' := Store(max, c, s.key, s.page);
      forall k :: k in c'.data ==> LastPage(front + [s], k) == Some(c'.data[k])
  {
    var c', calls := Store(max, c, s.key, s.page), front + [s];
    assert calls[..|calls| - 1] == front;
    forall k | k in c'.data
      ensures LastPage(calls, k) == Some(c'.data[k])
    {
      if k != s.key || s.page == [] {
        assert k in c.data && c'.data[k] == c.data[k];
      }
    }
  }

  /** After any run of stores the cache holds at most `max` pages, key list and map agree without
      duplicates, a held key gives the page last stored under it, and the keys held are the ones
      taken in last, in that order. */
  lemma {:induction false} RefinesUnbounded<K(!new)>(max: nat, calls: seq<StoreCall<K>>)
    requires max > 0
    ensures Refines(max, calls)
    decreases |calls|
  {
    if calls != [] {
      var front, s := calls[..|calls| - 1], calls[|calls| - 1];
      assert calls == front + [s];
      RefinesUnbounded(max, front);
      RefinesStep(max, front, s);
    } else {
      assert Consistent<K>(Entries([], map[]));
    }
  }

  lemma AfterMore<K>(max: nat, front: seq<StoreCall<K>>, s: StoreCall<K>)
    ensures var c := After(max, front);
            && After(max, front + [s]) == Store(max, c, s.key, s.page)
            && Admissions(max, front + [s])
               == Admissions(max, front) + if s.page != [] && s.key !in c.data then [s.key] else []
  {
    hide Store;
    assert (front + [s])[..|front|] == front;
  }

  lemma RefinesStep<K(!new)>(max: nat, front: seq<StoreCall<K>>, s: StoreCall<K>)
    requires max > 0 && Refines(max, front)
    ensures Refines(max, front + [s])
  {
    hide Store, Consistent, Newest, LastPage, After, Admissions;
    var c := After(max, front);
    AfterMore(max, front, s);
    StoreConsistent(max, c, s.key, s.page);
    SizeIsKeys(c);
    KeysMove(max, c, Admissions(max, front), s.key, s.page);
    PagesMove(max, c, front, s);
  }
}
