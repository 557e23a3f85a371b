/** The cache of out-of-line value chunks (flashback_toast.go:35-80): what it gives back for a value,
    whatever the order in which chunks arrive. */
module Toast {
  import opened Bytes
  import opened Options

  const WORD := 0x1_0000_0000

  type Parts = map<int, Bytes>
  type Chunks = map<int, Parts>

  datatype Put = Put(oid: U32, value: U32, number: int, data: Bytes)

  function Key(oid: U32, value: U32): (k: nat)
    ensures k < WORD * WORD
  {
    oid * WORD + value
  }

  lemma KeysDiffer(oid: U32, value: U32, oid': U32, value': U32)
    ensures Key(oid, value) == Key(oid', value') <==> oid == oid' && value == value'
  {
  }

  function PartsOf(chunks: Chunks, oid: U32, value: U32): Parts {
    if Key(oid, value) in chunks then chunks[Key(oid, value)] else map[]
  }

  /** Chunks of value 0 and negative numbers are not kept. */
  function After(chunks: Chunks, p: Put): Chunks {
    if p.value == 0 || p.number < 0 then chunks
    else chunks[Key(p.oid, p.value) := PartsOf(chunks, p.oid, p.value)[p.number := p.data]]
  }

  function AfterAll(history: seq<Put>): Chunks {
    if history == [] then map[] else After(AfterAll(history[..|history| - 1]), history[|history| - 1])
  }

  predicate IsHighest(parts: Parts, n: int) {
    n in parts && forall k :: k in parts ==> k <= n
  }

  lemma HasMember(keys: set<int>)
    requires keys != {}
    ensures exists k :: k in keys
  {
    assert (forall k :: k !in keys) ==> keys == {};
  }

  lemma {:induction false} HasHighest(keys: set<int>)
    requires keys != {}
    ensures exists n :: n in keys && forall k :: k in keys ==> k <= n
    decreases |keys|
  {
    HasMember(keys);
    var x :| x in keys;
    if keys != {x} {
      HasHighest(keys - {x});
      var y :| y in keys - {x} && forall k :: k in keys - {x} ==> k <= y;
      var n := if x > y then x else y;
      assert n in keys && forall k :: k in keys ==> k <= n by {
        forall k | k in keys ensures k <= n { if k != x { assert k in keys - {x}; } }
      }
    } else {
      assert x in keys && forall k :: k in keys ==> k <= x;
    }
  }

  lemma SomeHighest(parts: Parts)
    requires parts != map[]
    ensures exists n :: IsHighest(parts, n)
  {
    assert parts.Keys == {} ==> parts == map[];
    HasHighest(parts.Keys);
    var n :| n in parts.Keys && forall k :: k in parts.Keys ==> k <= n;
    assert IsHighest(parts, n);
  }

  /** Chunks `i` to `last` in a row; nothing if one is missing. */
  function Gathered(parts: Parts, i: int, last: int): Option<Bytes>
    decreases last - i + 1
  {
    if i > last then Some([])
    else if i !in parts then None
    else
      var rest := Gathered(parts, i + 1, last);
      if rest.None? then None else Some(parts[i] + rest.value)
  }

  /** The chunks of a value put together, if chunks 0 to the highest present are all there. */
  ghost function Whole(parts: Parts): Option<Bytes> {
    if parts == map[] then None
    else
      SomeHighest(parts);
      var n :| IsHighest(parts, n);
      Gathered(parts, 0, n)
  }

  class ToastCache {
    var chunks: Chunks

    constructor ()
      ensures chunks == AfterAll([])
    {
      chunks := map[];
    }

    method PutChunk(oid: U32, value: U32, number: int, data: Bytes)
      modifies this
      ensures chunks == After(old(chunks), Put(oid, value, number, data))
    {
      if value == 0 || number < 0 { return; }
      var k := Key(oid, value);
      if k !in chunks { chunks := chunks[k := map[]]; }
      chunks := chunks[k := chunks[k][number := data]];
    }

    method Get(oid: U32, value: U32) returns (out: Option<Bytes>)
      ensures out == if value == 0 then None else Whole(PartsOf(chunks, oid, value))
    {
      if value == 0 { return None; }
      var k := Key(oid, value);
      if k !in chunks || |chunks[k]| == 0 { return None; }
      var parts := chunks[k];
      var max := FindHighest(parts);
      var data: Bytes := [];
      if max < 0 { return Some([]); }
      JoinedEnds(parts, max, Gathered(parts, 0, max));
      for i := 0 to max + 1
        invariant Gathered(parts, 0, max) == Joined(data, Gathered(parts, i, max))
      {
        MoreGathered(data, parts, i, max);
        if i !in parts { return None; }
        data := data + parts[i];
      }
      return Some(data);
    }
  }

  /** The largest key, with -1 for keys all below it. */
  method FindHighest(parts: Parts) returns (max: int)
    ensures max >= -1 && forall k :: k in parts ==> k <= max
    ensures max >= 0 ==> max in parts
  {
    max := -1;
    var rest := parts.Keys;
    while rest != {}
      invariant rest <= parts.Keys && max >= -1 && (max >= 0 ==> max in parts)
      invariant forall k :: k in parts && k !in rest ==> k <= max
      decreases |rest|
    {
      HasMember(rest);
      var k :| k in rest;
      if k > max { max := k; }
      rest := rest - {k};
    }
  }

  function Joined(a: Bytes, b: Option<Bytes>): Option<Bytes> {
    if b.None? then None else Some(a + b.value)
  }

  lemma JoinedEnds(parts: Parts, last: int, whole: Option<Bytes>)
    ensures Joined([], whole) == whole
    ensures forall data :: Joined(data, Gathered(parts, last + 1, last)) == Some(data)
  {
    if whole.Some? { assert [] + whole.value == whole.value; }
    assert forall data: Bytes :: data + [] == data;
  }

  lemma MoreGathered(data: Bytes, parts: Parts, i: int, last: int)
    requires i <= last
    ensures Joined(data, Gathered(parts, i, last))
            == if i in parts then Joined(data + parts[i], Gathered(parts, i + 1, last)) else None
  {
    var rest := Gathered(parts, i + 1, last);
    if i in parts && rest.Some? { assert data + (parts[i] + rest.value) == data + parts[i] + rest.value; }
  }

  // ---- What comes back of what was put ----

  predicate IsFor(p: Put, oid: U32, value: U32) {
    p.oid == oid && p.value == value && p.number >= 0
  }

  /** The last chunk put under a number. */
  function Latest(history: seq<Put>, oid: U32, value: U32, n: int): Option<Bytes> {
    if history == [] then None
    else
      var p := history[|history| - 1];
      if IsFor(p, oid, value) && p.number == n then Some(p.data)
      else Latest(history[..|history| - 1], oid, value, n)
  }

  /** Other values' chunks do not matter, and a repeat replaces its predecessor. */
  lemma {:induction false} KeepsLatest(history: seq<Put>, oid: U32, value: U32, n: int)
    requires value != 0
    ensures var parts := PartsOf(AfterAll(history), oid, value);
            Latest(history, oid, value, n) == if n in parts then Some(parts[n]) else None
    decreases |history|
  {
    if history != [] {
      var p := history[|history| - 1];
      KeepsLatest(history[..|history| - 1], oid, value, n);
      KeysDiffer(p.oid, p.value, oid, value);
    }
  }

  lemma {:induction false} LatestIs(history: seq<Put>, oid: U32, value: U32, n: int)
    ensures var d := Latest(history, oid, value, n);
            (d.Some? ==> exists p :: p in history && IsFor(p, oid, value) && p.number == n && p.data == d.value)
            && (d.None? ==> forall p :: p in history && IsFor(p, oid, value) ==> p.number != n)
    decreases |history|
  {
    if history != [] {
      LatestIs(history[..|history| - 1], oid, value, n);
    }
  }

  /** Chunk `n` of a value was put. */
  ghost predicate Came(history: seq<Put>, oid: U32, value: U32, n: int) {
    exists p :: p in history && IsFor(p, oid, value) && p.number == n
  }

  lemma PresentIff(history: seq<Put>, oid: U32, value: U32, n: int)
    requires value != 0
    ensures n in PartsOf(AfterAll(history), oid, value) <==> Came(history, oid, value, n)
  {
    hide AfterAll;
    KeepsLatest(history, oid, value, n);
    LatestIs(history, oid, value, n);
  }

  lemma {:induction false} GatheredIff(parts: Parts, i: int, last: int)
    ensures Gathered(parts, i, last).Some? <==> forall k :: i <= k <= last ==> k in parts
    decreases last - i + 1
  {
    if i <= last { GatheredIff(parts, i + 1, last); }
  }

  /** A value comes back exactly when some chunk of it came and none below the highest is missing. */
  lemma GetIff(history: seq<Put>, oid: U32, value: U32)
    requires value != 0
    ensures Whole(PartsOf(AfterAll(history), oid, value)).Some? <==>
            (exists n :: Came(history, oid, value, n))
            && forall i, n :: 0 <= i < n && Came(history, oid, value, n) ==> Came(history, oid, value, i)
  {
    hide AfterAll, Came, PartsOf;
    var parts := PartsOf(AfterAll(history), oid, value);
    forall n ensures n in parts <==> Came(history, oid, value, n) { PresentIff(history, oid, value, n); }
    if parts == map[] {
      assert forall n :: !Came(history, oid, value, n);
    } else {
      SomeHighest(parts);
      var n :| IsHighest(parts, n);
      GatheredIff(parts, 0, n);
      assert Came(history, oid, value, n);
    }
  }

  function Concat(chunks: seq<Bytes>): Bytes {
    if chunks == [] then [] else chunks[0] + Concat(chunks[1..])
  }

  lemma {:induction false} GatheredConcat(parts: Parts, chunks: seq<Bytes>, i: nat)
    requires i <= |chunks| && forall k :: i <= k < |chunks| ==> k in parts && parts[k] == chunks[k]
    ensures Gathered(parts, i, |chunks| - 1) == Some(Concat(chunks[i..]))
    decreases |chunks| - i
  {
    if i < |chunks| {
      GatheredConcat(parts, chunks, i + 1);
      assert chunks[i..][0] == chunks[i] && chunks[i..][1..] == chunks[i + 1..];
    }
  }

  /** A value cut into numbered chunks comes back whole: in any order, with repeats, among other values. */
  lemma ChunksComeBack(history: seq<Put>, oid: U32, value: U32, chunks: seq<Bytes>)
    requires value != 0 && chunks != []
    requires forall p :: p in history && IsFor(p, oid, value) ==> p.number < |chunks| && p.data == chunks[p.number]
    requires forall i :: 0 <= i < |chunks| ==> Came(history, oid, value, i)
    ensures Whole(PartsOf(AfterAll(history), oid, value)) == Some(Concat(chunks))
  {
    hide AfterAll, PartsOf, Latest;
    var parts := PartsOf(AfterAll(history), oid, value);
    forall n ensures n in parts <==> 0 <= n < |chunks| && Came(history, oid, value, n) {
      PresentIff(history, oid, value, n);
    }
    forall n | n in parts ensures parts[n] == chunks[n] {
      KeepsLatest(history, oid, value, n);
      LatestIs(history, oid, value, n);
    }
    GatheredConcat(parts, chunks, 0);
    assert chunks[0..] == chunks;
    assert IsHighest(parts, |chunks| - 1);
  }
}
