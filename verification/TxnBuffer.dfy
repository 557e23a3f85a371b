/** The transaction buffer (flashbackTxnBuf in flashback_xact.go): changes wait under their xid until
    the transaction commits or aborts. */
module TxnBuffer {
  import opened Bytes
  import opened Options
  import opened Changes
  import opened Lists

  type Pending = map<U32, seq<Change>>

  function Held(p: Pending, id: U32): seq<Change> {
    if id in p then p[id] else []
  }

  function Added(p: Pending, ch: Change): Pending {
    if ch.xid == 0 then p else p[ch.xid := Held(p, ch.xid) + [ch]]
  }

  function AddedAll(p: Pending, chs: seq<Change>): Pending {
    if chs == [] then p else Added(AddedAll(p, chs[..|chs| - 1]), chs[|chs| - 1])
  }

  function Cleared(p: Pending, ids: seq<U32>): Pending {
    if ids == [] then p else Cleared(p - {ids[0]}, ids[1..])
  }

  function Stamped(chs: seq<Change>, t: Time): (r: seq<Change>)
    ensures |r| == |chs|
  {
    if chs == [] then [] else Stamped(chs[..|chs| - 1], t) + [chs[|chs| - 1].(ts := t)]
  }

  /** What a commit hands over: the changes under each id in turn, stamped with the commit time; an id
      met again has nothing left. */
  function Flushed(p: Pending, ids: seq<U32>, t: Time): seq<Change> {
    if ids == [] then [] else Stamped(Held(p, ids[0]), t) + Flushed(p - {ids[0]}, ids[1..], t)
  }

  /** Whether a change with commit time `t` passes the time window. */
  predicate InWindow(from: Time, to: Time, t: Time) {
    || (from.None? && to.None?)
    || (t.Some? && (from.Some? ==> t.value >= from.value) && (to.Some? ==> t.value <= to.value))
  }

  function Kept(chs: seq<Change>, from: Time, to: Time): (r: seq<Change>)
    ensures |r| <= |chs|
  {
    if chs == [] then []
    else
      Kept(chs[..|chs| - 1], from, to)
      + if InWindow(from, to, chs[|chs| - 1].ts) then [chs[|chs| - 1]] else []
  }

  function Least(ids: set<U32>): (x: U32)
    requires ids != {}
    ensures x in ids && forall id :: id in ids ==> x <= id
  {
    HasLeast(ids);
    var x: U32 :| x in ids && forall id :: id in ids ==> x <= id;
    x
  }

  lemma {:induction false} HasLeast(ids: set<U32>)
    requires ids != {}
    ensures exists least: U32 :: least in ids && forall id :: id in ids ==> least <= id
    decreases |ids|
  {
    var x :| x in ids;
    if ids != {x} {
      assert ids - {x} != {};
      HasLeast(ids - {x});
      var y: U32 :| y in ids - {x} && forall id :: id in ids - {x} ==> y <= id;
      var least: U32 := if x <= y then x else y;
      assert forall id :: id in ids ==> id == x || id in ids - {x};
      assert least in ids && forall id :: id in ids ==> least <= id;
    } else {
      assert x in ids && forall id :: id in ids ==> x <= id;
    }
  }

  /** Everything still held, by ascending xid. */
  function Dumped(p: Pending): seq<Change>
    decreases |p.Keys|
  {
    if p.Keys == {} then []
    else
      var x := Least(p.Keys);
      assert (p - {x}).Keys == p.Keys - {x};
      p[x] + Dumped(p - {x})
  }

  class TxnBuf {
    var pending: Pending

    constructor ()
      ensures pending == map[]
    {
      pending := map[];
    }

    method Add(ch: Change)
      modifies this
      ensures pending == Added(old(pending), ch)
    {
      if ch.xid == 0 { return; }
      pending := pending[ch.xid := Held(pending, ch.xid) + [ch]];
    }

    method Discard(xids: seq<U32>)
      modifies this
      ensures pending == Cleared(old(pending), xids)
    {
      assert xids[0..] == xids;
      for i := 0 to |xids|
        invariant Cleared(pending, xids[i..]) == Cleared(old(pending), xids)
      {
        assert xids[i..][1..] == xids[i + 1..];
        pending := pending - {xids[i]};
      }
    }

    method Flush(subXids: seq<U32>, time: Time, xid: U32) returns (out: seq<Change>)
      modifies this
      ensures out == Flushed(old(pending), [xid] + subXids, time)
      ensures pending == Cleared(old(pending), [xid] + subXids)
    {
      hide Stamped;
      var ids := [xid] + subXids;
      out := [];
      assert ids[0..] == ids;
      for i := 0 to |ids|
        invariant Cleared(pending, ids[i..]) == Cleared(old(pending), ids)
        invariant out + Flushed(pending, ids[i..], time) == Flushed(old(pending), ids, time)
      {
        assert ids[i..][0] == ids[i] && ids[i..][1..] == ids[i + 1..];
        var stamped := StampAll(Held(pending, ids[i]), time);
        Regroup(out, stamped, Flushed(pending - {ids[i]}, ids[i + 1..], time));
        out := out + stamped;
        pending := pending - {ids[i]};
      }
    }

    method DumpAll() returns (out: seq<Change>)
      modifies this
      ensures out == Dumped(old(pending))
      ensures pending == map[]
    {
      out := [];
      while pending.Keys != {}
        invariant out + Dumped(pending) == Dumped(old(pending))
        decreases |pending.Keys|
      {
        var xid := Least(pending.Keys);
        Regroup(out, pending[xid], Dumped(pending - {xid}));
        out := out + pending[xid];
        ghost var keys := pending.Keys;
        pending := pending - {xid};
        assert pending.Keys == keys - {xid};
      }
      assert Dumped(pending) == [] && pending == map[];
    }
  }

  method StampAll(chs: seq<Change>, time: Time) returns (out: seq<Change>)
    ensures out == Stamped(chs, time)
  {
    out := [];
    for k := 0 to |chs|
      invariant out == Stamped(chs[..k], time)
    {
      assert chs[..k + 1][..k] == chs[..k];
      out := out + [chs[k].(ts := time)];
    }
    assert chs[..|chs|] == chs;
  }

  /** The window filter, compacting the slice in place: writing never overtakes reading. */
  method FilterCommitTime(ch: array<Change>, from: Time, to: Time) returns (n: nat)
    modifies ch
    ensures n <= ch.Length && ch[..n] == Kept(old(ch[..]), from, to)
  {
    hide Kept;
    ghost var was := ch[..];
    KeptNone(from, to);
    if from.None? && to.None? {
      KeepsAll(was);
      return ch.Length;
    }
    n := 0;
    for i := 0 to ch.Length
      invariant n <= i && ch[..n] == Kept(was[..i], from, to)
      invariant forall k :: i <= k < ch.Length ==> ch[k] == was[k]
    {
      var c := ch[i];
      KeptNext(was, i, from, to);
      if c.ts.None? { continue; }
      if from.Some? && c.ts.value < from.value { continue; }
      if to.Some? && c.ts.value > to.value { continue; }
      ghost var kept := ch[..n];
      ch[n] := c;
      n := n + 1;
      assert ch[..n] == kept + [c];
    }
    assert was[..ch.Length] == was;
  }

  lemma KeptNone(from: Time, to: Time)
    ensures Kept([], from, to) == []
  {
  }

  lemma KeptNext(chs: seq<Change>, i: nat, from: Time, to: Time)
    requires i < |chs|
    ensures Kept(chs[..i + 1], from, to)
            == if InWindow(from, to, chs[i].ts) then Kept(chs[..i], from, to) + [chs[i]] else Kept(chs[..i], from, to)
  {
    hide InWindow;
    assert chs[..i + 1][..i] == chs[..i];
    assert Kept(chs[..i], from, to) + [] == Kept(chs[..i], from, to);
  }

  lemma {:induction false} KeepsAll(chs: seq<Change>)
    ensures Kept(chs, None, None) == chs
    decreases |chs|
  {
    if chs != [] {
      KeepsAll(chs[..|chs| - 1]);
    }
  }
}
