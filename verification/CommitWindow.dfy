/** The time window in numbers: which commits hand their changes over, and which one ends the reading
    (flashback_xact.go:155-173, flashback_walparse.go:511-533). */
module CommitWindow {
  import opened Bytes
  import opened Options
  import opened Changes
  import opened TxnBuffer
  import opened Transactions
  import EarlyStop

  /** At least `from` and at most `to`, where there are such bounds. */
  predicate Timely(w: Window, t: Time) {
    && (w.from.Some? ==> t.Some? && w.from.value <= t.value)
    && (w.to.Some? ==> t.Some? && t.value <= w.to.value)
  }

  /** A commit later than `to`. */
  predicate Late(w: Window, e: Event) {
    e.Commit? && w.to.Some? && e.time.Some? && w.to.value < e.time.value
  }

  /** Change `ch` was brought by a record and stamped by commit `j`, which names its id. */
  predicate ComesFrom(evs: seq<Event>, j: nat, ch: Change) {
    && j < |evs| && evs[j].Commit? && (ch.xid == evs[j].xid || ch.xid in evs[j].subs) && ch.ts == evs[j].time
    && exists i :: 0 <= i < j && Holds(evs[i], ch)
  }

  /** A record brings the change, commit time aside. */
  predicate Holds(e: Event, ch: Change) {
    e.Rows? && exists c :: c in e.changes && c.(ts := None) == ch.(ts := None)
  }

  // ---- What a change handed over comes from ----

  lemma {:induction false} StampedFrom(chs: seq<Change>, t: Time, ch: Change)
    requires ch in Stamped(chs, t)
    ensures ch.ts == t && exists c :: c in chs && c.(ts := None) == ch.(ts := None)
    decreases |chs|
  {
    var front, last := chs[..|chs| - 1], chs[|chs| - 1];
    if ch in Stamped(front, t) {
      StampedFrom(front, t, ch);
      var c :| c in front && c.(ts := None) == ch.(ts := None);
      assert c in chs;
    } else {
      assert ch == last.(ts := t) && last in chs;
    }
  }

  lemma {:induction false} WithXidFrom(chs: seq<Change>, id: U32, c: Change)
    requires c in WithXid(chs, id)
    ensures c in chs && c.xid == id
    decreases |chs|
  {
    if c in WithXid(chs[..|chs| - 1], id) { WithXidFrom(chs[..|chs| - 1], id, c); }
  }

  lemma {:induction false} SinceFrom(evs: seq<Event>, id: U32, c: Change)
    requires c in Since(evs, id)
    ensures c.xid == id && exists i :: 0 <= i < |evs| && Holds(evs[i], c)
    decreases |evs|
  {
    var front, e := evs[..|evs| - 1], evs[|evs| - 1];
    if c in Since(front, id) {
      SinceFrom(front, id, c);
      var i :| 0 <= i < |front| && Holds(front[i], c);
      assert Holds(evs[i], c);
    } else {
      WithXidFrom(e.changes, id, c);
      assert Holds(evs[|evs| - 1], c);
    }
  }

  lemma {:induction false} GatheredFrom(evs: seq<Event>, ids: seq<U32>, t: Time, ch: Change)
    requires ch in Gathered(evs, ids, t)
    ensures ch.ts == t && ch.xid in ids && exists i :: 0 <= i < |evs| && Holds(evs[i], ch)
    decreases |ids|
  {
    if ch in Stamped(Since(evs, ids[0]), t) {
      StampedFrom(Since(evs, ids[0]), t, ch);
      var c :| c in Since(evs, ids[0]) && c.(ts := None) == ch.(ts := None);
      SinceFrom(evs, ids[0], c);
      assert c.(ts := None).xid == ch.(ts := None).xid;
      var i :| 0 <= i < |evs| && Holds(evs[i], c);
      assert Holds(evs[i], ch);
    } else {
      GatheredFrom(evs, ids[1..], t, ch);
    }
  }

  lemma TimelyIff(w: Window, t: Time)
    ensures w.Admits(t) <==> Timely(w, t)
  {
  }

  lemma LateIff(w: Window, e: Event)
    ensures w.IsPast(e) <==> Late(w, e)
  {
  }

  lemma {:induction false} OutputFrom(w: Window, evs: seq<Event>, ch: Change) returns (j: nat)
    requires ch in Output(w, evs)
    ensures ComesFrom(evs, j, ch) && Timely(w, evs[j].time)
    decreases |evs|
  {
    hide Window.Admits, Timely, Holds, Gathered, Distinct;
    var front, e := evs[..|evs| - 1], evs[|evs| - 1];
    if ch in Output(w, front) {
      j := OutputFrom(w, front, ch);
      var i :| 0 <= i < j && Holds(front[i], ch);
      assert Holds(evs[i], ch);
    } else {
      j := |evs| - 1;
      TimelyIff(w, e.time);
      DistinctIds(e.Ids());
      GatheredFrom(front, Distinct(e.Ids()), e.time, ch);
      var i :| 0 <= i < |front| && Holds(front[i], ch);
      assert Holds(evs[i], ch);
    }
  }

  lemma LimitAmong(m: int, chs: seq<Change>, ch: Change)
    requires ch in Limit(m, chs)
    ensures ch in chs
  {
  }

  /** Every change of a run's output was brought by a record and comes from a commit that names its id and
      whose time, which it carries, is at least `from` and at most `to`. */
  lemma RunFrom(o: Opts, evs: seq<Event>, ch: Change) returns (j: nat)
    requires ch in Run(o, evs).out
    ensures ComesFrom(evs, j, ch) && Timely(o.window, evs[j].time)
  {
    hide ComesFrom, Timely, Output, Limit, UpToEnd;
    RunOutput(o, evs);
    var read := UpToEnd(o.window, evs);
    LimitAmong(o.maxChanges, Output(o.window, read), ch);
    j := OutputFrom(o.window, read, ch);
    ComesFromMore(read, evs, j, ch);
  }

  lemma ComesFromMore(front: seq<Event>, evs: seq<Event>, j: nat, ch: Change)
    requires front <= evs && ComesFrom(front, j, ch)
    ensures ComesFrom(evs, j, ch) && evs[j] == front[j]
  {
    hide Holds;
    assert forall i :: 0 <= i < |front| ==> front[i] == evs[i];
    var i :| 0 <= i < j && Holds(front[i], ch);
    assert Holds(evs[i], ch);
  }

  // ---- What a commit hands over ----

  lemma NotYetPast(w: Window, evs: seq<Event>)
    requires forall i :: 0 <= i < |evs| ==> !Late(w, evs[i])
    ensures !Past(w, evs) && UpToEnd(w, evs) == evs
  {
    hide Late, Past, UpToEnd, Window.IsPast;
    if Past(w, evs) {
      var i := PastWitness(w, evs);
      LateIff(w, evs[i]);
    }
    NotPastYet(w, evs);
  }

  /** A commit at a time from `from` to `to`, read before any later than `to`, hands over the changes of its
      xid and its sub-xids since they were last named, each id once; the limit cuts the whole. */
  lemma TimelyHandsOver(o: Opts, evs: seq<Event>, j: nat)
    requires j < |evs| && evs[j].Commit? && Timely(o.window, evs[j].time)
    requires forall i :: 0 <= i < j ==> !Late(o.window, evs[i])
    ensures Run(o, evs[..j + 1]).out
            == Limit(o.maxChanges, Run(o.(maxChanges := 0), evs[..j]).out
                                   + Gathered(evs[..j], Distinct([evs[j].xid] + evs[j].subs), evs[j].time))
  {
    hide Timely, Late, Past, UpToEnd, Output, Gathered, Run, Window.Admits, Window.IsPast;
    var front, e, w := evs[..j], evs[j], o.window;
    assert evs[..j + 1] == front + [e];
    NotYetPast(w, front);
    RunOutput(o.(maxChanges := 0), front);
    RunOutput(o, front + [e]);
    OneMore(o, front, e);
    TimelyIff(w, e.time);
  }

  /** Whatever a commit or an abort names, as its own id or as a sub-transaction's, has nothing waiting after it:
      what was waiting at an abort never comes out. */
  lemma NothingWaits(evs: seq<Event>, e: Event, id: U32)
    requires (e.Commit? || e.Abort?) && (id == e.xid || id in e.subs)
    ensures Since(evs + [e], id) == []
  {
    assert (evs + [e])[..|evs|] == evs;
  }

  /** A commit later than `to` hands nothing over, and nothing comes after it. */
  lemma LateEnds(o: Opts, evs: seq<Event>, j: nat)
    requires j < |evs| && Late(o.window, evs[j])
    ensures Run(o, evs).out == Run(o, evs[..j]).out
    decreases |evs|
  {
    hide Late, Past, UpToEnd, Output, Run, Window.IsPast, HandedOver;
    RunOutput(o, evs);
    RunOutput(o, evs[..j]);
    LateIff(o.window, evs[j]);
    NothingAfter(o.window, evs, j);
  }

  lemma {:induction false} NothingAfter(w: Window, evs: seq<Event>, j: nat)
    requires j < |evs| && w.IsPast(evs[j])
    ensures Output(w, UpToEnd(w, evs)) == Output(w, UpToEnd(w, evs[..j]))
    decreases |evs|
  {
    hide Window.IsPast, HandedOver, Output;
    var front, e := evs[..|evs| - 1], evs[|evs| - 1];
    assert evs == front + [e];
    OneMore(Opts(0, w), front, e);
    if j < |front| {
      assert front[..j] == evs[..j];
      NothingAfter(w, front, j);
      EarlyStop.PastHas(w, front, j);
    } else {
      assert evs[..j] == front;
      PastHandsNothing(w, front, e);
      if !Past(w, front) { NotPastYet(w, front); }
      assert Output(w, front) + [] == Output(w, front);
    }
  }

  lemma PastHandsNothing(w: Window, evs: seq<Event>, e: Event)
    requires w.IsPast(e)
    ensures HandedOver(w, evs, e) == []
  {
  }

  // ---- What is handed over at the end without a window ----

  /** Under each id only changes of that id. */
  ghost predicate Sorted(p: Pending) {
    forall id, i :: id in p && 0 <= i < |p[id]| ==> p[id][i].xid == id != 0
  }

  /** What is still waiting comes out by ascending id, and of each id exactly what is waiting, in order. */
  lemma {:induction false} DumpAscends(p: Pending)
    requires Sorted(p)
    ensures forall i, j :: 0 <= i < j < |Dumped(p)| ==> Dumped(p)[i].xid <= Dumped(p)[j].xid
    ensures forall i :: 0 <= i < |Dumped(p)| ==> Dumped(p)[i].xid in p
    ensures forall id :: WithXid(Dumped(p), id) == Held(p, id)
    decreases |p.Keys|
  {
    hide WithXid;
    if p.Keys == {} {
      forall id ensures WithXid([], id) == [] && id !in p { NothingWithXid(id); assert id !in p.Keys; }
    } else {
      var x := Least(p.Keys);
      var rest := p - {x};
      assert rest.Keys == p.Keys - {x};
      DumpAscends(rest);
      assert Dumped(p) == p[x] + Dumped(rest);
      forall id ensures WithXid(Dumped(p), id) == Held(p, id) {
        WithXidAppend(p[x], Dumped(rest), id);
        OfOneId(p[x], x, id);
      }
    }
  }

  lemma {:induction false} OfOneId(chs: seq<Change>, x: U32, id: U32)
    requires forall i :: 0 <= i < |chs| ==> chs[i].xid == x != 0
    ensures WithXid(chs, id) == if id == x then chs else []
    decreases |chs|
  {
    if chs != [] {
      var front, last := chs[..|chs| - 1], chs[|chs| - 1];
      OfOneId(front, x, id);
      assert front + [last] == chs;
    }
  }

  /** The buffer always is of that kind. */
  lemma {:induction false} BufferSorted(evs: seq<Event>)
    ensures Sorted(Buffered(evs))
    decreases |evs|
  {
    forall id, i | id in Buffered(evs) && 0 <= i < |Buffered(evs)[id]| ensures Buffered(evs)[id][i].xid == id != 0 {
      BufferedIsSince(evs, id);
      var c := Held(Buffered(evs), id)[i];
      SinceFrom(evs, id, c);
      ZeroNever(evs, id);
    }
  }

  lemma {:induction false} ZeroNever(evs: seq<Event>, id: U32)
    requires Since(evs, id) != []
    ensures id != 0
    decreases |evs|
  {
    var front, e := evs[..|evs| - 1], evs[|evs| - 1];
    if Since(front, id) != [] { ZeroNever(front, id); } else { WithXidNonzero(e.changes, id); }
  }

  lemma {:induction false} WithXidNonzero(chs: seq<Change>, id: U32)
    ensures id == 0 ==> WithXid(chs, id) == []
    decreases |chs|
  {
    if chs != [] { WithXidNonzero(chs[..|chs| - 1], id); }
  }

  /** So what is handed over at the end of events are, by ascending id, the changes that came after each id was
      last named. */
  lemma OpenAscends(evs: seq<Event>)
    ensures var out := Dumped(Buffered(evs));
            && (forall i, j :: 0 <= i < j < |out| ==> out[i].xid <= out[j].xid)
            && forall id :: WithXid(out, id) == Since(evs, id)
  {
    hide *;
    BufferSorted(evs);
    DumpAscends(Buffered(evs));
    forall id ensures WithXid(Dumped(Buffered(evs)), id) == Since(evs, id) { BufferedIsSince(evs, id); }
  }
}
