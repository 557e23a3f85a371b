/** Stopping the reading at the first commit after the window: exactly which events make it lose
    changes. */
module EarlyStop {
  import opened Bytes
  import opened Changes
  import opened Transactions

  /** A record that brings a change of transaction `id`. */
  predicate Brings(e: Event, id: U32) {
    e.Rows? && id != 0 && exists i :: 0 <= i < |e.changes| && e.changes[i].xid == id
  }

  /** Before event `j` a record brings a change of `id` that no commit or abort in between names. */
  predicate IsOpen(evs: seq<Event>, j: nat, id: U32)
    requires j <= |evs|
  {
    exists k :: 0 <= k < j && Brings(evs[k], id) && forall m :: k < m < j ==> id !in evs[m].Ids()
  }

  /** Event `j` is a commit inside the window of an id that is open. */
  predicate CommitsOpen(w: Window, evs: seq<Event>, j: nat)
    requires j < |evs|
  {
    evs[j].Commit? && w.Admits(evs[j].time) && exists id :: id in evs[j].Ids() && IsOpen(evs, j, id)
  }

  lemma {:induction false} WithXidIff(chs: seq<Change>, id: U32)
    ensures WithXid(chs, id) != [] <==> id != 0 && exists i :: 0 <= i < |chs| && chs[i].xid == id
    decreases |chs|
  {
    if chs != [] {
      var front := chs[..|chs| - 1];
      WithXidIff(front, id);
      assert forall i :: 0 <= i < |front| ==> front[i] == chs[i];
    }
  }

  lemma OpenStep(evs: seq<Event>, j: nat, id: U32)
    requires j < |evs|
    ensures IsOpen(evs, j + 1, id) <==> Brings(evs[j], id) || (id !in evs[j].Ids() && IsOpen(evs, j, id))
  {
    hide Brings, Event.Ids;
    if Brings(evs[j], id) {
      assert IsOpen(evs, j + 1, id);
    } else if IsOpen(evs, j + 1, id) {
      var k :| 0 <= k < j + 1 && Brings(evs[k], id) && forall m :: k < m < j + 1 ==> id !in evs[m].Ids();
      assert k < j && id !in evs[j].Ids();
    }
  }

  /** The changes an id has waiting are none exactly when it is not open. */
  lemma {:induction false} SinceIff(evs: seq<Event>, j: nat, id: U32)
    requires j <= |evs|
    ensures Since(evs[..j], id) != [] <==> IsOpen(evs, j, id)
    decreases j
  {
    hide IsOpen;
    if j == 0 {
      NoneOpen(evs, id);
    } else {
      SinceIff(evs, j - 1, id);
      OpenStep(evs, j - 1, id);
      assert evs[..j][..j - 1] == evs[..j - 1];
      if evs[j - 1].Rows? { WithXidIff(evs[j - 1].changes, id); }
    }
  }

  lemma NoneOpen(evs: seq<Event>, id: U32)
    ensures !IsOpen(evs, 0, id)
  {
  }

  lemma {:induction false} GatheredIff(evs: seq<Event>, ids: seq<U32>, t: Time)
    ensures Gathered(evs, ids, t) != [] <==> exists id :: id in ids && Since(evs, id) != []
    decreases |ids|
  {
    hide Since;
    if ids != [] {
      GatheredIff(evs, ids[1..], t);
      assert ids == [ids[0]] + ids[1..];
      assert |Gathered(evs, ids, t)| == |Since(evs, ids[0])| + |Gathered(evs, ids[1..], t)|;
    }
  }

  lemma HandedOverIff(w: Window, evs: seq<Event>, j: nat)
    requires j < |evs|
    ensures HandedOver(w, evs[..j], evs[j]) != [] <==> CommitsOpen(w, evs, j)
  {
    hide Since, Gathered, IsOpen, Window.Admits, Distinct, Event.Ids;
    var e := evs[j];
    if e.Commit? && w.Admits(e.time) {
      DistinctIds(e.Ids());
      GatheredIff(evs[..j], Distinct(e.Ids()), e.time);
      forall id | id in e.Ids() ensures Since(evs[..j], id) != [] <==> IsOpen(evs, j, id) { SinceIff(evs, j, id); }
    }
  }

  lemma {:induction false} PastHas(w: Window, evs: seq<Event>, i: nat)
    requires i < |evs| && w.IsPast(evs[i])
    ensures Past(w, evs) && |UpToEnd(w, evs)| <= i + 1
    decreases |evs|
  {
    hide Window.IsPast;
    var front := evs[..|evs| - 1];
    if i < |front| { PastHas(w, front, i); }
  }

  /** An event is read no more exactly if some commit before it lies after the window. */
  lemma BehindStopIff(w: Window, evs: seq<Event>, j: nat)
    requires j < |evs|
    ensures |UpToEnd(w, evs)| <= j <==> exists i :: 0 <= i < j && w.IsPast(evs[i])
  {
    hide Window.IsPast, Past, UpToEnd;
    if |UpToEnd(w, evs)| <= j {
      EndIsPast(w, evs, j);
      var i := PastWitness(w, evs[..j]);
      assert w.IsPast(evs[i]);
    }
    forall i | 0 <= i < j && w.IsPast(evs[i]) ensures |UpToEnd(w, evs)| <= j { PastHas(w, evs, i); }
  }

  /** Stopping at the first commit after the window gives what reading everything gives if and only if no
      commit behind it has its time in the window and names an id with a change that came after the id
      was last named. */
  lemma EarlyStopIff(w: Window, evs: seq<Event>)
    ensures Output(w, UpToEnd(w, evs)) == Output(w, evs) <==>
            forall i, j :: 0 <= i < j < |evs| && w.IsPast(evs[i]) ==> !CommitsOpen(w, evs, j)
  {
    hide Window.IsPast, HandedOver, CommitsOpen, Output, UpToEnd;
    StopIsSilentIff(w, evs);
    forall j | 0 <= j < |evs|
      ensures |UpToEnd(w, evs)| <= j <==> exists i :: 0 <= i < j && w.IsPast(evs[i])
      ensures HandedOver(w, evs[..j], evs[j]) != [] <==> CommitsOpen(w, evs, j)
    {
      BehindStopIff(w, evs, j);
      HandedOverIff(w, evs, j);
    }
  }
}
