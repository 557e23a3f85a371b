/** The transaction machine of the WAL side: changes are buffered under their xid, handed over when
    it commits within the time window, and dropped when it aborts (handleXact and take in
    flashback_walparse.go). Its output is fixed here independently, from the event list alone. */
module Transactions {
  import opened Bytes
  import opened Options
  import opened Changes
  import opened TxnBuffer

  /** What one WAL record means to the machine. */
  datatype Event =
    | Rows(changes: seq<Change>)
    | Commit(xid: U32, subs: seq<U32>, time: Time)
    | Abort(xid: U32, subs: seq<U32>)
    | Other
  {
    function Ids(): seq<U32> {
      match this
      case Commit(xid, subs, _) => [xid] + subs
      case Abort(xid, subs) => [xid] + subs
      case _ => []
    }
  }

  /** The commit-time window of a run; an absent bound is open. */
  datatype Window = Window(from: Time, to: Time) {
    predicate Bounded() {
      from.Some? || to.Some?
    }

    predicate Admits(t: Time) {
      InWindow(from, to, t)
    }

    /** A commit after the window, which stops the reading. */
    predicate IsPast(e: Event) {
      e.Commit? && to.Some? && e.time.Some? && e.time.value > to.value
    }
  }

  /** The limits of a run: at most `maxChanges` changes if positive, and a window. */
  datatype Opts = Opts(maxChanges: int, window: Window)

  datatype State = State(pending: Pending, emitted: nat, pastEnd: bool) {
    /** Nothing more can come out. */
    predicate Stopped(o: Opts) {
      pastEnd || (o.maxChanges > 0 && emitted >= o.maxChanges)
    }
  }

  datatype Result = Result(state: State, out: seq<Change>)

  /** The part of `chs` the change limit still allows. */
  function Allowed(o: Opts, emitted: nat, chs: seq<Change>): (r: seq<Change>)
    ensures |r| <= |chs|
  {
    if o.maxChanges <= 0 then chs
    else if emitted >= o.maxChanges then []
    else if |chs| > o.maxChanges - emitted then chs[..o.maxChanges - emitted]
    else chs
  }

  function Emit(o: Opts, s: State, chs: seq<Change>): Result {
    var out := Allowed(o, s.emitted, chs);
    Result(s.(emitted := s.emitted + |out|), out)
  }

  /** What an event does before the change limit is applied. */
  function Handle(w: Window, s: State, e: Event): Result {
    if s.pastEnd then Result(s, [])
    else
      match e
      case Rows(chs) => Result(s.(pending := AddedAll(s.pending, chs)), [])
      case Commit(_, _, time) =>
        Result(s.(pending := Cleared(s.pending, e.Ids()), pastEnd := w.IsPast(e)),
               Kept(Flushed(s.pending, e.Ids(), time), w.from, w.to))
      case Abort(_, _) => Result(s.(pending := Cleared(s.pending, e.Ids())), [])
      case Other => Result(s, [])
  }

  function Step(o: Opts, s: State, e: Event): Result {
    var h := Handle(o.window, s, e);
    Emit(o, h.state, h.out)
  }

  const Start := State(map[], 0, false)

  function Run(o: Opts, evs: seq<Event>): Result {
    if evs == [] then Result(Start, [])
    else
      var r := Run(o, evs[..|evs| - 1]);
      var s := Step(o, r.state, evs[|evs| - 1]);
      Result(s.state, r.out + s.out)
  }

  /** The end of a run: with no time window the open transactions are handed over as well. */
  function Finish(o: Opts, s: State): seq<Change> {
    if o.window.Bounded() then [] else Allowed(o, s.emitted, Dumped(s.pending))
  }

  function Total(o: Opts, evs: seq<Event>): seq<Change> {
    var r := Run(o, evs);
    r.out + Finish(o, r.state)
  }

  // ---- The output, from the events alone ----

  function WithXid(chs: seq<Change>, id: U32): seq<Change> {
    if chs == [] then []
    else
      var front, ch := WithXid(chs[..|chs| - 1], id), chs[|chs| - 1];
      if ch.xid == id && id != 0 then front + [ch] else front
  }

  /** The changes of `id` since a commit or abort last named it. */
  function Since(evs: seq<Event>, id: U32): seq<Change> {
    if evs == [] then []
    else
      var front, e := evs[..|evs| - 1], evs[|evs| - 1];
      if id in e.Ids() then []
      else if e.Rows? then Since(front, id) + WithXid(e.changes, id)
      else Since(front, id)
  }

  function Without(ids: seq<U32>, id: U32): (r: seq<U32>)
    ensures |r| <= |ids| && id !in r
  {
    if ids == [] then []
    else (if ids[0] == id then [] else [ids[0]]) + Without(ids[1..], id)
  }

  /** The ids of a list, each where it first occurs. */
  function Distinct(ids: seq<U32>): seq<U32>
    decreases |ids|
  {
    if ids == [] then [] else [ids[0]] + Distinct(Without(ids[1..], ids[0]))
  }

  function Gathered(evs: seq<Event>, ids: seq<U32>, t: Time): seq<Change> {
    if ids == [] then [] else Stamped(Since(evs, ids[0]), t) + Gathered(evs, ids[1..], t)
  }

  /** What event `e` hands over after `evs`: for a commit within the window, the changes of its xid
      and then of each sub-xid since those ids were last named, stamped with the commit time. */
  function HandedOver(w: Window, evs: seq<Event>, e: Event): seq<Change> {
    if e.Commit? && w.Admits(e.time) then Gathered(evs, Distinct(e.Ids()), e.time) else []
  }

  /** Everything handed over, in commit order. */
  function Output(w: Window, evs: seq<Event>): seq<Change> {
    if evs == [] then []
    else Output(w, evs[..|evs| - 1]) + HandedOver(w, evs[..|evs| - 1], evs[|evs| - 1])
  }

  predicate Past(w: Window, evs: seq<Event>) {
    evs != [] && (w.IsPast(evs[|evs| - 1]) || Past(w, evs[..|evs| - 1]))
  }

  /** The events up to and including the first commit after the window. */
  function UpToEnd(w: Window, evs: seq<Event>): (r: seq<Event>)
    ensures r <= evs
  {
    if evs != [] && Past(w, evs[..|evs| - 1]) then UpToEnd(w, evs[..|evs| - 1]) else evs
  }

  function Limit(m: int, chs: seq<Change>): seq<Change> {
    if m <= 0 || |chs| <= m then chs else chs[..m]
  }

  // ---- The buffer holds what the events leave open ----

  function Buffered(evs: seq<Event>): Pending {
    if evs == [] then map[]
    else
      var p, e := Buffered(evs[..|evs| - 1]), evs[|evs| - 1];
      if e.Rows? then AddedAll(p, e.changes) else Cleared(p, e.Ids())
  }

  lemma {:induction false} HeldAfterAdding(p: Pending, chs: seq<Change>, id: U32)
    ensures Held(AddedAll(p, chs), id) == Held(p, id) + WithXid(chs, id)
    decreases |chs|
  {
    if chs != [] {
      HeldAfterAdding(p, chs[..|chs| - 1], id);
    }
  }

  lemma {:induction false} HeldAfterClearing(p: Pending, ids: seq<U32>, id: U32)
    ensures Held(Cleared(p, ids), id) == if id in ids then [] else Held(p, id)
    decreases |ids|
  {
    if ids != [] {
      HeldAfterClearing(p - {ids[0]}, ids[1..], id);
    }
  }

  lemma {:induction false} BufferedIsSince(evs: seq<Event>, id: U32)
    ensures Held(Buffered(evs), id) == Since(evs, id)
    decreases |evs|
  {
    if evs != [] {
      var front, e := evs[..|evs| - 1], evs[|evs| - 1];
      BufferedIsSince(front, id);
      if e.Rows? {
        HeldAfterAdding(Buffered(front), e.changes, id);
      } else {
        HeldAfterClearing(Buffered(front), e.Ids(), id);
      }
    }
  }

  // ---- Flushing hands over each id once ----

  lemma {:induction false} FlushedWithout(p: Pending, ids: seq<U32>, id: U32, t: Time)
    requires id !in p
    ensures Flushed(p, ids, t) == Flushed(p, Without(ids, id), t)
    decreases |ids|
  {
    if ids != [] {
      var x := ids[0];
      FlushedWithout(p - {x}, ids[1..], id, t);
      if x == id {
        assert p - {x} == p;
        assert Without(ids, id) == Without(ids[1..], id);
      } else {
        assert Without(ids, id)[0] == x && Without(ids, id)[1..] == Without(ids[1..], id);
      }
    }
  }

  /** Whether a buffer and an event list agree on the ids of a list. */
  ghost predicate Agrees(p: Pending, evs: seq<Event>, ids: seq<U32>) {
    forall id :: id in ids ==> Held(p, id) == Since(evs, id)
  }

  lemma {:induction false} WithoutKeeps(ids: seq<U32>, id: U32)
    ensures forall x :: x in Without(ids, id) <==> x in ids && x != id
    decreases |ids|
  {
    if ids != [] {
      WithoutKeeps(ids[1..], id);
      assert ids == [ids[0]] + ids[1..];
    }
  }

  lemma {:induction false} FlushedIsGathered(p: Pending, evs: seq<Event>, ids: seq<U32>, t: Time)
    requires Agrees(p, evs, ids)
    ensures Flushed(p, ids, t) == Gathered(evs, Distinct(ids), t)
    decreases |ids|
  {
    if ids != [] {
      var x := ids[0];
      var rest := Without(ids[1..], x);
      FlushedWithout(p - {x}, ids[1..], x, t);
      WithoutKeeps(ids[1..], x);
      assert forall id :: id in rest ==> id in ids && Held(p - {x}, id) == Held(p, id);
      FlushedIsGathered(p - {x}, evs, rest, t);
      assert Distinct(ids)[0] == x && Distinct(ids)[1..] == Distinct(rest);
    }
  }

  ghost predicate AllAt(chs: seq<Change>, t: Time) {
    forall i :: 0 <= i < |chs| ==> chs[i].ts == t
  }

  lemma {:induction false} StampedAt(chs: seq<Change>, t: Time)
    ensures AllAt(Stamped(chs, t), t)
    decreases |chs|
  {
    if chs != [] {
      StampedAt(chs[..|chs| - 1], t);
    }
  }

  lemma {:induction false} FlushedAt(p: Pending, ids: seq<U32>, t: Time)
    ensures AllAt(Flushed(p, ids, t), t)
    decreases |ids|
  {
    if ids != [] {
      StampedAt(Held(p, ids[0]), t);
      FlushedAt(p - {ids[0]}, ids[1..], t);
    }
  }

  lemma {:induction false} KeptTogether(chs: seq<Change>, from: Time, to: Time, t: Time)
    requires AllAt(chs, t)
    ensures Kept(chs, from, to) == if InWindow(from, to, t) then chs else []
    decreases |chs|
  {
    if chs != [] {
      KeptTogether(chs[..|chs| - 1], from, to, t);
    }
  }

  lemma CommitHandsOver(w: Window, evs: seq<Event>, e: Event)
    requires e.Commit?
    ensures Kept(Flushed(Buffered(evs), e.Ids(), e.time), w.from, w.to) == HandedOver(w, evs, e)
  {
    var p := Buffered(evs);
    forall id | id in e.Ids()
      ensures Held(p, id) == Since(evs, id)
    {
      BufferedIsSince(evs, id);
    }
    FlushedIsGathered(p, evs, e.Ids(), e.time);
    FlushedAt(p, e.Ids(), e.time);
    KeptTogether(Flushed(p, e.Ids(), e.time), w.from, w.to, e.time);
  }

  // ---- What a run gives ----

  ghost predicate RunIs(o: Opts, evs: seq<Event>) {
    var r := Run(o, evs);
    && r.out == Limit(o.maxChanges, Output(o.window, UpToEnd(o.window, evs)))
    && r.state.emitted == |r.out|
    && (r.state.pastEnd <==> Past(o.window, evs))
    && (!r.state.pastEnd ==> r.state.pending == Buffered(evs))
  }

  lemma LimitAppend(o: Opts, a: seq<Change>, b: seq<Change>)
    ensures Limit(o.maxChanges, a) + Allowed(o, |Limit(o.maxChanges, a)|, b) == Limit(o.maxChanges, a + b)
  {
  }

  /** One more event, for every function of the event list. */
  lemma OneMore(o: Opts, evs: seq<Event>, e: Event)
    ensures
      var all, w, r := evs + [e], o.window, Run(o, evs);
      && Run(o, all) == (var s := Step(o, r.state, e); Result(s.state, r.out + s.out))
      && Output(w, all) == Output(w, evs) + HandedOver(w, evs, e)
      && (Past(w, all) <==> w.IsPast(e) || Past(w, evs))
      && UpToEnd(w, all) == (if Past(w, evs) then UpToEnd(w, evs) else all)
      && Buffered(all) == (if e.Rows? then AddedAll(Buffered(evs), e.changes) else Cleared(Buffered(evs), e.Ids()))
  {
    assert (evs + [e])[..|evs + [e]| - 1] == evs;
    hide Step, HandedOver, AddedAll, Cleared, Window.IsPast;
  }

  lemma StepBeforeEnd(o: Opts, s: State, evs: seq<Event>, e: Event)
    requires !s.pastEnd && s.pending == Buffered(evs)
    ensures
      var r := Step(o, s, e);
      && r.out == Allowed(o, s.emitted, HandedOver(o.window, evs, e))
      && r.state.emitted == s.emitted + |r.out|
      && (r.state.pastEnd <==> o.window.IsPast(e))
      && r.state.pending == (if e.Rows? then AddedAll(Buffered(evs), e.changes) else Cleared(Buffered(evs), e.Ids()))
  {
    if e.Commit? {
      CommitHandsOver(o.window, evs, e);
    }
    hide AddedAll, Flushed, Kept, Gathered, Buffered;
  }

  /** A run's output is that of the events up to the first commit after the window, cut at the change
      limit; until then the buffer is what the events leave open. */
  lemma {:induction false} RunOutput(o: Opts, evs: seq<Event>)
    ensures RunIs(o, evs)
    decreases |evs|
  {
    hide *;
    if evs == [] {
      RunOfNothing(o);
    } else {
      var front, e := evs[..|evs| - 1], evs[|evs| - 1];
      assert evs == front + [e];
      RunOutput(o, front);
      if Past(o.window, front) {
        StepAfterEnd(o, front, e);
      } else {
        StepOn(o, front, e);
      }
    }
  }

  lemma RunOfNothing(o: Opts)
    ensures RunIs(o, [])
  {
  }

  lemma StepOn(o: Opts, evs: seq<Event>, e: Event)
    requires RunIs(o, evs) && !Past(o.window, evs)
    ensures RunIs(o, evs + [e])
  {
    hide Run, Output, Past, UpToEnd, Buffered, AddedAll, Cleared, HandedOver, Limit, Allowed, Window.IsPast, Step;
    OneMore(o, evs, e);
    NotPastYet(o.window, evs);
    NotPastYet(o.window, evs + [e]);
    StepBeforeEnd(o, Run(o, evs).state, evs, e);
    LimitAppend(o, Output(o.window, evs), HandedOver(o.window, evs, e));
  }

  lemma StepAfterEnd(o: Opts, evs: seq<Event>, e: Event)
    requires RunIs(o, evs) && Past(o.window, evs)
    ensures RunIs(o, evs + [e])
  {
    OneMore(o, evs, e);
    hide Run, Output, Past, UpToEnd, Buffered, Limit;
    assert Run(o, evs).out + [] == Run(o, evs).out;
  }

  lemma NotPastYet(w: Window, evs: seq<Event>)
    ensures !Past(w, evs) ==> UpToEnd(w, evs) == evs
  {
  }

  lemma {:induction false} OpenEndNeverPast(w: Window, evs: seq<Event>)
    requires w.to.None?
    ensures !Past(w, evs)
    decreases |evs|
  {
    if evs != [] {
      OpenEndNeverPast(w, evs[..|evs| - 1]);
    }
  }

  /** The whole output of a run, transactions still open at the end included. */
  lemma TotalOutput(o: Opts, evs: seq<Event>)
    ensures Total(o, evs)
         == Limit(o.maxChanges, if o.window.Bounded() then Output(o.window, UpToEnd(o.window, evs))
                                else Output(o.window, evs) + Dumped(Buffered(evs)))
  {
    RunOutput(o, evs);
    hide Run, Limit, Dumped, Buffered;
    if !o.window.Bounded() {
      OpenEndNeverPast(o.window, evs);
      NotPastYet(o.window, evs);
      LimitAppend(o, Output(o.window, evs), Dumped(Buffered(evs)));
    }
  }

  /** A run limited to m changes gives exactly the first m changes of the unlimited run. */
  lemma LimitedRunIsPrefix(o: Opts, evs: seq<Event>)
    ensures Total(o, evs) == Limit(o.maxChanges, Total(o.(maxChanges := 0), evs))
  {
    TotalOutput(o, evs);
    TotalOutput(o.(maxChanges := 0), evs);
  }

  // ---- Stopping at the first commit after the window ----

  /** Commit times never go back. */
  ghost predicate Ordered(evs: seq<Event>) {
    forall i, j :: 0 <= i < j < |evs| && evs[i].Commit? && evs[j].Commit? && evs[i].time.Some? && evs[j].time.Some?
      ==> evs[i].time.value <= evs[j].time.value
  }

  lemma {:induction false} PastWitness(w: Window, evs: seq<Event>) returns (i: nat)
    requires Past(w, evs)
    ensures i < |evs| && w.IsPast(evs[i])
    decreases |evs|
  {
    i := |evs| - 1;
    if !w.IsPast(evs[i]) {
      i := PastWitness(w, evs[..|evs| - 1]);
    }
  }

  /** No event from index n on hands anything over. */
  ghost predicate SilentFrom(w: Window, evs: seq<Event>, n: nat) {
    forall j :: n <= j < |evs| ==> HandedOver(w, evs[..j], evs[j]) == []
  }

  lemma SilentStep(w: Window, evs: seq<Event>, n: nat)
    requires n < |evs|
    ensures SilentFrom(w, evs, n) <==> HandedOver(w, evs[..n], evs[n]) == [] && SilentFrom(w, evs, n + 1)
  {
    hide HandedOver;
  }

  lemma {:induction false} OutputGrows(w: Window, evs: seq<Event>, n: nat)
    requires n <= |evs|
    ensures |Output(w, evs[..n])| <= |Output(w, evs)|
    ensures SilentFrom(w, evs, n) <==> Output(w, evs[..n]) == Output(w, evs)
    decreases |evs| - n
  {
    hide HandedOver, Output;
    if n == |evs| {
      assert evs[..n] == evs;
    } else {
      assert evs[..n + 1] == evs[..n] + [evs[n]];
      OneMore(Opts(0, w), evs[..n], evs[n]);
      OutputGrows(w, evs, n + 1);
      SilentStep(w, evs, n);
      hide SilentFrom;
    }
  }

  /** Stopping early loses nothing exactly when no commit after the stop is in the window with changes
      to hand over. */
  lemma StopIsSilentIff(w: Window, evs: seq<Event>)
    ensures Output(w, UpToEnd(w, evs)) == Output(w, evs) <==> SilentFrom(w, evs, |UpToEnd(w, evs)|)
  {
    var u := UpToEnd(w, evs);
    assert evs[..|u|] == u;
    OutputGrows(w, evs, |u|);
  }

  lemma {:induction false} EndIsPast(w: Window, evs: seq<Event>, j: nat)
    requires |UpToEnd(w, evs)| <= j < |evs|
    ensures Past(w, evs[..j])
    decreases |evs|
  {
    var front := evs[..|evs| - 1];
    if j < |evs| - 1 {
      EndIsPast(w, front, j);
      assert front[..j] == evs[..j];
    } else {
      assert evs[..j] == front;
    }
  }

  /** With commit times that never go back, stopping at the first commit after the window gives what
      reading everything gives. */
  lemma OrderedStopIsExact(w: Window, evs: seq<Event>)
    requires Ordered(evs)
    ensures Output(w, UpToEnd(w, evs)) == Output(w, evs)
  {
    forall j | |UpToEnd(w, evs)| <= j < |evs|
      ensures HandedOver(w, evs[..j], evs[j]) == []
    {
      EndIsPast(w, evs, j);
      var i := PastWitness(w, evs[..j]);
      assert evs[..j][i] == evs[i];
    }
    StopIsSilentIff(w, evs);
  }

  lemma OnlyOpen(w: Window, evs: seq<Event>, ch: Change, t: Time)
    requires w.Admits(t) && Since(evs, ch.xid) == [ch]
    ensures HandedOver(w, evs, Commit(ch.xid, [], t)) == [ch.(ts := t)]
  {
    hide Since, Window.Admits;
    var ids := Commit(ch.xid, [], t).Ids();
    assert ids == [ch.xid] && Without([], ch.xid) == [] && Distinct(ids) == [ch.xid];
    assert [ch][..0] == [];
    assert Stamped([ch], t) == [ch.(ts := t)] && Gathered(evs, [], t) == [];
  }

  lemma OpenAcross(ch: Change, e: Event)
    requires ch.xid != 0 && !e.Rows? && ch.xid !in e.Ids()
    ensures Since([Rows([ch])] + [e], ch.xid) == [ch]
  {
    var one, two := [Rows([ch])], [Rows([ch])] + [e];
    assert two[..1] == one && one[..0] == [] && [ch][..0] == [];
    assert WithXid([ch], ch.xid) == [ch] && Since([], ch.xid) == [];
    assert Since(one, ch.xid) == [ch];
  }

  lemma NoEvents(w: Window, id: U32)
    ensures Output(w, []) == [] && !Past(w, []) && Buffered([]) == map[] && Since([], id) == []
    ensures FateOf(w, [], id) == Fate([], [], [], []) && Brought([], id) == [] && WithXid([], id) == []
  {
  }

  lemma DisorderedSteps(w: Window, ch: Change, e1: Event, e2: Event)
    requires w == Window(Some(0), Some(10)) && ch.xid == 7
    requires e1 == Commit(3, [], Some(20)) && e2 == Commit(7, [], Some(5))
    ensures w.IsPast(e1) && !w.IsPast(Rows([ch]))
    ensures HandedOver(w, [], Rows([ch])) == [] && HandedOver(w, [Rows([ch])], e1) == []
    ensures HandedOver(w, [Rows([ch])] + [e1], e2) == [ch.(ts := Some(5))]
  {
    assert e1.Ids() == [3];
    OpenAcross(ch, e1);
    OnlyOpen(w, [Rows([ch])] + [e1], ch, Some(5));
  }

  /** Commit times that go back do lose changes: a commit after the window hides a later commit whose
      time is in it. */
  lemma DisorderedStopLoses(ch: Change) returns (w: Window, evs: seq<Event>)
    requires ch.xid == 7
    ensures Output(w, evs) == [ch.(ts := Some(5))] && Output(w, UpToEnd(w, evs)) == []
  {
    hide *;
    w := Window(Some(0), Some(10));
    var e0, e1, e2: Event := Rows([ch]), Commit(3, [], Some(20)), Commit(7, [], Some(5));
    DisorderedSteps(w, ch, e1, e2);
    NoEvents(w, 7);
    evs := [e0] + [e1] + [e2];
    assert [] + [e0] == [e0];
    OneMore(Opts(0, w), [], e0);
    OneMore(Opts(0, w), [e0], e1);
    OneMore(Opts(0, w), [e0] + [e1], e2);
    NotPastYet(w, [e0]);
  }

  // ---- What becomes of each change ----

  /** What has become of the changes of one id: handed over (stamped), committed outside the window,
      aborted, or still open. */
  datatype Fate = Fate(kept: seq<Change>, filtered: seq<Change>, discarded: seq<Change>, open: seq<Change>)

  function FateStep(w: Window, f: Fate, e: Event, id: U32): Fate {
    match e
    case Rows(chs) => f.(open := f.open + WithXid(chs, id))
    case Commit(_, _, t) =>
      if id !in e.Ids() then f
      else if w.Admits(t) then f.(kept := f.kept + Stamped(f.open, t), open := [])
      else f.(filtered := f.filtered + f.open, open := [])
    case Abort(_, _) => if id in e.Ids() then f.(discarded := f.discarded + f.open, open := []) else f
    case Other => f
  }

  function FateOf(w: Window, evs: seq<Event>, id: U32): Fate {
    if evs == [] then Fate([], [], [], [])
    else FateStep(w, FateOf(w, evs[..|evs| - 1], id), evs[|evs| - 1], id)
  }

  /** Every change of an id that the events bring. */
  function Brought(evs: seq<Event>, id: U32): seq<Change> {
    if evs == [] then []
    else
      var front, e := Brought(evs[..|evs| - 1], id), evs[|evs| - 1];
      if e.Rows? then front + WithXid(e.changes, id) else front
  }

  lemma {:induction false} OpenIsSince(w: Window, evs: seq<Event>, id: U32)
    ensures FateOf(w, evs, id).open == Since(evs, id)
    decreases |evs|
  {
    if evs != [] {
      OpenIsSince(w, evs[..|evs| - 1], id);
    }
  }

  /** Changes apart from their commit time. */
  function Timeless(chs: seq<Change>): multiset<Change> {
    multiset(Stamped(chs, None))
  }

  lemma {:induction false} StampedAppend(a: seq<Change>, b: seq<Change>, t: Time)
    ensures Stamped(a + b, t) == Stamped(a, t) + Stamped(b, t)
    decreases |b|
  {
    if b == [] {
      assert a + b == a;
    } else {
      var b' := b[..|b| - 1];
      assert (a + b)[..|a + b| - 1] == a + b';
      StampedAppend(a, b', t);
    }
  }

  lemma {:induction false} StampedTwice(chs: seq<Change>, t: Time, u: Time)
    ensures Stamped(Stamped(chs, t), u) == Stamped(chs, u)
    decreases |chs|
  {
    if chs != [] {
      StampedTwice(chs[..|chs| - 1], t, u);
    }
  }

  lemma TimelessAppend(a: seq<Change>, b: seq<Change>, t: Time)
    ensures Timeless(a + b) == Timeless(a) + Timeless(b)
    ensures Timeless(a + Stamped(b, t)) == Timeless(a) + Timeless(b)
  {
    StampedAppend(a, b, None);
    StampedAppend(a, Stamped(b, t), None);
    StampedTwice(b, t, None);
  }

  lemma OneMoreFate(w: Window, evs: seq<Event>, e: Event, id: U32)
    ensures
      var all, f := evs + [e], FateOf(w, evs, id);
      && Brought(all, id) == (if e.Rows? then Brought(evs, id) + WithXid(e.changes, id) else Brought(evs, id))
      && FateOf(w, all, id) == FateStep(w, f, e, id)
  {
    assert (evs + [e])[..|evs + [e]| - 1] == evs;
    hide WithXid, FateStep;
  }

  function Sum(f: Fate): multiset<Change> {
    Timeless(f.kept) + Timeless(f.filtered) + Timeless(f.discarded) + Timeless(f.open)
  }

  lemma FateStepSum(w: Window, f: Fate, e: Event, id: U32)
    ensures Sum(FateStep(w, f, e, id)) == Sum(f) + if e.Rows? then Timeless(WithXid(e.changes, id)) else multiset{}
  {
    NothingTimeless();
    hide Timeless, Stamped, WithXid, Event.Ids, Window.Admits;
    match e
    case Rows(chs) => TimelessAppend(f.open, WithXid(chs, id), None);
    case Commit(_, _, t) =>
      TimelessAppend(f.kept, f.open, t);
      TimelessAppend(f.filtered, f.open, t);
    case Abort(_, _) => TimelessAppend(f.discarded, f.open, None);
    case Other =>
  }

  /** Conservation: every change an id brings is in exactly one of handed over, filtered, discarded
      and open. */
  lemma {:induction false} EveryChangeOnce(w: Window, evs: seq<Event>, id: U32)
    ensures Timeless(Brought(evs, id)) == Sum(FateOf(w, evs, id))
    decreases |evs|
  {
    hide *;
    if evs == [] {
      NoEvents(w, id);
      SumOfNothing();
    } else {
      var front, e := evs[..|evs| - 1], evs[|evs| - 1];
      assert evs == front + [e];
      EveryChangeOnce(w, front, id);
      OneMoreFate(w, front, e, id);
      FateStepSum(w, FateOf(w, front, id), e, id);
      if e.Rows? {
        TimelessAppend(Brought(front, id), WithXid(e.changes, id), None);
      }
    }
  }

  lemma SumOfNothing()
    ensures Timeless([]) == Sum(Fate([], [], [], []))
  {
    NothingTimeless();
  }

  lemma NothingTimeless()
    ensures Timeless([]) == multiset{}
  {
  }

  // ---- The output holds exactly the kept changes of each id ----

  lemma {:induction false} WithXidAppend(a: seq<Change>, b: seq<Change>, id: U32)
    ensures WithXid(a + b, id) == WithXid(a, id) + WithXid(b, id)
    decreases |b|
  {
    if b == [] {
      assert a + b == a;
    } else {
      var b' := b[..|b| - 1];
      assert (a + b)[..|a + b| - 1] == a + b';
      WithXidAppend(a, b', id);
    }
  }

  lemma WithXidOne(ch: Change, id: U32, t: Time)
    ensures WithXid([ch], id) == if ch.xid == id && id != 0 then [ch] else []
    ensures Stamped([ch], t) == [ch.(ts := t)]
  {
    var one := [ch];
    assert one[..0] == [];
  }

  lemma {:induction false} WithXidTwice(chs: seq<Change>, id: U32, other: U32)
    ensures WithXid(WithXid(chs, id), other) == if id == other then WithXid(chs, id) else []
    decreases |chs|
  {
    if chs != [] {
      var front, ch := chs[..|chs| - 1], chs[|chs| - 1];
      WithXidTwice(front, id, other);
      if ch.xid == id && id != 0 {
        WithXidAppend(WithXid(front, id), [ch], other);
        WithXidOne(ch, other, None);
      }
    }
  }

  lemma {:induction false} SinceHasXid(evs: seq<Event>, id: U32, other: U32)
    ensures WithXid(Since(evs, id), other) == if id == other then Since(evs, id) else []
    decreases |evs|
  {
    if evs != [] {
      var front, e := evs[..|evs| - 1], evs[|evs| - 1];
      SinceHasXid(front, id, other);
      if e.Rows? && id !in e.Ids() {
        WithXidAppend(Since(front, id), WithXid(e.changes, id), other);
        WithXidTwice(e.changes, id, other);
      }
    }
  }

  lemma {:induction false} WithXidStamped(chs: seq<Change>, id: U32, t: Time)
    ensures WithXid(Stamped(chs, t), id) == Stamped(WithXid(chs, id), t)
    decreases |chs|
  {
    if chs != [] {
      var front, ch := chs[..|chs| - 1], chs[|chs| - 1];
      var front' := Stamped(front, t);
      WithXidStamped(front, id, t);
      StampedAppend(WithXid(front, id), [ch], t);
      WithXidOne(ch, id, t);
      WithXidAppend(front', [ch.(ts := t)], id);
      WithXidOne(ch.(ts := t), id, t);
    }
  }

  ghost predicate NoRepeats(ids: seq<U32>) {
    forall i, j :: 0 <= i < j < |ids| ==> ids[i] != ids[j]
  }

  lemma {:induction false} GatheredHasXid(evs: seq<Event>, ids: seq<U32>, t: Time, id: U32)
    requires NoRepeats(ids)
    ensures WithXid(Gathered(evs, ids, t), id) == if id in ids then Stamped(Since(evs, id), t) else []
    decreases |ids|
  {
    if ids != [] {
      var x, rest := ids[0], ids[1..];
      assert ids == [x] + rest;
      hide Since, Stamped, WithXid;
      WithXidAppend(Stamped(Since(evs, x), t), Gathered(evs, rest, t), id);
      WithXidStamped(Since(evs, x), id, t);
      SinceHasXid(evs, x, id);
      GatheredHasXid(evs, rest, t, id);
      assert Stamped([], t) == [] by { NothingStamped(t); }
    } else {
      assert WithXid([], id) == [];
    }
  }

  lemma NothingStamped(t: Time)
    ensures Stamped([], t) == []
  {
  }

  lemma {:induction false} DistinctIds(ids: seq<U32>)
    ensures
      var d := Distinct(ids);
      NoRepeats(d) && forall id :: id in d <==> id in ids
    decreases |ids|
  {
    if ids != [] {
      WithoutKeeps(ids[1..], ids[0]);
      DistinctIds(Without(ids[1..], ids[0]));
      assert ids == [ids[0]] + ids[1..];
    }
  }

  lemma HandedOverHasXid(w: Window, evs: seq<Event>, e: Event, id: U32)
    ensures WithXid(HandedOver(w, evs, e), id)
         == if e.Commit? && w.Admits(e.time) && id in e.Ids() then Stamped(Since(evs, id), e.time) else []
  {
    NothingWithXid(id);
    hide Since, Gathered, Stamped, Distinct, WithXid, Window.Admits;
    if e.Commit? {
      DistinctIds(e.Ids());
      GatheredHasXid(evs, Distinct(e.Ids()), e.time, id);
    }
  }

  /** The output's changes of an id are exactly the ones kept, in order, so no filtered, aborted or
      open change ever comes out. */
  lemma {:induction false} OutputKeeps(w: Window, evs: seq<Event>, id: U32)
    ensures WithXid(Output(w, evs), id) == FateOf(w, evs, id).kept
    decreases |evs|
  {
    hide *;
    NoEvents(w, id);
    if evs != [] {
      var front, e := evs[..|evs| - 1], evs[|evs| - 1];
      assert evs == front + [e];
      OutputKeeps(w, front, id);
      OpenIsSince(w, front, id);
      OneMore(Opts(0, w), front, e);
      OneMoreFate(w, front, e, id);
      WithXidAppend(Output(w, front), HandedOver(w, front, e), id);
      HandedOverHasXid(w, front, e, id);
      KeptByStep(w, FateOf(w, front, id), e, id);
    }
  }

  lemma KeptByStep(w: Window, f: Fate, e: Event, id: U32)
    ensures FateStep(w, f, e, id).kept
         == f.kept + if e.Commit? && w.Admits(e.time) && id in e.Ids() then Stamped(f.open, e.time) else []
  {
    hide Stamped, Window.Admits, Event.Ids;
  }

  lemma NothingWithXid(id: U32)
    ensures WithXid([], id) == []
  {
  }
}
