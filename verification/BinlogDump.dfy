/** What a dump makes of one stream of events: rows and DDL statements handed over, whatever ends it, and
    all of them when no limit does. */
module BinlogDump {
  import opened Bytes
  import opened Options
  import opened Changes
  import opened Binlog
  import opened BinlogRows

  /** The caller's changes once the stream gives no more: the pending rows go out too. */
  function Taken(env: Env, n: Next): seq<Change> {
    if n.status.None? then Flushed(env, n.mem, 0).out else n.mem.out
  }

  // ---- One stream of events ----

  lemma HoldsAlike(env: Env, l: seq<Item>, i: nat, m: Mem, m': Mem)
    requires i <= |l| && Holds(env, l, i, m)
    requires m'.pending == m.pending && m'.tables == m.tables && m'.out == m.out
    ensures Holds(env, l, i, m')
  {
  }

  /** Byte accounting leaves the rows alone. */
  lemma CountedKeeps(env: Env, m: Mem, ev: Event)
    ensures var c := Counted(env, Positioned(m, ev), ev);
            c.status in {None, Some(ByteTrunc), Some(TooFarBack)}
            && (c.status.None? ==> c.mem.pending == m.pending && c.mem.tables == m.tables && c.mem.out == m.out
                                   && c.mem.curFile == m.curFile)
  {
    hide Flushed;
  }

  lemma BodyKeepsFile(env: Env, m: Mem, ev: Event, skip: bool)
    ensures OnBody(env, m, ev, skip).mem.curFile == m.curFile
  {
    hide Wanted, Flush, Emit, DdlOp, TxnBoundary;
  }

  lemma StopHolds(env: Env, l: seq<Item>, i: nat, m: Mem)
    requires Unlimited(env) && i <= |l| && Holds(env, l, i, m)
    ensures RowsOnly(Flushed(env, m, 0).out) == HandedRows(env, l, 0, i, i)
    ensures DdlOnly(Flushed(env, m, 0).out) == HandedDdl(env, l, i)
  {
    hide Gathered, HandedRows, HandedDdl, TablesKnown, RowsOnly, DdlOnly, LastBoundary, Flush, Stamp;
    FlushAll(env, m.out, m.pending, 0);
    AtEnd(env, l, i);
    OnlyAppend(m.out, Stamp(m.pending, 0));
    OnlyOfRows(Stamp(m.pending, 0));
    assert DdlOnly(m.out) + [] == DdlOnly(m.out);
  }

  lemma LimitIs(env: Env, l: seq<Item>, i: nat)
    requires i <= |l| && (forall k :: 0 <= k < i ==> !Stops(env, l[k])) && (i < |l| ==> Stops(env, l[i]))
    ensures Limit(env, l) == i
  {
    hide Stops;
  }

  /** Without a stop, the event is inside the window unless it lies before it. */
  lemma SkipIs(env: Env, it: Item)
    requires !Stops(env, it) && it.ev.ts > 0
    ensures (EventWindow(it.ev.ts, env.target, env.end) == Skip) == (it.ev.ts < env.target)
  {
    hide PosReached;
  }

  /** Ended by its own rule or by the end of the stream, not by a limit. */
  predicate Undisturbed(n: Next) {
    n.status in {None, Some(Stopped)}
  }

  lemma ItemHolds(env: Env, l: seq<Item>, i: nat, m: Mem)
    requires Unlimited(env) && InTime(l) && i < |l| && Holds(env, l, i, m)
    requires !l[i].ev.body.Rotate? && l[i].file == m.curFile
    ensures var n := Step(env, m, l[i].ev);
            Undisturbed(n) ==>
              if Stops(env, l[i]) then
                n.status == Some(Stopped) && RowsOnly(n.mem.out) == HandedRows(env, l, 0, i, i)
                && DdlOnly(n.mem.out) == HandedDdl(env, l, i)
              else n.status.None? && Holds(env, l, i + 1, n.mem) && n.mem.curFile == m.curFile
  {
    hide Holds, HandedRows, HandedDdl, RowsOnly, DdlOnly, Counted, Positioned, EndsDump, OnBody, EventWindow, Flushed;
    var ev := l[i].ev;
    CountedKeeps(env, m, ev);
    var c := Counted(env, Positioned(m, ev), ev);
    if c.status.None? {
      HoldsAlike(env, l, i, m, c.mem);
      StopHolds(env, l, i, c.mem);
      if !Stops(env, l[i]) {
        SkipIs(env, l[i]);
        BodyHolds(env, l, i, c.mem);
        BodyKeepsFile(env, c.mem, ev, ev.ts < env.target);
      }
    }
  }

  lemma RotateHolds(env: Env, l: seq<Item>, i: nat, m: Mem, ev: Event)
    requires i <= |l| && Holds(env, l, i, m) && ev.body.Rotate?
    ensures var n := Step(env, m, ev);
            Undisturbed(n) ==> n.status.None? && Holds(env, l, i, n.mem) && n.mem.curFile == ev.body.next
  {
    hide Holds, Counted, Positioned;
    CountedKeeps(env, m, ev);
    var c := Counted(env, Positioned(m, ev), ev);
    if c.status.None? { HoldsAlike(env, l, i, m, c.mem.(curFile := ev.body.next)); }
  }

  lemma {:induction false} FeedHolds(env: Env, l: seq<Item>, i: nat, m: Mem, events: seq<Event>)
    requires Unlimited(env) && InTime(l) && i <= |l| && Holds(env, l, i, m)
    requires Tagged(m.curFile, events) == l[i..] && forall k :: 0 <= k < i ==> !Stops(env, l[k])
    ensures var n := Feed(env, m, events);
            Undisturbed(n) ==> RowsOnly(Taken(env, n)) == HandedRows(env, l, 0, Limit(env, l), Limit(env, l))
                               && DdlOnly(Taken(env, n)) == HandedDdl(env, l, Limit(env, l))
                               && (n.status.Some? <==> Limit(env, l) < |l|)
    decreases |events|
  {
    hide Holds, HandedRows, HandedDdl, RowsOnly, DdlOnly, Step, Stops, Limit, Flushed;
    if events == [] {
      LimitIs(env, l, i);
      StopHolds(env, l, i, m);
    } else if events[0].body.Rotate? {
      RotateHolds(env, l, i, m, events[0]);
      var n := Step(env, m, events[0]);
      if n.status.None? { FeedHolds(env, l, i, n.mem, events[1..]); }
    } else {
      assert l[i] == l[i..][0] == Item(m.curFile, events[0]) && l[i + 1..] == l[i..][1..];
      ItemHolds(env, l, i, m);
      var n := Step(env, m, events[0]);
      if n.status.None? { FeedHolds(env, l, i + 1, n.mem, events[1..]); }
      else if Undisturbed(n) { LimitIs(env, l, i); }
    }
  }

  function Fresh(file: string, pos: U32): Mem {
    Mem(file, pos, [], map[], 0, 0, [])
  }

  lemma FreshHolds(env: Env, l: seq<Item>, file: string, pos: U32)
    ensures Holds(env, l, 0, Fresh(file, pos))
  {
  }

  /** Whatever the events are: a dump that no limit ends hands over, of the events before the first that
      ends it, each kept row once and in log order, and each DDL statement inside the window. */
  lemma DumpHandsOver(env: Env, file: string, pos: U32, events: seq<Event>)
    requires Unlimited(env) && InTime(Tagged(file, events))
    ensures var n := Feed(env, Fresh(file, pos), events);
            var l := Tagged(file, events);
            Undisturbed(n) ==> RowsOnly(Taken(env, n)) == HandedRows(env, l, 0, Limit(env, l), Limit(env, l))
                               && DdlOnly(Taken(env, n)) == HandedDdl(env, l, Limit(env, l))
                               && (n.status.Some? <==> Limit(env, l) < |l|)
  {
    hide Tagged, Holds, HandedRows, HandedDdl, RowsOnly, DdlOnly, Feed, Limit, Taken, InTime;
    var l := Tagged(file, events);
    FreshHolds(env, l, file, pos);
    assert l[0..] == l;
    FeedHolds(env, l, 0, Fresh(file, pos), events);
  }

  // ---- Dumps no limit ends ----

  /** No byte limit, and no transaction with more rows than are kept before the first event that ends
      the dump. */
  ghost predicate WithinLimits(env: Env, l: seq<Item>) {
    env.maxBytes <= 0 && forall i :: 0 <= i < Limit(env, l) ==> !TooMany(env, l, i)
  }

  lemma CountedFreely(env: Env, m: Mem, ev: Event)
    requires env.maxBytes <= 0
    ensures Counted(env, m, ev).status.None?
  {
  }

  lemma BelowLimit(env: Env, l: seq<Item>, i: nat)
    requires i < |l| && forall k :: 0 <= k <= i ==> !Stops(env, l[k])
    ensures i < Limit(env, l)
  {
    hide Stops;
  }

  lemma ItemUndisturbed(env: Env, l: seq<Item>, i: nat, m: Mem)
    requires Unlimited(env) && InTime(l) && i < |l| && Holds(env, l, i, m) && WithinLimits(env, l)
    requires !l[i].ev.body.Rotate? && l[i].file == m.curFile && forall k :: 0 <= k < i ==> !Stops(env, l[k])
    ensures Undisturbed(Step(env, m, l[i].ev))
  {
    hide Holds, Counted, Positioned, EndsDump, OnBody, EventWindow, Flushed, TooMany, Limit;
    var ev := l[i].ev;
    CountedKeeps(env, m, ev);
    CountedFreely(env, Positioned(m, ev), ev);
    var c := Counted(env, Positioned(m, ev), ev);
    HoldsAlike(env, l, i, m, c.mem);
    if !Stops(env, l[i]) {
      SkipIs(env, l[i]);
      BodyHolds(env, l, i, c.mem);
      BelowLimit(env, l, i);
    }
  }

  lemma RotateUndisturbed(env: Env, m: Mem, ev: Event)
    requires env.maxBytes <= 0 && ev.body.Rotate?
    ensures Undisturbed(Step(env, m, ev))
  {
    hide Counted, Positioned;
    CountedFreely(env, Positioned(m, ev), ev);
  }

  lemma {:induction false} FeedUndisturbed(env: Env, l: seq<Item>, i: nat, m: Mem, events: seq<Event>)
    requires Unlimited(env) && InTime(l) && i <= |l| && Holds(env, l, i, m) && WithinLimits(env, l)
    requires Tagged(m.curFile, events) == l[i..] && forall k :: 0 <= k < i ==> !Stops(env, l[k])
    ensures Undisturbed(Feed(env, m, events))
    decreases |events|
  {
    hide Holds, Step, Stops, HandedRows, HandedDdl, RowsOnly, DdlOnly, TooMany;
    if events != [] {
      var n := Step(env, m, events[0]);
      if events[0].body.Rotate? {
        RotateUndisturbed(env, m, events[0]);
        RotateHolds(env, l, i, m, events[0]);
        if n.status.None? { FeedUndisturbed(env, l, i, n.mem, events[1..]); }
      } else {
        assert l[i] == l[i..][0] == Item(m.curFile, events[0]) && l[i + 1..] == l[i..][1..];
        ItemUndisturbed(env, l, i, m);
        ItemHolds(env, l, i, m);
        if n.status.None? { FeedUndisturbed(env, l, i + 1, n.mem, events[1..]); }
      }
    }
  }

  /** Within the limits nothing cuts a dump short, so what it hands over is settled by the log alone. */
  lemma DumpIsComplete(env: Env, file: string, pos: U32, events: seq<Event>)
    requires Unlimited(env) && InTime(Tagged(file, events)) && WithinLimits(env, Tagged(file, events))
    ensures var n := Feed(env, Fresh(file, pos), events);
            var l := Tagged(file, events);
            n.status == (if Limit(env, l) < |l| then Some(Stopped) else None)
            && RowsOnly(Taken(env, n)) == HandedRows(env, l, 0, Limit(env, l), Limit(env, l))
            && DdlOnly(Taken(env, n)) == HandedDdl(env, l, Limit(env, l))
  {
    hide Tagged, Holds, HandedRows, HandedDdl, RowsOnly, DdlOnly, Feed, Limit, Taken, InTime, WithinLimits;
    var l := Tagged(file, events);
    FreshHolds(env, l, file, pos);
    assert l[0..] == l;
    FeedUndisturbed(env, l, 0, Fresh(file, pos), events);
    DumpHandsOver(env, file, pos, events);
  }
}
