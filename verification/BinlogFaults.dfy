/** What a binlog dump hands over does not depend on where its connections break, as long as none breaks
    between a change of file and the next event with a position. */
module BinlogFaults {
  import opened Bytes
  import opened Options
  import opened Binlog
  import opened BinlogRows
  import opened BinlogDump
  import opened BinlogServer
  import opened BinlogRun

  // ---- All that is received ----

  /** The events of all connections, one after another. */
  function Received(log: Log, file: string, pos: U32, faults: seq<Fault>, left: nat): seq<Event>
    decreases |faults|
  {
    match Sent(log, file, pos)
    case None => []
    case Some(s) =>
      var d := Delivered(s, faults);
      if !Breaks(s, faults) || !faults[0].transient || left == 0 then d
      else d + Received(log, FileAfter(file, d), PosAfter(pos, d), faults[1..], left - 1)
  }

  lemma {:induction false} FeedAppend(env: Env, m: Mem, a: seq<Event>, b: seq<Event>)
    ensures var n := Feed(env, m, a);
            Feed(env, m, a + b) == if n.status.Some? then n else Feed(env, n.mem, b)
    decreases |a|
  {
    hide Step;
    if a == [] {
      assert a + b == b;
    } else {
      assert (a + b)[1..] == a[1..] + b;
      FeedAppend(env, Step(env, m, a[0]).mem, a[1..], b);
    }
  }

  lemma StepPlace(env: Env, m: Mem, ev: Event)
    ensures var n := Step(env, m, ev);
            n.status.None? ==> n.mem.curFile == (if ev.body.Rotate? then ev.body.next else m.curFile)
                               && n.mem.resumePos == (if ev.logPos > 0 then ev.logPos else m.resumePos)
  {
    hide EndsDump, Wanted, Flush, Emit, DdlOp, TxnBoundary;
  }

  /** The dump tracks the file and the position of what it has read. */
  lemma {:induction false} FeedPlace(env: Env, m: Mem, d: seq<Event>)
    ensures var n := Feed(env, m, d);
            n.status.None? ==> n.mem.curFile == FileAfter(m.curFile, d) && n.mem.resumePos == PosAfter(m.resumePos, d)
    decreases |d|
  {
    hide Step;
    if d != [] {
      var before, last := d[..|d| - 1], d[|d| - 1];
      FeedPlace(env, m, before);
      assert d == before + [last];
      FeedAppend(env, m, before, [last]);
      var n := Feed(env, m, before);
      OneEvent(env, n.mem, last);
      StepPlace(env, n.mem, last);
    }
  }

  lemma OneEvent(env: Env, m: Mem, ev: Event)
    ensures Feed(env, m, [ev]) == Step(env, m, ev)
  {
    hide Step;
    assert [ev][1..] == [];
  }

  /** A run hands over what feeding it everything received at once would. */
  lemma {:induction false} RunIsFeed(env: Env, log: Log, m: Mem, faults: seq<Fault>, left: nat)
    ensures var n := Feed(env, m, Received(log, m.curFile, m.resumePos, faults, left));
            var r := Run(env, log, m, faults, left);
            r.mem.out == Taken(env, n)
            && if n.status.Some? then r.status == n.status else r.status in {Some(Cancelled), Some(Broken)}
    decreases |faults|
  {
    hide Flushed, Sent, FileAfter, PosAfter;
    match Sent(log, m.curFile, m.resumePos) {
      case None =>
      case Some(s) =>
        var d := Delivered(s, faults);
        if Breaks(s, faults) && faults[0].transient && left > 0 {
          var n := Feed(env, m, d);
          var rest := Received(log, FileAfter(m.curFile, d), PosAfter(m.resumePos, d), faults[1..], left - 1);
          FeedAppend(env, m, d, rest);
          FeedPlace(env, m, d);
          RunIsFeed(env, log, n.mem, faults[1..], left - 1);
        }
    }
  }

  // ---- Breaks that do no harm ----

  /** Every break finds the client at rest, or in a file nothing of which lies before its position. */
  ghost predicate Calm(log: Log, file: string, pos: U32, faults: seq<Fault>)
    decreases |faults|
  {
    match Sent(log, file, pos)
    case None => false
    case Some(s) =>
      Breaks(s, faults) ==>
        var d := Delivered(s, faults);
        && faults[0].transient
        && (AtRest(file, d) || NothingBefore(log, FileAfter(file, d), PosAfter(pos, d)))
        && Calm(log, FileAfter(file, d), PosAfter(pos, d), faults[1..])
  }

  /** With calm breaks, all that is received comes to one undisturbed connection. */
  lemma {:induction false} CalmDelivery(log: Log, file: string, pos: U32, faults: seq<Fault>, left: nat)
    requires GoodLog(log) && Calm(log, file, pos, faults) && |faults| <= left
    ensures Sent(log, file, pos).Some?
    ensures Tagged(file, Received(log, file, pos, faults, left)) == Tagged(file, Sent(log, file, pos).value)
    decreases |faults|
  {
    hide GoodLog, Sent, FileAfter, PosAfter, AtRest, NothingBefore, Tagged;
    var s := Sent(log, file, pos).value;
    if Breaks(s, faults) {
      var d := Delivered(s, faults);
      var file', pos' := FileAfter(file, d), PosAfter(pos, d);
      CalmDelivery(log, file', pos', faults[1..], left - 1);
      ReconnectContinuesIff(log, file, pos, s, faults[0].after);
      TaggedAppend(file, d, Received(log, file', pos', faults[1..], left - 1));
    }
  }

  lemma {:induction false} CalmNotBroken(env: Env, log: Log, m: Mem, faults: seq<Fault>, left: nat)
    requires GoodLog(log) && Calm(log, m.curFile, m.resumePos, faults) && |faults| <= left
    ensures Run(env, log, m, faults, left).status != Some(Broken)
    decreases |faults|
  {
    hide GoodLog, Sent, FileAfter, PosAfter, AtRest, NothingBefore, Step, Flushed;
    var s := Sent(log, m.curFile, m.resumePos).value;
    var d := Delivered(s, faults);
    FeedPlace(env, m, d);
    FeedEnds(env, m, d);
    var n := Feed(env, m, d);
    if n.status.None? && Breaks(s, faults) { CalmNotBroken(env, log, n.mem, faults[1..], left - 1); }
  }

  /** Events themselves end a dump only by its stop rules or a limit. */
  lemma {:induction false} FeedEnds(env: Env, m: Mem, d: seq<Event>)
    ensures Feed(env, m, d).status !in {Some(Broken), Some(Cancelled)}
    decreases |d|
  {
    hide Step;
    if d != [] {
      StepEnds(env, m, d[0]);
      FeedEnds(env, Step(env, m, d[0]).mem, d[1..]);
    }
  }

  lemma StepEnds(env: Env, m: Mem, ev: Event)
    ensures Step(env, m, ev).status !in {Some(Broken), Some(Cancelled)}
  {
    hide EndsDump, Wanted, Flush, Emit, DdlOp, TxnBoundary;
  }

  /** The dump's promise: whatever up to four transient disconnects befall it, none between a change of
      file and the next event with a position, a dump that hits no byte or row limit hands over of the
      log exactly each kept row, once and in log order, and each DDL statement of the window. */
  lemma {:induction false} DisconnectsDoNotShow(env: Env, log: Log, file: string, pos: U32, faults: seq<Fault>)
    requires GoodLog(log) && Calm(log, file, pos, faults) && |faults| <= 4
    requires Unlimited(env) && InTime(Tagged(file, Sent(log, file, pos).value))
    ensures var r := Run(env, log, Fresh(file, pos), faults, 4);
            var l := Tagged(file, Sent(log, file, pos).value);
            r.status != Some(Broken)
            && (r.status in {Some(Stopped), Some(Cancelled)} ==>
                RowsOnly(r.mem.out) == HandedRows(env, l, 0, Limit(env, l), Limit(env, l))
                && DdlOnly(r.mem.out) == HandedDdl(env, l, Limit(env, l)))
  {
    hide GoodLog, Sent, Tagged, Run, Feed, Received, RowsOnly, DdlOnly, HandedRows, HandedDdl, Limit, Taken, InTime;
    var m := Fresh(file, pos);
    CalmDelivery(log, file, pos, faults, 4);
    CalmNotBroken(env, log, m, faults, 4);
    RunIsFeed(env, log, m, faults, 4);
    var got := Received(log, file, pos, faults, 4);
    assert Tagged(file, got) == Tagged(file, Sent(log, file, pos).value);
    FeedEnds(env, m, got);
    DumpHandsOver(env, file, pos, got);
  }

  /** Within the byte and row limits as well, nothing is left to the outcome: the rows handed over are
      those of the log, and the dump ends by its stop rules or when the server has no more. */
  lemma {:induction false} DisconnectedDumpIsComplete(env: Env, log: Log, file: string, pos: U32, faults: seq<Fault>)
    requires GoodLog(log) && Calm(log, file, pos, faults) && |faults| <= 4 && Unlimited(env)
    requires var l := Tagged(file, Sent(log, file, pos).value); InTime(l) && WithinLimits(env, l)
    ensures var r := Run(env, log, Fresh(file, pos), faults, 4);
            var l := Tagged(file, Sent(log, file, pos).value);
            r.status == Some(if Limit(env, l) < |l| then Stopped else Cancelled)
            && RowsOnly(r.mem.out) == HandedRows(env, l, 0, Limit(env, l), Limit(env, l))
            && DdlOnly(r.mem.out) == HandedDdl(env, l, Limit(env, l))
  {
    hide GoodLog, Sent, Tagged, Run, Feed, Received, RowsOnly, DdlOnly, HandedRows, HandedDdl, Limit, Taken, InTime,
         WithinLimits;
    var m := Fresh(file, pos);
    CalmDelivery(log, file, pos, faults, 4);
    CalmNotBroken(env, log, m, faults, 4);
    RunIsFeed(env, log, m, faults, 4);
    var got := Received(log, file, pos, faults, 4);
    assert Tagged(file, got) == Tagged(file, Sent(log, file, pos).value);
    DumpIsComplete(env, file, pos, got);
  }

  /** The fifth connection that fails ends the dump, as broken, though none of them brought an event. */
  lemma FifthBreakEnds(env: Env, log: Log, m: Mem)
    requires Sent(log, m.curFile, m.resumePos).Some?
    ensures var b := Fault(0, true); Run(env, log, m, [b, b, b, b, b], 4).status == Some(Broken)
  {
    var b := Fault(0, true);
    BreakAtOnce(env, log, m, [b, b, b, b], 4);
    BreakAtOnce(env, log, m, [b, b, b], 3);
    BreakAtOnce(env, log, m, [b, b], 2);
    BreakAtOnce(env, log, m, [b], 1);
    BreakAtOnce(env, log, m, [], 0);
    assert [b] + [] == [b] && [b] + [b] == [b, b] && [b] + [b, b] == [b, b, b] && [b] + [b, b, b] == [b, b, b, b];
    assert [b] + [b, b, b, b] == [b, b, b, b, b];
  }

  lemma BreakAtOnce(env: Env, log: Log, m: Mem, faults: seq<Fault>, left: nat)
    requires Sent(log, m.curFile, m.resumePos).Some?
    ensures Run(env, log, m, [Fault(0, true)] + faults, left)
            == if left == 0 then Next(Flushed(env, m, 0), Some(Broken)) else Run(env, log, m, faults, left - 1)
  {
    hide Flushed, Sent;
    var all := [Fault(0, true)] + faults;
    assert all[1..] == faults;
    assert Delivered(Sent(log, m.curFile, m.resumePos).value, all) == [];
    assert Feed(env, m, []) == Next(m, None);
  }
}
