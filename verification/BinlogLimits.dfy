/** The limits of a dump: transaction ids, bytes read, and how a transaction's rows are handed over under them
    (flashback_mysql_dump.go, flashback_mysql.go:485-500). */
module BinlogLimits {
  import opened Bytes
  import opened Options
  import opened Changes
  import opened Binlog
  import opened BinlogRows
  import opened BinlogServer
  import opened BinlogRun

  // ---- Transaction ids ----

  /** From the first id on, and not beyond the last; an unknown id, 0, passes the last but not the first. */
  predicate InRange(env: Env, id: int) {
    (env.startXid > 0 ==> id != 0 && env.startXid <= id) && (env.stopXid > 0 && id > 0 ==> id <= env.stopXid)
  }

  predicate Allowed(env: Env, ch: Change) {
    InRange(env, if ch.xid64 != 0 then ch.xid64 else ch.xid)
  }

  predicate AllAllowed(env: Env, out: seq<Change>) {
    forall i :: 0 <= i < |out| ==> Allowed(env, out[i])
  }

  lemma EmitAllowed(env: Env, out: seq<Change>, ch: Change)
    requires AllAllowed(env, out)
    ensures AllAllowed(env, Emit(env, out, ch).out)
  {
  }

  lemma {:induction false} FlushAllowed(env: Env, out: seq<Change>, pending: seq<Change>, xid: int)
    requires AllAllowed(env, out)
    ensures AllAllowed(env, Flush(env, out, pending, xid).out)
    decreases |pending|
  {
    hide Emit, AllAllowed;
    if pending != [] {
      var ch := pending[0].(xid64 := xid);
      EmitAllowed(env, out, ch);
      var h := Emit(env, out, ch);
      if h.ok { FlushAllowed(env, h.out, pending[1..], xid); }
    }
  }

  lemma StepAllowed(env: Env, m: Mem, ev: Event)
    requires AllAllowed(env, m.out)
    ensures AllAllowed(env, Step(env, m, ev).mem.out)
  {
    hide Emit, Flush, AllAllowed, Joined, Wanted, EndsDump, TxnBoundary, DdlOp, DdlChange;
    FlushAllowed(env, m.out, m.pending, 0);
    if ev.body.Xid? { FlushAllowed(env, m.out, m.pending, ev.body.xid); }
    if ev.body.Query? { EmitAllowed(env, m.out, DdlChange(ev.ts, ev.body.schema, ev.body.text)); }
  }

  lemma {:induction false} FeedAllowed(env: Env, m: Mem, events: seq<Event>)
    requires AllAllowed(env, m.out)
    ensures AllAllowed(env, Feed(env, m, events).mem.out)
    decreases |events|
  {
    hide Step, AllAllowed;
    if events != [] {
      StepAllowed(env, m, events[0]);
      var n := Step(env, m, events[0]);
      if n.status.None? { FeedAllowed(env, n.mem, events[1..]); }
    }
  }

  lemma FlushedAllowed(env: Env, m: Mem)
    requires AllAllowed(env, m.out)
    ensures AllAllowed(env, Flushed(env, m, 0).out)
  {
    hide Flush, AllAllowed;
    FlushAllowed(env, m.out, m.pending, 0);
  }

  /** Whatever the log, the connections and the caller's answers, no change is handed over whose transaction
      id is out of range. */
  lemma {:induction false} RunAllowed(env: Env, log: Log, m: Mem, faults: seq<Fault>, left: nat)
    requires AllAllowed(env, m.out)
    ensures AllAllowed(env, Run(env, log, m, faults, left).mem.out)
    decreases |faults|
  {
    hide AllAllowed, Feed, Sent, Flushed;
    FlushedAllowed(env, m);
    var s := Sent(log, m.curFile, m.resumePos);
    if s.Some? {
      FeedAllowed(env, m, Delivered(s.value, faults));
      var n := Feed(env, m, Delivered(s.value, faults));
      FlushedAllowed(env, n.mem);
      if n.status.None? && faults != [] && Breaks(s.value, faults) && left > 0 && faults[0].transient {
        RunAllowed(env, log, n.mem, faults[1..], left - 1);
      }
    }
  }

  /** A transaction's rows, which have no id of their own, are handed over together if its id is in range, and
      the dump goes on unless the id is beyond the last. */
  lemma {:induction false} TransactionHanded(env: Env, out: seq<Change>, pending: seq<Change>, xid: int)
    requires forall out', ch :: env.accept(out', ch)
    requires forall i :: 0 <= i < |pending| ==> pending[i].xid == 0
    ensures var beyond := env.stopXid > 0 && xid > env.stopXid;
            Flush(env, out, pending, xid)
            == Handed(if InRange(env, xid) then out + Stamp(pending, xid) else out, !beyond)
    decreases |pending|
  {
    if pending == [] {
      assert out + [] == out;
    } else {
      var first := pending[0].(xid64 := xid);
      if InRange(env, xid) {
        TransactionHanded(env, out + [first], pending[1..], xid);
        assert out + ([first] + Stamp(pending[1..], xid)) == out + [first] + Stamp(pending[1..], xid);
      } else if !(env.stopXid > 0 && xid > env.stopXid) {
        TransactionHanded(env, out, pending[1..], xid);
      }
    }
  }

  // ---- Bytes ----

  /** The bytes of the events in the window or without a time, and of those before it. */
  function WindowBytes(env: Env, events: seq<Event>): nat {
    if events == [] then 0
    else (if events[0].ts == 0 || env.target <= events[0].ts then events[0].size else 0) + WindowBytes(env, events[1..])
  }

  function EarlierBytes(env: Env, events: seq<Event>): nat {
    if events == [] then 0
    else (if 0 < events[0].ts < env.target then events[0].size else 0) + EarlierBytes(env, events[1..])
  }

  lemma StepBytes(env: Env, m: Mem, ev: Event)
    ensures var n := Step(env, m, ev);
            && n.mem.bytes == m.bytes + WindowBytes(env, [ev])
            && n.mem.skipBytes == m.skipBytes + EarlierBytes(env, [ev])
            && (n.status == Some(ByteTrunc) <==>
                env.maxBytes > 0 && (ev.ts == 0 || env.target <= ev.ts) && n.mem.bytes > env.maxBytes)
            && (n.status == Some(TooFarBack) <==>
                env.maxBytes > 0 && 0 < ev.ts < env.target && n.mem.skipBytes > 2 * env.maxBytes)
  {
    hide Flush, Joined, Wanted, EndsDump, TxnBoundary, DdlOp, DdlChange, Emit;
    assert [ev][1..] == [];
  }

  /** The counts of a feed are the sums of the events read; it is cut for its length exactly when the bytes of the
      window pass the limit, and as too far back exactly when those before it pass twice the limit. */
  lemma {:induction false} FeedBytes(env: Env, m: Mem, events: seq<Event>) returns (k: nat)
    requires env.maxBytes > 0 ==> m.bytes <= env.maxBytes && m.skipBytes <= 2 * env.maxBytes
    ensures k <= |events|
    ensures var n := Feed(env, m, events);
            && n.mem.bytes == m.bytes + WindowBytes(env, events[..k])
            && n.mem.skipBytes == m.skipBytes + EarlierBytes(env, events[..k])
            && (n.status.None? ==> k == |events|)
            && (n.status == Some(ByteTrunc) <==> env.maxBytes > 0 && n.mem.bytes > env.maxBytes)
            && (n.status == Some(TooFarBack) <==> env.maxBytes > 0 && n.mem.skipBytes > 2 * env.maxBytes)
    decreases |events|
  {
    hide Step;
    if events == [] {
      k := 0;
    } else {
      StepBytes(env, m, events[0]);
      var n := Step(env, m, events[0]);
      assert [events[0]][1..] == [];
      if n.status.Some? {
        k := 1;
        assert events[..1] == [events[0]];
      } else {
        var j := FeedBytes(env, n.mem, events[1..]);
        k := j + 1;
        assert events[..k][0] == events[0] && events[..k][1..] == events[1..][..j];
      }
    }
  }

  /** A commit before the window hands nothing over, and ends the dump exactly if its id is beyond the last. */
  lemma EarlyCommit(env: Env, m: Mem, ev: Event)
    requires ev.body.Xid? && 0 < ev.ts < env.target && ev.ts <= env.end && env.endFile == "" && env.maxBytes <= 0
    ensures var n := Step(env, m, ev);
            && n.mem.out == m.out && n.mem.pending == []
            && n.status == if env.stopXid > 0 && ev.body.xid > env.stopXid then Some(Stopped) else None
  {
  }
}
