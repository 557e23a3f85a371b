/** A whole dump with its disconnects (flashbackDumpMySQLBinlog): its connections to the server and the
    loop over their events. */
module BinlogRun {
  import opened Bytes
  import opened Options
  import opened Changes
  import opened Texts
  import opened Binlog
  import opened BinlogDump
  import opened BinlogServer

  const OUTER_RETRY := 4

  /** A connection that fails after some of its events; a failure that is not transient ends the dump. */
  datatype Fault = Fault(after: nat, transient: bool)

  predicate Breaks(s: seq<Event>, faults: seq<Fault>) {
    faults != [] && faults[0].after <= |s|
  }

  function Delivered(s: seq<Event>, faults: seq<Fault>): seq<Event> {
    if Breaks(s, faults) then s[..faults[0].after] else s
  }

  /** The rest of a connection; a stream without more events waits until it is cancelled. */
  function OnConnection(env: Env, log: Log, m: Mem, s: seq<Event>, faults: seq<Fault>, left: nat): Next
    decreases |faults|, 0
  {
    var n := Feed(env, m, Delivered(s, faults));
    if n.status.Some? then n
    else if !Breaks(s, faults) then Next(Flushed(env, n.mem, 0), Some(Cancelled))
    else if !faults[0].transient || left == 0 then Next(Flushed(env, n.mem, 0), Some(Broken))
    else Run(env, log, n.mem, faults[1..], left - 1)
  }

  /** The dump from a new connection on. */
  function Run(env: Env, log: Log, m: Mem, faults: seq<Fault>, left: nat): Next
    decreases |faults|, 1
  {
    match Sent(log, m.curFile, m.resumePos)
    case None => Next(Flushed(env, m, 0), Some(Broken))
    case Some(s) => OnConnection(env, log, m, s, faults, left)
  }

  // ---- The loop ----

  function Sooner(faults: seq<Fault>): seq<Fault> {
    if faults == [] || faults[0].after == 0 then faults
    else [faults[0].(after := faults[0].after - 1)] + faults[1..]
  }

  lemma NextEvent(env: Env, log: Log, m: Mem, s: seq<Event>, faults: seq<Fault>, left: nat)
    requires s != [] && (faults == [] || faults[0].after > 0)
    ensures var n := Step(env, m, s[0]);
            OnConnection(env, log, m, s, faults, left)
            == if n.status.Some? then n else OnConnection(env, log, n.mem, s[1..], Sooner(faults), left)
  {
    hide Step, Flushed, Run;
    var d := Delivered(s, faults);
    assert d[1..] == Delivered(s[1..], Sooner(faults)) && d[0] == s[0];
    if faults != [] { assert Sooner(faults)[1..] == faults[1..]; }
  }

  lemma NoMoreEvents(env: Env, log: Log, m: Mem, s: seq<Event>, faults: seq<Fault>, left: nat)
    requires s == [] || (faults != [] && faults[0].after == 0)
    ensures OnConnection(env, log, m, s, faults, left) ==
            if faults == [] || faults[0].after > 0 then Next(Flushed(env, m, 0), Some(Cancelled))
            else if !faults[0].transient || left == 0 then Next(Flushed(env, m, 0), Some(Broken))
            else Run(env, log, m, faults[1..], left - 1)
  {
    hide Flushed, Run, Step;
    assert Delivered(s, faults) == [];
  }

  lemma CountedKeepsFile(env: Env, m: Mem, ev: Event)
    ensures Counted(env, m, ev).mem.curFile == m.curFile
  {
    hide Flush;
  }

  class Dumper {
    var curFile: string
    var resumePos: U32
    var outerLeft: nat
    var pending: seq<Change>
    var tables: map<nat, Name>
    var bytes: int
    var skipBytes: int
    var out: seq<Change>

    ghost function State(): Mem
      reads this
    {
      Mem(curFile, resumePos, pending, tables, bytes, skipBytes, out)
    }

    /** Positions below the binlog's magic number are raised to it. */
    constructor (startFile: string, startPos: U32)
      ensures State() == Fresh(Trim(startFile), if startPos < 4 then 4 else startPos) && outerLeft == 4
    {
      curFile := Trim(startFile);
      resumePos := if startPos < 4 then 4 else startPos;
      outerLeft := OUTER_RETRY;
      pending, tables, bytes, skipBytes, out := [], map[], 0, 0, [];
    }

    method EmitChange(env: Env, ch: Change) returns (ok: bool)
      modifies this`out
      ensures Handed(out, ok) == Emit(env, old(out), ch)
    {
      var xid := ChangeXid(ch);
      if !XidInRange(xid, env.startXid, env.stopXid) { return !XidPastStop(xid, env.stopXid); }
      if !env.accept(out, ch) { return false; }
      out := out + [ch];
      return !XidPastStop(xid, env.stopXid);
    }

    method FlushPending(env: Env, xid: int) returns (ok: bool)
      modifies this`out, this`pending
      ensures pending == [] && Handed(out, ok) == Flush(env, old(out), old(pending), xid)
    {
      hide Emit;
      ghost var rows := pending;
      var i := 0;
      while i < |pending|
        invariant i <= |pending| == |rows| && pending[i..] == rows[i..]
        invariant Flush(env, old(out), rows, xid) == Flush(env, out, rows[i..], xid)
      {
        assert pending[i] == pending[i..][0] && rows[i..][1..] == rows[i + 1..];
        pending := pending[i := pending[i].(xid64 := xid)];
        var more := EmitChange(env, pending[i]);
        if !more {
          pending := [];
          return false;
        }
        assert pending[i + 1..] == rows[i + 1..];
        i := i + 1;
      }
      pending := [];
      return !XidPastStop(xid, env.stopXid);
    }

    method AppendRows(env: Env, ev: Event) returns (status: Option<Status>)
      requires ev.body.Rows?
      modifies this`pending
      ensures Next(State(), status) == OnBody(env, old(State()), ev, false)
    {
      hide RowChanges, Template;
      var name := ev.body.map_;
      if name.None? && ev.body.id in tables { name := Some(tables[ev.body.id]); }
      assert pending + [] == pending;
      if name.None? { return None; }
      var rel := env.dict(name.value);
      if rel.None? { return None; }
      status := TakeRows(Template(ev.ts, name.value, rel.value), ev.body.op, ev.body.images);
    }

    /** The changes of a rows event, row by row, up to the one that is too many. */
    method TakeRows(t: Change, op: RowOp, images: seq<Row>) returns (status: Option<Status>)
      modifies this`pending
      ensures var q := Joined(old(pending), RowChanges(t, op, images));
              pending == q.rows && status == if q.full then Some(TooManyRows) else None
    {
      var step := if op == Updated then 2 else 1;
      var i := 0;
      while i + step - 1 < |images|
        invariant i <= |images| && images[0..] == images
        invariant Joined(old(pending), RowChanges(t, op, images)) == Joined(pending, RowChanges(t, op, images[i..]))
      {
        var ch := match op
          case Inserted => t.(op := Insert, after := images[i])
          case Deleted => t.(op := Delete, before := images[i])
          case Updated => t.(op := Update, before := images[i], after := images[i + 1]);
        MoreRows(t, op, images, i, step, ch);
        pending := pending + [ch];
        if |pending| > MAX_PENDING { return Some(TooManyRows); }
        i := i + step;
      }
      return None;
    }

    method OnQueryEvent(env: Env, ev: Event, skip: bool) returns (status: Option<Status>)
      requires ev.body.Query?
      modifies this`out, this`pending
      ensures Next(State(), status) == OnQuery(env, old(State()), ev, skip)
    {
      hide Flush, Emit, TxnBoundary, DdlOp, DdlChange;
      var ok := true;
      match TxnBoundary(ev.body.text) {
        case Begin => ok := FlushPending(env, 0);
        case Rollback => pending := [];
        case Commit => ok := FlushPending(env, 0);
        case NoBoundary =>
          if DdlOp(ev.body.text) != "" && !skip {
            ok := EmitChange(env, DdlChange(ev.ts, ev.body.schema, ev.body.text));
          }
      }
      return if ok then None else Some(Stopped);
    }

    method CountBytes(env: Env, ev: Event) returns (status: Option<Status>)
      modifies this`pending, this`bytes, this`skipBytes, this`out
      ensures Next(State(), status) == Counted(env, old(State()), ev)
    {
      hide Flush;
      if ev.ts == 0 || ev.ts >= env.target {
        bytes := bytes + ev.size;
        if env.maxBytes > 0 && bytes > env.maxBytes {
          var _ := FlushPending(env, 0);
          return Some(ByteTrunc);
        }
      } else {
        skipBytes := skipBytes + ev.size;
        if env.maxBytes > 0 && skipBytes > env.maxBytes * 2 { return Some(TooFarBack); }
      }
      return None;
    }

    method OnEventBody(env: Env, ev: Event, skip: bool) returns (status: Option<Status>)
      modifies this`pending, this`tables, this`out
      ensures Next(State(), status) == OnBody(env, old(State()), ev, skip)
    {
      hide Flush, Wanted, OnQuery;
      status := None;
      match ev.body {
        case Rotate(_) =>
        case TableMap(id, table) => tables := tables[id := table];
        case Query(_, _) => status := OnQueryEvent(env, ev, skip);
        case Xid(xid) =>
          if skip {
            pending := [];
            if XidPastStop(xid, env.stopXid) { status := Some(Stopped); }
          } else {
            var ok := FlushPending(env, xid);
            if !ok { status := Some(Stopped); }
          }
        case Rows(_, _, _, _) => if !skip { status := AppendRows(env, ev); }
        case Other =>
      }
    }

    method OnEvent(env: Env, ev: Event) returns (status: Option<Status>)
      modifies this`curFile, this`resumePos, this`pending, this`tables, this`bytes, this`skipBytes, this`out
      ensures Next(State(), status) == Step(env, old(State()), ev)
    {
      hide Flush, PosReached, OnBody, Counted, EventWindow;
      if ev.logPos > 0 { resumePos := ev.logPos; }
      CountedKeepsFile(env, State(), ev);
      status := CountBytes(env, ev);
      if status.Some? { return; }
      if ev.body.Rotate? {
        curFile := ev.body.next;
        return;
      }
      var window := EventWindow(ev.ts, env.target, env.end);
      if PosReached(curFile, ev.logPos, env.endFile, env.endPos) || window == Stop {
        var _ := FlushPending(env, 0);
        return Some(Stopped);
      }
      status := OnEventBody(env, ev, window == Skip);
    }

    /** Reads until a stop, an error, or the end of what the server has. */
    method Dump(env: Env, log: Log, failures: seq<Fault>) returns (status: Status)
      modifies this
      ensures Next(State(), Some(status)) == Run(env, log, old(State()), failures, old(outerLeft))
    {
      hide Step, Flush, OnConnection, Sent;
      var faults := failures;
      var sent := Sent(log, curFile, resumePos);
      if sent.None? { var _ := FlushPending(env, 0); return Broken; }
      var stream := sent.value;
      while true
        invariant Run(env, log, old(State()), failures, old(outerLeft))
                  == OnConnection(env, log, State(), stream, faults, outerLeft)
        decreases |faults|, |stream|
      {
        if stream == [] || (faults != [] && faults[0].after == 0) {
          NoMoreEvents(env, log, State(), stream, faults, outerLeft);
          if faults == [] || faults[0].after > 0 { var _ := FlushPending(env, 0); return Cancelled; }
          if !faults[0].transient || outerLeft == 0 { var _ := FlushPending(env, 0); return Broken; }
          outerLeft := outerLeft - 1;
          sent := Sent(log, curFile, resumePos);
          if sent.None? { var _ := FlushPending(env, 0); return Broken; }
          stream, faults := sent.value, faults[1..];
        } else {
          NextEvent(env, log, State(), stream, faults, outerLeft);
          var end := OnEvent(env, stream[0]);
          if end.Some? { return end.value; }
          stream, faults := stream[1..], Sooner(faults);
        }
      }
    }
  }

  lemma MoreRows(t: Change, op: RowOp, images: seq<Row>, i: nat, step: nat, ch: Change)
    requires step == (if op == Updated then 2 else 1) && i + step <= |images|
    requires ch == match op
                   case Inserted => t.(op := Insert, after := images[i])
                   case Deleted => t.(op := Delete, before := images[i])
                   case Updated => t.(op := Update, before := images[i], after := images[i + 1])
    ensures RowChanges(t, op, images[i..]) == [ch] + RowChanges(t, op, images[i + step..])
  {
    assert images[i..][step..] == images[i + step..];
  }
}
