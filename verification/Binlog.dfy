/** Reading a MySQL binlog stream (flashback_mysql_dump.go, flashback_mysql.go): what one event does to the
    dump's state, as a function and as the code does it. Row images arrive already mapped to columns. */
module Binlog {
  import opened Bytes
  import opened Options
  import opened Changes
  import opened Texts

  const MAX_PENDING := 10000

  datatype Name = Name(schema: string, table: string)

  datatype RowOp = Inserted | Updated | Deleted

  /** Of the events the dump looks at, what it looks at; a rows event may carry its table map. */
  datatype Body =
    | Rotate(next: string)
    | TableMap(id: nat, table: Name)
    | Query(schema: string, text: string)
    | Xid(xid: int)
    | Rows(map_: Option<Name>, id: nat, op: RowOp, images: seq<Row>)
    | Other

  datatype Event = Event(ts: U32, logPos: U32, size: nat, body: Body)

  /** The limits of a dump; `dict` gives the key columns of wanted tables, `accept` is the caller's answer
      to a change after those it has taken. */
  datatype Env = Env(target: U32, end: U32, startXid: int, stopXid: int, maxBytes: int, endFile: string, endPos: U32,
                     dict: Name -> Option<seq<string>>, accept: (seq<Change>, Change) -> bool)

  datatype Status = Stopped | ByteTrunc | TooFarBack | TooManyRows | Cancelled | Broken

  /** The dump's variables; `out` is what the caller has taken. */
  datatype Mem = Mem(curFile: string, resumePos: U32, pending: seq<Change>, tables: map<nat, Name>,
                     bytes: int, skipBytes: int, out: seq<Change>)

  datatype Next = Next(mem: Mem, status: Option<Status>)

  // ---- Tests on one event ----

  predicate PosReached(curFile: string, curPos: U32, endFile: string, endPos: U32) {
    endFile != "" && (Less(Trim(endFile), Trim(curFile)) || (curFile == endFile && curPos >= endPos))
  }

  predicate XidInRange(xid: int, start: int, stop: int) {
    !(start > 0 && (xid == 0 || xid < start)) && !(stop > 0 && xid > 0 && xid > stop)
  }

  predicate XidPastStop(xid: int, stop: int) {
    stop > 0 && xid > 0 && xid > stop
  }

  datatype Window = Skip | Stop | Inside

  function EventWindow(ts: U32, target: U32, end: U32): Window {
    if ts != 0 && ts > end then Stop else if ts != 0 && ts < target then Skip else Inside
  }

  datatype Boundary = Begin | Commit | Rollback | NoBoundary

  function TxnBoundary(q: string): Boundary {
    var u := Upper(Trim(q));
    if "BEGIN" <= u || "START TRANSACTION" <= u then Begin
    else if "ROLLBACK" <= u then Rollback
    else if "COMMIT" <= u then Commit
    else NoBoundary
  }

  /** The kind of a DDL statement, empty for others. */
  function DdlOp(q: string): string {
    if TxnBoundary(q) != NoBoundary then ""
    else
      var word := Upper(FirstWord(Trim(q)));
      if word in {"CREATE", "ALTER", "DROP", "TRUNCATE"} then word else if word == "RENAME" then "ALTER" else ""
  }

  function WithoutSemicolons(s: string): string {
    if s != [] && s[|s| - 1] == ';' then WithoutSemicolons(s[..|s| - 1]) else s
  }

  // ---- Changes ----

  function Blank(ts: U32): Change {
    Change(0, 0, Some(1_000_000_000 * ts), "", "", Unknown(""), map[], map[], [], false, 0, 0, 0, 0, "", "", "", true)
  }

  function DdlChange(ts: U32, schema: string, q: string): Change {
    Blank(ts).(schema := schema, op := Ddl(DdlOp(q)), ddlRedo := WithoutSemicolons(Trim(q)) + ";")
  }

  function Template(ts: U32, name: Name, pk: seq<string>): Change {
    Blank(ts).(schema := name.schema, table := name.table, pkCols := pk, noPK := pk == [])
  }

  /** One change a row; updates take rows in pairs and leave an odd last one. */
  function RowChanges(t: Change, op: RowOp, images: seq<Row>): (chs: seq<Change>)
    ensures forall ch :: ch in chs ==> !ch.op.Ddl?
  {
    match op
    case Inserted =>
      if images == [] then [] else [t.(op := Insert, after := images[0])] + RowChanges(t, op, images[1..])
    case Deleted =>
      if images == [] then [] else [t.(op := Delete, before := images[0])] + RowChanges(t, op, images[1..])
    case Updated =>
      if |images| < 2 then []
      else [t.(op := Update, before := images[0], after := images[1])] + RowChanges(t, op, images[2..])
  }

  /** The changes of a rows event whose table, if known, is `name`. */
  function Wanted(env: Env, ev: Event, name: Option<Name>): (chs: seq<Change>)
    requires ev.body.Rows?
    ensures forall ch :: ch in chs ==> !ch.op.Ddl?
  {
    if name.None? || env.dict(name.value).None? then []
    else RowChanges(Template(ev.ts, name.value, env.dict(name.value).value), ev.body.op, ev.body.images)
  }

  // ---- One step ----

  function ChangeXid(ch: Change): int {
    if ch.xid64 != 0 then ch.xid64 else ch.xid
  }

  datatype Handed = Handed(out: seq<Change>, ok: bool)

  function Emit(env: Env, out: seq<Change>, ch: Change): Handed {
    var xid := ChangeXid(ch);
    var more := !XidPastStop(xid, env.stopXid);
    if !XidInRange(xid, env.startXid, env.stopXid) then Handed(out, more)
    else if !env.accept(out, ch) then Handed(out, false)
    else Handed(out + [ch], more)
  }

  function Flush(env: Env, out: seq<Change>, pending: seq<Change>, xid: int): Handed
    decreases |pending|
  {
    if pending == [] then Handed(out, !XidPastStop(xid, env.stopXid))
    else
      var h := Emit(env, out, pending[0].(xid64 := xid));
      if h.ok then Flush(env, h.out, pending[1..], xid) else h
  }

  function Flushed(env: Env, m: Mem, xid: int): Mem {
    m.(pending := [], out := Flush(env, m.out, m.pending, xid).out)
  }

  function FlushedOn(env: Env, m: Mem, xid: int): Next {
    Next(Flushed(env, m, xid), if Flush(env, m.out, m.pending, xid).ok then None else Some(Stopped))
  }

  function Positioned(m: Mem, ev: Event): Mem {
    if ev.logPos > 0 then m.(resumePos := ev.logPos) else m
  }

  /** Byte accounting, for the window and for what lies before it. */
  function Counted(env: Env, m: Mem, ev: Event): Next {
    if ev.ts == 0 || ev.ts >= env.target then
      var m1 := m.(bytes := m.bytes + ev.size);
      if env.maxBytes > 0 && m1.bytes > env.maxBytes then Next(Flushed(env, m1, 0), Some(ByteTrunc)) else Next(m1, None)
    else
      var m1 := m.(skipBytes := m.skipBytes + ev.size);
      Next(m1, if env.maxBytes > 0 && m1.skipBytes > env.maxBytes * 2 then Some(TooFarBack) else None)
  }

  function OnQuery(env: Env, m: Mem, ev: Event, skip: bool): Next
    requires ev.body.Query?
  {
    match TxnBoundary(ev.body.text)
    case Begin => FlushedOn(env, m, 0)
    case Commit => FlushedOn(env, m, 0)
    case Rollback => Next(m.(pending := []), None)
    case NoBoundary =>
      if DdlOp(ev.body.text) == "" || skip then Next(m, None)
      else
        var h := Emit(env, m.out, DdlChange(ev.ts, ev.body.schema, ev.body.text));
        Next(m.(out := h.out), if h.ok then None else Some(Stopped))
  }

  function TableOf(tables: map<nat, Name>, body: Body): Option<Name>
    requires body.Rows?
  {
    if body.map_.Some? then body.map_ else if body.id in tables then Some(tables[body.id]) else None
  }

  /** The rows waiting for a boundary, and whether they became too many. */
  datatype Queue = Queue(rows: seq<Change>, full: bool)

  /** Changes join the pending ones one at a time, up to the one that is too many. */
  function Joined(pending: seq<Change>, chs: seq<Change>): Queue
    decreases |chs|
  {
    if chs == [] then Queue(pending, false)
    else
      var rows := pending + [chs[0]];
      if |rows| > MAX_PENDING then Queue(rows, true) else Joined(rows, chs[1..])
  }

  /** All join, or as many as come to one more than is kept. */
  lemma {:induction false} JoinedIs(pending: seq<Change>, chs: seq<Change>)
    ensures var q := Joined(pending, chs);
            && q.full == (chs != [] && |pending| + |chs| > MAX_PENDING)
            && (!q.full ==> q.rows == pending + chs)
            && (q.full && |pending| <= MAX_PENDING ==> q.rows == (pending + chs)[..MAX_PENDING + 1])
    decreases |chs|
  {
    if chs == [] {
      assert pending + chs == pending;
    } else {
      JoinedIs(pending + [chs[0]], chs[1..]);
      assert pending + [chs[0]] + chs[1..] == pending + chs;
    }
  }

  function OnBody(env: Env, m: Mem, ev: Event, skip: bool): Next {
    match ev.body
    case Rotate(_) => Next(m, None)
    case TableMap(id, table) => Next(m.(tables := m.tables[id := table]), None)
    case Query(_, _) => OnQuery(env, m, ev, skip)
    case Xid(xid) =>
      if skip then Next(m.(pending := []), if XidPastStop(xid, env.stopXid) then Some(Stopped) else None)
      else FlushedOn(env, m, xid)
    case Rows(_, _, _, _) =>
      if skip then Next(m, None)
      else
        var q := Joined(m.pending, Wanted(env, ev, TableOf(m.tables, ev.body)));
        Next(m.(pending := q.rows), if q.full then Some(TooManyRows) else None)
    case Other => Next(m, None)
  }

  /** Whether an event other than a rotate ends the dump. */
  predicate EndsDump(env: Env, curFile: string, ev: Event) {
    PosReached(curFile, ev.logPos, env.endFile, env.endPos) || EventWindow(ev.ts, env.target, env.end) == Stop
  }

  function Step(env: Env, m: Mem, ev: Event): Next {
    var c := Counted(env, Positioned(m, ev), ev);
    if c.status.Some? then c
    else if ev.body.Rotate? then Next(c.mem.(curFile := ev.body.next), None)
    else if EndsDump(env, m.curFile, ev) then Next(Flushed(env, c.mem, 0), Some(Stopped))
    else OnBody(env, c.mem, ev, EventWindow(ev.ts, env.target, env.end) == Skip)
  }

  /** Events in turn, up to one that ends the dump. */
  function Feed(env: Env, m: Mem, events: seq<Event>): Next
    decreases |events|
  {
    if events == [] then Next(m, None)
    else
      var n := Step(env, m, events[0]);
      if n.status.Some? then n else Feed(env, n.mem, events[1..])
  }
}
