/** What a binlog dump hands over: for each event, the rows of wanted tables inside the window that the
    next transaction boundary does not roll back. */
module BinlogRows {
  import opened Options
  import opened Changes
  import opened Binlog
  import opened Lists

  /** An event other than a rotate, with the file it was read from. */
  datatype Item = Item(file: string, ev: Event)

  /** The events of a stream that starts in `file`; rotates only move on to the next file. */
  function Tagged(file: string, events: seq<Event>): seq<Item>
    decreases |events|
  {
    if events == [] then []
    else if events[0].body.Rotate? then Tagged(events[0].body.next, events[1..])
    else [Item(file, events[0])] + Tagged(file, events[1..])
  }

  predicate Stops(env: Env, it: Item) {
    EndsDump(env, it.file, it.ev)
  }

  /** The number of events before the first that ends the dump. */
  function Limit(env: Env, l: seq<Item>): (n: nat)
    ensures n <= |l|
    ensures forall i :: 0 <= i < n ==> !Stops(env, l[i])
    ensures n < |l| ==> Stops(env, l[n])
  {
    if l == [] || Stops(env, l[0]) then 0 else 1 + Limit(env, l[1..])
  }

  predicate IsBoundary(ev: Event) {
    ev.body.Xid? || (ev.body.Query? && TxnBoundary(ev.body.text) != NoBoundary)
  }

  /** The first boundary after event `i`, or `n` if there is none before `n`. */
  function NextBoundary(l: seq<Item>, i: nat, n: nat): (j: nat)
    requires i < n <= |l|
    ensures i < j <= n
    ensures forall k :: i < k < j ==> !IsBoundary(l[k].ev)
    ensures j < n ==> IsBoundary(l[j].ev)
    decreases n - i
  {
    if i + 1 == n || IsBoundary(l[i + 1].ev) then i + 1 else NextBoundary(l, i + 1, n)
  }

  /** The transaction id rows get that end at boundary `j`; nothing if it rolls them back. */
  function Fate(l: seq<Item>, j: nat, n: nat): Option<int>
    requires j <= n <= |l|
  {
    if j == n then Some(0)
    else if l[j].ev.body.Xid? then Some(l[j].ev.body.xid)
    else if l[j].ev.body.Query? && TxnBoundary(l[j].ev.body.text) == Rollback then None
    else Some(0)
  }

  /** The last table map for `id` among the first `i` events. */
  function MappedTo(l: seq<Item>, i: nat, id: nat): Option<Name>
    requires i <= |l|
  {
    if i == 0 then None
    else if l[i - 1].ev.body.TableMap? && l[i - 1].ev.body.id == id then Some(l[i - 1].ev.body.table)
    else MappedTo(l, i - 1, id)
  }

  function NameAt(l: seq<Item>, i: nat): Option<Name>
    requires i < |l| && l[i].ev.body.Rows?
  {
    if l[i].ev.body.map_.Some? then l[i].ev.body.map_ else MappedTo(l, i, l[i].ev.body.id)
  }

  /** The changes of event `i`, if it holds rows of a wanted table not before the window. */
  function ChangesAt(env: Env, l: seq<Item>, i: nat): (chs: seq<Change>)
    requires i < |l|
    ensures forall ch :: ch in chs ==> !ch.op.Ddl?
  {
    if l[i].ev.body.Rows? && l[i].ev.ts >= env.target then Wanted(env, l[i].ev, NameAt(l, i)) else []
  }

  function Stamp(chs: seq<Change>, xid: int): (r: seq<Change>)
    ensures |r| == |chs| && forall i :: 0 <= i < |r| ==> r[i] == chs[i].(xid64 := xid)
  {
    if chs == [] then [] else [chs[0].(xid64 := xid)] + Stamp(chs[1..], xid)
  }

  function Kept(chs: seq<Change>, fate: Option<int>): seq<Change> {
    if fate.None? then [] else Stamp(chs, fate.value)
  }

  /** What is handed over of events `a` to `b`, of a log that ends before event `n`. */
  function HandedRows(env: Env, l: seq<Item>, a: nat, b: nat, n: nat): seq<Change>
    requires a <= b <= n <= |l|
    decreases b
  {
    if a == b then []
    else HandedRows(env, l, a, b - 1, n) + Kept(ChangesAt(env, l, b - 1), Fate(l, NextBoundary(l, b - 1, n), n))
  }

  /** The DDL statements among the first `n` events, outside the transactions. */
  function HandedDdl(env: Env, l: seq<Item>, n: nat): seq<Change>
    requires n <= |l|
  {
    if n == 0 then []
    else
      var ev := l[n - 1].ev;
      HandedDdl(env, l, n - 1)
      + if ev.body.Query? && DdlOp(ev.body.text) != "" && ev.ts >= env.target
        then [DdlChange(ev.ts, ev.body.schema, ev.body.text)] else []
  }

  function IfRow(ch: Change): seq<Change> {
    if ch.op.Ddl? then [] else [ch]
  }

  function IfDdl(ch: Change): seq<Change> {
    if ch.op.Ddl? then [ch] else []
  }

  function RowsOnly(chs: seq<Change>): seq<Change> {
    if chs == [] then [] else IfRow(chs[0]) + RowsOnly(chs[1..])
  }

  function DdlOnly(chs: seq<Change>): seq<Change> {
    if chs == [] then [] else IfDdl(chs[0]) + DdlOnly(chs[1..])
  }

  // ---- Lists of changes ----

  lemma {:induction false} OnlyAppend(a: seq<Change>, b: seq<Change>)
    ensures RowsOnly(a + b) == RowsOnly(a) + RowsOnly(b)
    ensures DdlOnly(a + b) == DdlOnly(a) + DdlOnly(b)
  {
    hide IfRow, IfDdl;
    if a == [] {
      assert a + b == b;
    } else {
      AppendFirst(a, b);
      OnlyAppend(a[1..], b);
      Regroup(IfRow(a[0]), RowsOnly(a[1..]), RowsOnly(b));
      Regroup(IfDdl(a[0]), DdlOnly(a[1..]), DdlOnly(b));
    }
  }

  lemma {:induction false} OnlyOfRows(a: seq<Change>)
    requires forall ch :: ch in a ==> !ch.op.Ddl?
    ensures RowsOnly(a) == a && DdlOnly(a) == []
  {
    if a != [] {
      OnlyOfRows(a[1..]);
      assert a == [a[0]] + a[1..];
    }
  }

  lemma {:induction false} StampAppend(a: seq<Change>, b: seq<Change>, xid: int)
    ensures Stamp(a + b, xid) == Stamp(a, xid) + Stamp(b, xid)
  {
    if a == [] {
      assert a + b == b;
    } else {
      assert (a + b)[1..] == a[1..] + b;
      StampAppend(a[1..], b, xid);
    }
  }

  lemma KeptAppend(a: seq<Change>, b: seq<Change>, fate: Option<int>)
    ensures Kept(a + b, fate) == Kept(a, fate) + Kept(b, fate)
  {
    hide Stamp;
    if fate.Some? { StampAppend(a, b, fate.value); }
  }

  // ---- Pending rows between boundaries ----

  /** The changes of events `a` to `b`, whatever their fate. */
  function Gathered(env: Env, l: seq<Item>, a: nat, b: nat): (chs: seq<Change>)
    requires a <= b <= |l|
    ensures forall ch :: ch in chs ==> !ch.op.Ddl?
    decreases b
  {
    if a == b then [] else Gathered(env, l, a, b - 1) + ChangesAt(env, l, b - 1)
  }

  lemma {:induction false} NextIs(l: seq<Item>, i: nat, j: nat, n: nat)
    requires i < j <= n <= |l| && (forall k :: i < k < j ==> !IsBoundary(l[k].ev)) && (j < n ==> IsBoundary(l[j].ev))
    ensures NextBoundary(l, i, n) == j
    decreases j - i
  {
    hide IsBoundary;
    if i + 1 < j { NextIs(l, i + 1, j, n); }
  }

  /** Rows with no boundary between them share their fate. */
  lemma {:induction false} SharedFate(env: Env, l: seq<Item>, a: nat, b: nat, j: nat, n: nat)
    requires a <= b <= j <= n <= |l| && (forall k :: a <= k < j ==> !IsBoundary(l[k].ev))
             && (j < n ==> IsBoundary(l[j].ev))
    ensures HandedRows(env, l, a, b, n) == Kept(Gathered(env, l, a, b), Fate(l, j, n))
    decreases b
  {
    hide IsBoundary, ChangesAt, Fate, Kept;
    if a < b {
      SharedFate(env, l, a, b - 1, j, n);
      NextIs(l, b - 1, j, n);
      KeptAppend(Gathered(env, l, a, b - 1), ChangesAt(env, l, b - 1), Fate(l, j, n));
    } else {
      NoneKept(Fate(l, j, n));
    }
  }

  lemma NoneKept(fate: Option<int>)
    ensures Kept([], fate) == []
  {
  }

  lemma BoundaryHasNoRows(env: Env, l: seq<Item>, i: nat)
    requires i < |l| && IsBoundary(l[i].ev)
    ensures ChangesAt(env, l, i) == []
  {
  }

  lemma {:induction false} HandedSplit(env: Env, l: seq<Item>, a: nat, b: nat, c: nat, n: nat)
    requires a <= b <= c <= n <= |l|
    ensures HandedRows(env, l, a, c, n) == HandedRows(env, l, a, b, n) + HandedRows(env, l, b, c, n)
    decreases c
  {
    hide ChangesAt, Fate, Kept;
    if b < c { HandedSplit(env, l, a, b, c - 1, n); }
  }

  /** Where a boundary follows, the next one is the same however far the log goes. */
  lemma SameNext(l: seq<Item>, i: nat, d: nat, n: nat, n': nat)
    requires i < d < n <= n' <= |l| && IsBoundary(l[d].ev)
    ensures NextBoundary(l, i, n) == NextBoundary(l, i, n') < n
    ensures Fate(l, NextBoundary(l, i, n), n) == Fate(l, NextBoundary(l, i, n'), n')
  {
    hide IsBoundary;
    var j := NextBoundary(l, i, n);
    NextIs(l, i, j, n');
  }

  /** What is settled by a boundary stays so, however the log goes on. */
  lemma {:induction false} Settled(env: Env, l: seq<Item>, a: nat, b: nat, d: nat, n: nat, n': nat)
    requires a <= b <= d < n <= n' <= |l| && IsBoundary(l[d].ev)
    ensures HandedRows(env, l, a, b, n) == HandedRows(env, l, a, b, n')
    decreases b
  {
    hide IsBoundary, ChangesAt, Kept, NextBoundary, Fate;
    if a < b {
      Settled(env, l, a, b - 1, d, n, n');
      SameNext(l, b - 1, d, n, n');
    }
  }

  // ---- The dump's state after a prefix of the log ----

  /** No limit but the window and the stop position: no transaction-id range, and a caller that takes all. */
  ghost predicate Unlimited(env: Env) {
    env.startXid <= 0 && env.stopXid <= 0 && forall out, ch :: env.accept(out, ch)
  }

  /** Positive timestamps that never decrease. */
  ghost predicate InTime(l: seq<Item>) {
    forall i, j :: 0 <= i <= j < |l| ==> 0 < l[i].ev.ts <= l[j].ev.ts
  }

  /** The number of events up to the last boundary among the first `i`. */
  function LastBoundary(l: seq<Item>, i: nat): (b: nat)
    requires i <= |l|
    ensures b <= i && (b > 0 ==> IsBoundary(l[b - 1].ev)) && forall k :: b <= k < i ==> !IsBoundary(l[k].ev)
  {
    if i == 0 then 0 else if IsBoundary(l[i - 1].ev) then i else LastBoundary(l, i - 1)
  }

  ghost predicate TablesKnown(l: seq<Item>, i: nat, tables: map<nat, Name>)
    requires i <= |l|
  {
    forall id: nat :: MappedTo(l, i, id) == if id in tables then Some(tables[id]) else None
  }

  ghost predicate Holds(env: Env, l: seq<Item>, i: nat, m: Mem)
    requires i <= |l|
  {
    var b := LastBoundary(l, i);
    && m.pending == Gathered(env, l, b, i)
    && RowsOnly(m.out) == HandedRows(env, l, 0, b, i)
    && DdlOnly(m.out) == HandedDdl(env, l, i)
    && TablesKnown(l, i, m.tables)
  }

  lemma {:induction false} FlushAll(env: Env, out: seq<Change>, pending: seq<Change>, xid: int)
    requires Unlimited(env)
    ensures Flush(env, out, pending, xid) == Handed(out + Stamp(pending, xid), true)
    decreases |pending|
  {
    if pending == [] {
      assert out + [] == out;
    } else {
      var first := pending[0].(xid64 := xid);
      FlushAll(env, out + [first], pending[1..], xid);
      assert out + ([first] + Stamp(pending[1..], xid)) == out + [first] + Stamp(pending[1..], xid);
    }
  }

  lemma SettledThrough(env: Env, l: seq<Item>, b: nat, n: nat, n': nat)
    requires b <= n <= n' <= |l| && (b > 0 ==> IsBoundary(l[b - 1].ev))
    ensures HandedRows(env, l, 0, b, n) == HandedRows(env, l, 0, b, n')
  {
    hide IsBoundary, ChangesAt, Fate, NextBoundary, Kept;
    if b > 0 {
      Settled(env, l, 0, b - 1, b - 1, n, n');
      BoundaryHasNoRows(env, l, b - 1);
      NoneKept(Fate(l, NextBoundary(l, b - 1, n), n));
      NoneKept(Fate(l, NextBoundary(l, b - 1, n'), n'));
    }
  }

  /** The rows handed over once event `i`, a boundary, is read. */
  lemma AtBoundary(env: Env, l: seq<Item>, i: nat)
    requires i < |l| && IsBoundary(l[i].ev)
    ensures var b := LastBoundary(l, i);
            LastBoundary(l, i + 1) == i + 1
            && HandedRows(env, l, 0, i + 1, i + 1)
               == HandedRows(env, l, 0, b, i) + Kept(Gathered(env, l, b, i), Fate(l, i, i + 1))
  {
    hide IsBoundary, ChangesAt, Fate, Kept, Gathered;
    var b := LastBoundary(l, i);
    var rows := HandedRows(env, l, 0, i, i + 1);
    HandedSplit(env, l, 0, b, i, i + 1);
    SettledThrough(env, l, b, i, i + 1);
    SharedFate(env, l, b, i, i, i + 1);
    BoundaryHasNoRows(env, l, i);
    NoneKept(Fate(l, i + 1, i + 1));
    assert HandedRows(env, l, 0, i + 1, i + 1) == rows + Kept(ChangesAt(env, l, i), Fate(l, i + 1, i + 1));
    assert rows + [] == rows;
  }

  /** The rows handed over when the log ends before event `i`. */
  lemma AtEnd(env: Env, l: seq<Item>, i: nat)
    requires i <= |l|
    ensures var b := LastBoundary(l, i);
            HandedRows(env, l, 0, i, i) == HandedRows(env, l, 0, b, i) + Kept(Gathered(env, l, b, i), Some(0))
  {
    hide IsBoundary, ChangesAt, Kept, Gathered, HandedRows;
    var b := LastBoundary(l, i);
    HandedSplit(env, l, 0, b, i, i);
    SharedFate(env, l, b, i, i, i);
  }

  // ---- One event ----

  lemma InsideTransaction(env: Env, l: seq<Item>, i: nat)
    requires i < |l| && !IsBoundary(l[i].ev)
    ensures var b := LastBoundary(l, i);
            LastBoundary(l, i + 1) == b
            && Gathered(env, l, b, i + 1) == Gathered(env, l, b, i) + ChangesAt(env, l, i)
            && HandedRows(env, l, 0, b, i + 1) == HandedRows(env, l, 0, b, i)
  {
    hide IsBoundary, ChangesAt, HandedRows;
    SettledThrough(env, l, LastBoundary(l, i), i, i + 1);
  }

  lemma SameTables(l: seq<Item>, i: nat, tables: map<nat, Name>)
    requires i < |l| && TablesKnown(l, i, tables) && !l[i].ev.body.TableMap?
    ensures TablesKnown(l, i + 1, tables)
  {
  }

  lemma MoreTables(l: seq<Item>, i: nat, tables: map<nat, Name>)
    requires i < |l| && TablesKnown(l, i, tables) && l[i].ev.body.TableMap?
    ensures TablesKnown(l, i + 1, tables[l[i].ev.body.id := l[i].ev.body.table])
  {
  }

  lemma NoDdl(env: Env, l: seq<Item>, i: nat)
    requires i < |l| && (!l[i].ev.body.Query? || DdlOp(l[i].ev.body.text) == "" || l[i].ev.ts < env.target)
    ensures HandedDdl(env, l, i + 1) == HandedDdl(env, l, i)
  {
    hide DdlOp;
    assert HandedDdl(env, l, i) + [] == HandedDdl(env, l, i);
  }

  /** A flush at a boundary hands over what was gathered. */
  lemma FlushHolds(env: Env, l: seq<Item>, i: nat, m: Mem, xid: int)
    requires Unlimited(env) && i < |l| && Holds(env, l, i, m)
    requires IsBoundary(l[i].ev) && Fate(l, i, i + 1) == Some(xid)
    ensures var n := FlushedOn(env, m, xid); n.status.None? && Holds(env, l, i + 1, n.mem)
  {
    hide IsBoundary, Fate, Gathered, HandedRows, HandedDdl, TablesKnown, Flush, Stamp, RowsOnly, DdlOnly, DdlOp,
         LastBoundary;
    FlushAll(env, m.out, m.pending, xid);
    AtBoundary(env, l, i);
    OnlyAppend(m.out, Stamp(m.pending, xid));
    OnlyOfRows(Stamp(m.pending, xid));
    BoundaryIsNot(l[i].ev);
    SameTables(l, i, m.tables);
    NoDdl(env, l, i);
    NothingGathered(env, l, i + 1);
    assert Kept(m.pending, Some(xid)) == Stamp(m.pending, xid);
    assert DdlOnly(m.out) + [] == DdlOnly(m.out);
  }

  lemma BoundaryIsNot(ev: Event)
    requires IsBoundary(ev)
    ensures !ev.body.TableMap? && (ev.body.Query? ==> DdlOp(ev.body.text) == "")
  {
  }

  lemma NothingGathered(env: Env, l: seq<Item>, i: nat)
    requires i <= |l|
    ensures Gathered(env, l, i, i) == []
  {
  }

  /** A boundary that drops rows: a rollback, or a commit before the window. */
  lemma DropHolds(env: Env, l: seq<Item>, i: nat, m: Mem)
    requires i < |l| && Holds(env, l, i, m) && IsBoundary(l[i].ev)
    requires Fate(l, i, i + 1).None? || m.pending == []
    ensures Holds(env, l, i + 1, m.(pending := []))
  {
    hide IsBoundary, Fate, Gathered, HandedRows, HandedDdl, TablesKnown, RowsOnly, DdlOnly, DdlOp, LastBoundary, Stamp;
    AtBoundary(env, l, i);
    NoneKept(Fate(l, i, i + 1));
    BoundaryIsNot(l[i].ev);
    SameTables(l, i, m.tables);
    NoDdl(env, l, i);
    NothingGathered(env, l, i + 1);
    assert RowsOnly(m.out) + [] == RowsOnly(m.out);
  }

  /** Before the window there is nothing to hand over. */
  lemma {:induction false} NothingYet(env: Env, l: seq<Item>, a: nat, b: nat, i: nat)
    requires a <= b <= i < |l| && InTime(l) && l[i].ev.ts < env.target
    ensures Gathered(env, l, a, b) == []
    decreases b
  {
    if a < b {
      NothingYet(env, l, a, b - 1, i);
      assert l[b - 1].ev.ts <= l[i].ev.ts;
    }
  }

  lemma InsideHolds(env: Env, l: seq<Item>, i: nat, m: Mem, m': Mem)
    requires i < |l| && Holds(env, l, i, m) && !IsBoundary(l[i].ev)
    requires m'.pending == m.pending + ChangesAt(env, l, i) && RowsOnly(m'.out) == RowsOnly(m.out)
    requires DdlOnly(m'.out) == HandedDdl(env, l, i + 1) && TablesKnown(l, i + 1, m'.tables)
    ensures Holds(env, l, i + 1, m')
  {
    hide IsBoundary, ChangesAt, Gathered, HandedRows, HandedDdl, TablesKnown, RowsOnly, DdlOnly, LastBoundary;
    InsideTransaction(env, l, i);
  }

  lemma XidHolds(env: Env, l: seq<Item>, i: nat, m: Mem)
    requires Unlimited(env) && InTime(l) && i < |l| && Holds(env, l, i, m) && l[i].ev.body.Xid?
    ensures var n := OnBody(env, m, l[i].ev, l[i].ev.ts < env.target); n.status.None? && Holds(env, l, i + 1, n.mem)
  {
    hide Holds, FlushedOn, Gathered;
    if l[i].ev.ts < env.target {
      PendingIs(env, l, i, m);
      NothingYet(env, l, LastBoundary(l, i), i, i);
      DropHolds(env, l, i, m);
    } else {
      FlushHolds(env, l, i, m, l[i].ev.body.xid);
    }
  }

  lemma PendingIs(env: Env, l: seq<Item>, i: nat, m: Mem)
    requires i <= |l| && Holds(env, l, i, m)
    ensures m.pending == Gathered(env, l, LastBoundary(l, i), i)
  {
  }

  lemma QueryHolds(env: Env, l: seq<Item>, i: nat, m: Mem)
    requires Unlimited(env) && i < |l| && Holds(env, l, i, m) && l[i].ev.body.Query?
    ensures var n := OnBody(env, m, l[i].ev, l[i].ev.ts < env.target); n.status.None? && Holds(env, l, i + 1, n.mem)
  {
    hide Holds, FlushedOn, TxnBoundary, DdlOp, Emit;
    match TxnBoundary(l[i].ev.body.text)
    case Begin => FlushHolds(env, l, i, m, 0);
    case Commit => FlushHolds(env, l, i, m, 0);
    case Rollback => DropHolds(env, l, i, m);
    case NoBoundary => StatementHolds(env, l, i, m);
  }

  lemma StatementHolds(env: Env, l: seq<Item>, i: nat, m: Mem)
    requires Unlimited(env) && i < |l| && Holds(env, l, i, m)
    requires l[i].ev.body.Query? && TxnBoundary(l[i].ev.body.text) == NoBoundary
    ensures var n := OnQuery(env, m, l[i].ev, l[i].ev.ts < env.target); n.status.None? && Holds(env, l, i + 1, n.mem)
  {
    hide TxnBoundary, DdlOp, Gathered, HandedRows, TablesKnown, RowsOnly, DdlOnly, LastBoundary, WithoutSemicolons;
    var ev := l[i].ev;
    var n := OnQuery(env, m, ev, ev.ts < env.target);
    SameTables(l, i, m.tables);
    assert m.pending + [] == m.pending;
    if DdlOp(ev.body.text) == "" || ev.ts < env.target {
      NoDdl(env, l, i);
    } else {
      var ch := DdlChange(ev.ts, ev.body.schema, ev.body.text);
      OnlyAppend(m.out, [ch]);
      OnlyOne(ch);
      assert RowsOnly(m.out) + [] == RowsOnly(m.out);
    }
    InsideHolds(env, l, i, m, n.mem);
  }

  lemma OnlyOne(ch: Change)
    requires ch.op.Ddl?
    ensures RowsOnly([ch]) == [] && DdlOnly([ch]) == [ch]
  {
  }

  /** The rows of the transaction that event `i` adds to. */
  function Open(env: Env, l: seq<Item>, i: nat): seq<Change>
    requires i < |l|
  {
    Gathered(env, l, LastBoundary(l, i + 1), i + 1)
  }

  /** An event whose rows bring its transaction over what is kept. */
  predicate TooMany(env: Env, l: seq<Item>, i: nat)
    requires i < |l|
  {
    ChangesAt(env, l, i) != [] && |Open(env, l, i)| > 10_000
  }

  lemma OpenIs(env: Env, l: seq<Item>, i: nat, m: Mem)
    requires i < |l| && Holds(env, l, i, m) && !IsBoundary(l[i].ev)
    ensures Open(env, l, i) == m.pending + ChangesAt(env, l, i)
  {
    hide IsBoundary, ChangesAt, HandedRows, HandedDdl, TablesKnown, RowsOnly, DdlOnly;
    InsideTransaction(env, l, i);
  }

  lemma RowsAre(env: Env, l: seq<Item>, i: nat, m: Mem)
    requires i < |l| && TablesKnown(l, i, m.tables) && l[i].ev.body.Rows?
    ensures OnBody(env, m, l[i].ev, l[i].ev.ts < env.target) ==
            var q := Joined(m.pending, ChangesAt(env, l, i));
            Next(m.(pending := q.rows), if q.full then Some(TooManyRows) else None)
  {
    hide Wanted;
    assert TableOf(m.tables, l[i].ev.body) == NameAt(l, i);
  }

  lemma RowsHold(env: Env, l: seq<Item>, i: nat, m: Mem)
    requires i < |l| && Holds(env, l, i, m) && l[i].ev.body.Rows?
    ensures var n := OnBody(env, m, l[i].ev, l[i].ev.ts < env.target);
            if TooMany(env, l, i) then n.status == Some(TooManyRows) else n.status.None? && Holds(env, l, i + 1, n.mem)
  {
    hide Gathered, HandedRows, HandedDdl, RowsOnly, DdlOnly, LastBoundary, Wanted, ChangesAt, Open, OnBody, Joined,
         TablesKnown;
    var chs := ChangesAt(env, l, i);
    RowsAre(env, l, i, m);
    JoinedIs(m.pending, chs);
    OpenIs(env, l, i, m);
    SameTables(l, i, m.tables);
    NoDdl(env, l, i);
    var n := OnBody(env, m, l[i].ev, l[i].ev.ts < env.target);
    if !TooMany(env, l, i) { InsideHolds(env, l, i, m, n.mem); }
  }

  lemma OtherHolds(env: Env, l: seq<Item>, i: nat, m: Mem)
    requires i < |l| && Holds(env, l, i, m) && (l[i].ev.body.TableMap? || l[i].ev.body.Other?)
    ensures var n := OnBody(env, m, l[i].ev, l[i].ev.ts < env.target); n.status.None? && Holds(env, l, i + 1, n.mem)
  {
    hide Gathered, HandedRows, HandedDdl, TablesKnown, RowsOnly, DdlOnly, LastBoundary;
    var n := OnBody(env, m, l[i].ev, l[i].ev.ts < env.target);
    if l[i].ev.body.TableMap? { MoreTables(l, i, m.tables); } else { SameTables(l, i, m.tables); }
    NoDdl(env, l, i);
    assert m.pending + [] == m.pending;
    InsideHolds(env, l, i, m, n.mem);
  }

  lemma OnlyRowsAreMany(env: Env, l: seq<Item>, i: nat)
    requires i < |l| && !l[i].ev.body.Rows?
    ensures !TooMany(env, l, i)
  {
    hide Open;
  }

  lemma BodyHolds(env: Env, l: seq<Item>, i: nat, m: Mem)
    requires Unlimited(env) && InTime(l) && i < |l| && Holds(env, l, i, m) && !l[i].ev.body.Rotate?
    ensures var n := OnBody(env, m, l[i].ev, l[i].ev.ts < env.target);
            if TooMany(env, l, i) then n.status == Some(TooManyRows) else n.status.None? && Holds(env, l, i + 1, n.mem)
  {
    hide *;
    if !l[i].ev.body.Rows? { OnlyRowsAreMany(env, l, i); }
    match l[i].ev.body
    case TableMap(_, _) => OtherHolds(env, l, i, m);
    case Query(_, _) => QueryHolds(env, l, i, m);
    case Xid(_) => XidHolds(env, l, i, m);
    case Rows(_, _, _, _) => RowsHold(env, l, i, m);
    case Other => OtherHolds(env, l, i, m);
  }
}
