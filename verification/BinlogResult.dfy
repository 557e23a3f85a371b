/** The result of a whole dump of an ordered log, in terms of its events alone: the window, the stop
    position and the transactions decide for each event whether its rows are handed over. */
module BinlogResult {
  import opened Bytes
  import opened Options
  import opened Changes
  import opened Binlog
  import opened BinlogRows
  import opened BinlogDump
  import opened BinlogServer
  import opened BinlogRun
  import opened BinlogFaults
  import opened BinlogOrder
  import opened BinlogCommitted

  predicate InWindow(env: Env, log: Log, it: Item) {
    env.target <= it.ev.ts && Counts(env, log, it)
  }

  /** The first event after `i` that is a boundary or does not count, or the end of the log. */
  function Ending(env: Env, log: Log, l: seq<Item>, i: nat): (j: nat)
    requires i < |l|
    ensures i < j <= |l|
    ensures forall k :: i < k < j ==> Counts(env, log, l[k]) && !IsBoundary(l[k].ev)
    ensures j < |l| ==> !Counts(env, log, l[j]) || IsBoundary(l[j].ev)
    decreases |l| - i
  {
    if i + 1 == |l| || !Counts(env, log, l[i + 1]) || IsBoundary(l[i + 1].ev) then i + 1 else Ending(env, log, l, i + 1)
  }

  /** The transaction id the rows of event `i` get; nothing if a boundary that counts rolls them back. */
  function FateOf(env: Env, log: Log, l: seq<Item>, i: nat): Option<int>
    requires i < |l|
  {
    var j := Ending(env, log, l, i);
    if j == |l| || !Counts(env, log, l[j]) then Some(0) else Fate(l, j, |l|)
  }

  /** The rows of event `i`, if it lies in the window and its table is wanted. */
  function RowsOf(env: Env, log: Log, l: seq<Item>, i: nat): seq<Change>
    requires i < |l|
  {
    if l[i].ev.body.Rows? && InWindow(env, log, l[i]) then Wanted(env, l[i].ev, NameAt(l, i)) else []
  }

  /** The statement of event `i`, if it is DDL and lies in the window. */
  function StatementOf(env: Env, log: Log, l: seq<Item>, i: nat): seq<Change>
    requires i < |l|
  {
    var ev := l[i].ev;
    if ev.body.Query? && DdlOp(ev.body.text) != "" && InWindow(env, log, l[i])
    then [DdlChange(ev.ts, ev.body.schema, ev.body.text)] else []
  }

  /** The rows of the first `b` events that are not rolled back. */
  function RowsInWindow(env: Env, log: Log, l: seq<Item>, b: nat): seq<Change>
    requires b <= |l|
  {
    if b == 0 then []
    else RowsInWindow(env, log, l, b - 1) + Kept(RowsOf(env, log, l, b - 1), FateOf(env, log, l, b - 1))
  }

  function DdlInWindow(env: Env, log: Log, l: seq<Item>, b: nat): seq<Change>
    requires b <= |l|
  {
    if b == 0 then [] else DdlInWindow(env, log, l, b - 1) + StatementOf(env, log, l, b - 1)
  }

  // ---- The limit is the number of events that count ----

  lemma FateUpTo(env: Env, log: Log, l: seq<Item>, i: nat)
    requires Ordered(log, l) && InTime(l) && i < Limit(env, l)
    ensures var n := Limit(env, l); FateOf(env, log, l, i) == Fate(l, NextBoundary(l, i, n), n)
  {
    hide IsBoundary, Counts, Ordered, InTime, Limit;
    var n := Limit(env, l);
    var j := Ending(env, log, l, i);
    forall k | 0 <= k < |l| ensures k < n <==> Counts(env, log, l[k]) { CountsHere(env, log, l, k); }
    if j < |l| && Counts(env, log, l[j]) {
      NextIs(l, i, j, n);
    } else {
      LimitAt(env, log, l, i, j);
      NextIs(l, i, n, n);
    }
  }

  lemma CountsHere(env: Env, log: Log, l: seq<Item>, i: nat)
    requires Ordered(log, l) && InTime(l) && i < |l|
    ensures i < Limit(env, l) <==> Counts(env, log, l[i])
  {
    hide Ordered, InTime, Limit;
    CountsIff(env, log, l, i);
  }

  lemma LimitAt(env: Env, log: Log, l: seq<Item>, i: nat, j: nat)
    requires i < Limit(env, l) && i < j <= |l| && (j < |l| ==> !Counts(env, log, l[j]))
    requires forall k :: 0 <= k < |l| ==> (k < Limit(env, l) <==> Counts(env, log, l[k]))
    requires forall k :: i < k < j ==> Counts(env, log, l[k])
    ensures j == Limit(env, l)
  {
    hide Counts, Limit, Stops;
    LimitBounds(env, l);
  }

  lemma LimitBounds(env: Env, l: seq<Item>)
    ensures Limit(env, l) <= |l| && (Limit(env, l) < |l| ==> Stops(env, l[Limit(env, l)]))
  {
    hide Stops;
  }

  lemma NoneKeptOf(fate: Option<int>)
    ensures Kept([], fate) == []
  {
  }

  lemma RowsHere(env: Env, log: Log, l: seq<Item>, i: nat)
    requires Ordered(log, l) && InTime(l) && i < |l|
    ensures RowsOf(env, log, l, i) == if i < Limit(env, l) then ChangesAt(env, l, i) else []
  {
    hide Ordered, InTime, Limit, Counts, Wanted, NameAt;
    CountsHere(env, log, l, i);
  }

  lemma StatementHere(env: Env, log: Log, l: seq<Item>, i: nat)
    requires Ordered(log, l) && InTime(l) && i < |l|
    ensures i < Limit(env, l) ==> HandedDdl(env, l, i + 1) == HandedDdl(env, l, i) + StatementOf(env, log, l, i)
    ensures i >= Limit(env, l) ==> StatementOf(env, log, l, i) == []
  {
    hide Ordered, InTime, Limit, Counts, DdlOp, DdlChange;
    CountsHere(env, log, l, i);
  }

  lemma {:induction false} RowsUpTo(env: Env, log: Log, l: seq<Item>, b: nat)
    requires Ordered(log, l) && InTime(l) && b <= Limit(env, l)
    ensures var n := Limit(env, l); RowsInWindow(env, log, l, b) == HandedRows(env, l, 0, b, n)
    decreases b
  {
    hide Ordered, InTime, Limit, RowsOf, ChangesAt, FateOf, Fate, NextBoundary, Kept;
    if b > 0 {
      RowsUpTo(env, log, l, b - 1);
      RowsHere(env, log, l, b - 1);
      FateUpTo(env, log, l, b - 1);
    }
  }

  lemma {:induction false} NoneBehind(env: Env, log: Log, l: seq<Item>, b: nat)
    requires Ordered(log, l) && InTime(l) && Limit(env, l) <= b <= |l|
    ensures RowsInWindow(env, log, l, b) == RowsInWindow(env, log, l, Limit(env, l))
    ensures DdlInWindow(env, log, l, b) == DdlInWindow(env, log, l, Limit(env, l))
    decreases b
  {
    hide Ordered, InTime, Limit, RowsOf, StatementOf, ChangesAt, FateOf, Kept, HandedDdl;
    if b > Limit(env, l) {
      NoneBehind(env, log, l, b - 1);
      RowsHere(env, log, l, b - 1);
      StatementHere(env, log, l, b - 1);
      NoneKeptOf(FateOf(env, log, l, b - 1));
    }
  }

  lemma NoDdlYet(env: Env, l: seq<Item>)
    ensures HandedDdl(env, l, 0) == []
  {
  }

  lemma {:induction false} DdlUpTo(env: Env, log: Log, l: seq<Item>, b: nat)
    requires Ordered(log, l) && InTime(l) && b <= Limit(env, l)
    ensures DdlInWindow(env, log, l, b) == HandedDdl(env, l, b)
    decreases b
  {
    hide Ordered, InTime, Limit, StatementOf, HandedDdl;
    if b == 0 {
      NoDdlYet(env, l);
    } else {
      DdlUpTo(env, log, l, b - 1);
      StatementHere(env, log, l, b - 1);
    }
  }

  /** No byte limit, and no transaction with more rows than are kept before the stop. */
  ghost predicate SmallEnough(env: Env, log: Log, l: seq<Item>) {
    env.maxBytes <= 0 && forall i :: 0 <= i < |l| && Counts(env, log, l[i]) ==> !TooMany(env, l, i)
  }

  lemma SmallIsWithin(env: Env, log: Log, l: seq<Item>)
    requires Ordered(log, l) && InTime(l) && SmallEnough(env, log, l)
    ensures WithinLimits(env, l)
  {
    hide Ordered, InTime, Limit, Counts, TooMany;
    LimitBounds(env, l);
    forall i | 0 <= i < Limit(env, l) ensures !TooMany(env, l, i) { CountsHere(env, log, l, i); }
  }

  lemma AllCount(env: Env, log: Log, l: seq<Item>)
    requires Ordered(log, l) && InTime(l)
    ensures Limit(env, l) < |l| <==> exists i :: 0 <= i < |l| && !Counts(env, log, l[i])
  {
    hide Ordered, InTime, Limit, Counts;
    LimitBounds(env, l);
    if Limit(env, l) < |l| { CountsHere(env, log, l, Limit(env, l)); }
    forall i | 0 <= i < |l| && !Counts(env, log, l[i]) ensures Limit(env, l) < |l| { CountsHere(env, log, l, i); }
  }

  /** What is sent of a log. */
  function Stream(log: Log, file: string, pos: U32): seq<Item>
    requires Sent(log, file, pos).Some?
  {
    Tagged(file, Sent(log, file, pos).value)
  }

  /** Of a log whose file names ascend, whatever up to four calm disconnects there are, a dump hands over
      exactly the rows whose event lies in the window and before the stop position and whose transaction
      is not rolled back there, in log order, and the DDL statements among those events; it ends with
      `Stopped` if some event lies past them. */
  lemma {:induction false} OrderedDumpIs(env: Env, log: Log, file: string, pos: U32, faults: seq<Fault>)
    requires GoodLog(log) && NamesAscend(log) && Calm(log, file, pos, faults) && |faults| <= 4
             && Unlimited(env)
    requires InTime(Stream(log, file, pos)) && SmallEnough(env, log, Stream(log, file, pos))
    ensures var r := Run(env, log, Fresh(file, pos), faults, 4);
            var l := Stream(log, file, pos);
            && r.status == Some(if exists i :: 0 <= i < |l| && !Counts(env, log, l[i]) then Stopped else Cancelled)
            && RowsOnly(r.mem.out) == RowsInWindow(env, log, l, |l|)
            && DdlOnly(r.mem.out) == DdlInWindow(env, log, l, |l|)
  {
    hide GoodLog, NamesAscend, Sent, Tagged, Run, RowsOnly, DdlOnly, HandedRows, HandedDdl, Limit, InTime, Ordered,
         WithinLimits, SmallEnough, RowsInWindow, DdlInWindow, Counts;
    var l := Stream(log, file, pos);
    SentInOrder(log, file, pos);
    SmallIsWithin(env, log, l);
    DisconnectedDumpIsComplete(env, log, file, pos, faults);
    LimitBounds(env, l);
    RowsUpTo(env, log, l, Limit(env, l));
    DdlUpTo(env, log, l, Limit(env, l));
    NoneBehind(env, log, l, |l|);
    AllCount(env, log, l);
  }

  // ---- Against what the log keeps ----

  /** The rows of the first `b` events that the log as a whole keeps. */
  function CommittedInWindow(env: Env, log: Log, l: seq<Item>, b: nat): seq<Change>
    requires b <= |l|
  {
    if b == 0 then []
    else CommittedInWindow(env, log, l, b - 1) + if RolledBack(l, b - 1) then [] else RowsOf(env, log, l, b - 1)
  }

  /** Every row that waits at a rollback to a savepoint before the stop is undone. */
  ghost predicate SavepointsDropUndone(env: Env, log: Log, l: seq<Item>) {
    forall i, r :: 0 <= i < r < |l| && Counts(env, log, l[r]) && Said(l[r].ev).RollsBackTo? && Waiting(env, l, i, r) ==>
      RolledBack(l, i)
  }

  /** No boundary before the stop ends the transaction event `i` belongs to. */
  ghost predicate LeftOpen(env: Env, log: Log, l: seq<Item>, i: nat)
    requires i < |l|
  {
    forall k :: i < k < |l| && Counts(env, log, l[k]) ==> !IsBoundary(l[k].ev)
  }

  /** No row whose transaction is open at the stop is rolled back behind it. */
  ghost predicate NoneUndoneBehind(env: Env, log: Log, l: seq<Item>) {
    forall i :: 0 <= i < |l| && RowsOf(env, log, l, i) != [] && LeftOpen(env, log, l, i) ==> !RolledBack(l, i)
  }

  lemma UndoneFrom(l: seq<Item>, i: nat, r: nat)
    requires AllWorded(l) && i < r < |l| && RolledBack(l, i) && (forall k :: i < k < r ==> !IsBoundary(l[k].ev))
    ensures Undoes(l, r, i) || exists j :: r < j < |l| && Undoes(l, j, i)
  {
    hide IsBoundary, Undoes, AllWorded;
    var j :| i < j < |l| && Undoes(l, j, i);
    UndoneNotBefore(l, i, j, r);
  }

  lemma SpareFrom(env: Env, log: Log, l: seq<Item>)
    requires Ordered(log, l) && InTime(l) && AllWorded(l)
    ensures SavepointsDropUndone(env, log, l) <==> SavepointsSpare(env, l, Limit(env, l))
  {
    hide Ordered, InTime, AllWorded, Limit, Counts, Said, ChangesAt, IsBoundary, Undoes;
    var n := Limit(env, l);
    LimitBounds(env, l);
    forall k | 0 <= k < |l| ensures k < n <==> Counts(env, log, l[k]) { CountsHere(env, log, l, k); }
    if SavepointsDropUndone(env, log, l) {
      forall r, i | 0 <= i < r < n && Said(l[r].ev).RollsBackTo? && Waiting(env, l, i, r)
        ensures Undoes(l, r, i) || exists j :: r < j < |l| && Undoes(l, j, i)
      {
        assert RolledBack(l, i);
        UndoneFrom(l, i, r);
      }
    }
  }

  lemma OpenAtStop(env: Env, log: Log, l: seq<Item>, i: nat)
    requires Ordered(log, l) && InTime(l) && i < Limit(env, l)
    ensures RowsOf(env, log, l, i) != [] && LeftOpen(env, log, l, i) <==> Waiting(env, l, i, Limit(env, l))
  {
    hide Ordered, InTime, Limit, Counts, ChangesAt, RowsOf, IsBoundary;
    var n := Limit(env, l);
    LimitBounds(env, l);
    forall k | 0 <= k < |l| ensures k < n <==> Counts(env, log, l[k]) { CountsHere(env, log, l, k); }
    RowsHere(env, log, l, i);
  }

  lemma UndoneBehindIs(l: seq<Item>, i: nat, n: nat)
    requires AllWorded(l) && i < n <= |l| && forall k :: i < k < n ==> !IsBoundary(l[k].ev)
    ensures RolledBack(l, i) <==> exists j :: n <= j < |l| && Undoes(l, j, i)
  {
    hide IsBoundary, Undoes, AllWorded;
    if RolledBack(l, i) {
      var j :| i < j < |l| && Undoes(l, j, i);
      UndoneNotBefore(l, i, j, n);
    }
  }

  lemma LaterAt(env: Env, log: Log, l: seq<Item>, i: nat)
    requires Ordered(log, l) && InTime(l) && AllWorded(l) && i < |l|
    ensures (RowsOf(env, log, l, i) != [] && LeftOpen(env, log, l, i) ==> !RolledBack(l, i)) <==>
            (i < Limit(env, l) && Waiting(env, l, i, Limit(env, l)) ==>
              forall j :: Limit(env, l) <= j < |l| ==> !Undoes(l, j, i))
  {
    hide Ordered, InTime, AllWorded, Limit, ChangesAt, RowsOf, IsBoundary, Undoes, LeftOpen, RolledBack;
    RowsHere(env, log, l, i);
    LimitBounds(env, l);
    if i < Limit(env, l) {
      OpenAtStop(env, log, l, i);
      if Waiting(env, l, i, Limit(env, l)) { UndoneBehindIs(l, i, Limit(env, l)); }
    }
  }

  lemma LaterFrom(env: Env, log: Log, l: seq<Item>)
    requires Ordered(log, l) && InTime(l) && AllWorded(l)
    ensures NoneUndoneBehind(env, log, l) <==> NoneUndoneLater(env, l, Limit(env, l))
  {
    hide Ordered, InTime, AllWorded, Limit, RowsOf, Undoes, LeftOpen, RolledBack, Waiting;
    LimitBounds(env, l);
    forall i | 0 <= i < |l|
      ensures (RowsOf(env, log, l, i) != [] && LeftOpen(env, log, l, i) ==> !RolledBack(l, i)) <==>
              (i < Limit(env, l) && Waiting(env, l, i, Limit(env, l)) ==>
                forall j :: Limit(env, l) <= j < |l| ==> !Undoes(l, j, i))
    {
      LaterAt(env, log, l, i);
    }
  }

  /** Event `i` is handed over exactly if the log keeps it. */
  ghost predicate RightlyHanded(env: Env, log: Log, l: seq<Item>, i: nat)
    requires i < |l|
  {
    RowsOf(env, log, l, i) != [] ==> (FateOf(env, log, l, i).Some? <==> !RolledBack(l, i))
  }

  lemma RightlyIs(env: Env, log: Log, l: seq<Item>, i: nat)
    requires Ordered(log, l) && InTime(l) && i < |l|
    ensures RightlyHanded(env, log, l, i) <==> (i < Limit(env, l) ==> Agrees(env, l, i, Limit(env, l)))
  {
    hide Ordered, InTime, Limit, ChangesAt, RowsOf, RolledBack, FateOf, Fate, NextBoundary;
    LimitBounds(env, l);
    RowsHere(env, log, l, i);
    if i < Limit(env, l) { FateUpTo(env, log, l, i); }
  }

  /** A dump of an ordered log hands over, of the events in its window, exactly those the log keeps, if and
      only if each row waiting at a rollback to a savepoint is undone and no row whose transaction is open
      at the stop is rolled back behind it. */
  lemma RightlyHandedIff(env: Env, log: Log, l: seq<Item>)
    requires Ordered(log, l) && InTime(l) && AllWorded(l)
    ensures (forall i :: 0 <= i < |l| ==> RightlyHanded(env, log, l, i)) <==>
            SavepointsDropUndone(env, log, l) && NoneUndoneBehind(env, log, l)
  {
    hide Ordered, InTime, AllWorded, Limit, RightlyHanded, Agrees, SavepointsDropUndone, NoneUndoneBehind,
         SavepointsSpare, NoneUndoneLater;
    var n := Limit(env, l);
    LimitBounds(env, l);
    SpareFrom(env, log, l);
    LaterFrom(env, log, l);
    HandedOverIsKeptIff(env, l, n);
    forall i | 0 <= i < |l|
      ensures RightlyHanded(env, log, l, i) <==> (i < n ==> Agrees(env, l, i, n))
    {
      RightlyIs(env, log, l, i);
    }
  }

  lemma UnstampedRows(env: Env, log: Log, l: seq<Item>, i: nat)
    requires i < |l| && RightlyHanded(env, log, l, i)
    ensures Unstamped(Kept(RowsOf(env, log, l, i), FateOf(env, log, l, i)))
            == if RolledBack(l, i) then [] else RowsOf(env, log, l, i)
  {
    hide RolledBack, FateOf, Kept, Unstamped, ChangesAt;
    RowsOrNone(env, log, l, i);
    UnstampedKept(env, l, i, FateOf(env, log, l, i));
    NoneKeptOf(FateOf(env, log, l, i));
    NoneUnstamped();
  }

  lemma RowsOrNone(env: Env, log: Log, l: seq<Item>, i: nat)
    requires i < |l|
    ensures RowsOf(env, log, l, i) in {[], ChangesAt(env, l, i)}
  {
    hide Counts, Wanted, NameAt;
  }

  lemma {:induction false} RowsAreCommitted(env: Env, log: Log, l: seq<Item>, b: nat)
    requires b <= |l| && forall i :: 0 <= i < |l| ==> RightlyHanded(env, log, l, i)
    ensures Unstamped(RowsInWindow(env, log, l, b)) == CommittedInWindow(env, log, l, b)
    decreases b
  {
    hide RolledBack, FateOf, Kept, Unstamped, RowsOf, RightlyHanded;
    if b == 0 {
      NoneUnstamped();
    } else {
      RowsAreCommitted(env, log, l, b - 1);
      UnstampedAppend(RowsInWindow(env, log, l, b - 1), Kept(RowsOf(env, log, l, b - 1), FateOf(env, log, l, b - 1)));
      UnstampedRows(env, log, l, b - 1);
    }
  }

  /** Then, transaction ids aside, the whole run hands over the rows of the window that the log keeps. */
  lemma {:induction false} OrderedDumpIsCommitted(env: Env, log: Log, file: string, pos: U32, faults: seq<Fault>)
    requires GoodLog(log) && NamesAscend(log) && Calm(log, file, pos, faults) && |faults| <= 4
             && Unlimited(env)
    requires InTime(Stream(log, file, pos)) && SmallEnough(env, log, Stream(log, file, pos))
             && AllWorded(Stream(log, file, pos))
    requires SavepointsDropUndone(env, log, Stream(log, file, pos))
    requires NoneUndoneBehind(env, log, Stream(log, file, pos))
    ensures var r := Run(env, log, Fresh(file, pos), faults, 4);
            var l := Stream(log, file, pos);
            Unstamped(RowsOnly(r.mem.out)) == CommittedInWindow(env, log, l, |l|)
  {
    hide GoodLog, NamesAscend, Sent, Tagged, Run, RowsOnly, InTime, Ordered, SmallEnough, RowsInWindow, Counts,
         AllWorded, SavepointsDropUndone, NoneUndoneBehind, Unstamped, CommittedInWindow, RightlyHanded;
    var l := Stream(log, file, pos);
    OrderedDumpIs(env, log, file, pos, faults);
    SentInOrder(log, file, pos);
    RightlyHandedIff(env, log, l);
    RowsAreCommitted(env, log, l, |l|);
  }
}
