/** The rows a log really keeps, with savepoints and with what follows the stop, against the rows a dump
    hands over: exactly when they are the same. */
module BinlogCommitted {
  import opened Options
  import opened Changes
  import opened Texts
  import opened Binlog
  import opened BinlogRows

  // ---- What a statement says ----

  datatype Says = Begins | Commits | RollsBack | Saves(name: string) | RollsBackTo(name: string) | SaysNothing

  predicate NameChar(c: char) {
    'A' <= c <= 'Z' || '0' <= c <= '9' || c == '_'
  }

  /** The word at the front. */
  function Front(s: string): (w: string)
    ensures w <= s
  {
    if s == [] || !NameChar(s[0]) then [] else [s[0]] + Front(s[1..])
  }

  function Behind(w: string, s: string): string
    requires w <= s
  {
    TrimLeft(s[|w|..])
  }

  /** Transaction control by whole words: BEGIN, START TRANSACTION, COMMIT, ROLLBACK, SAVEPOINT name and
      ROLLBACK [WORK] TO [SAVEPOINT] name. */
  function SaysOf(text: string): Says {
    var u := Upper(Trim(text));
    var first := Front(u);
    var rest := Behind(first, u);
    if first == "BEGIN" || (first == "START" && Front(rest) == "TRANSACTION") then Begins
    else if first == "COMMIT" then Commits
    else if first == "SAVEPOINT" then Saves(rest)
    else if first != "ROLLBACK" then SaysNothing
    else
      var to := if Front(rest) == "WORK" then Behind("WORK", rest) else rest;
      if Front(to) != "TO" then RollsBack
      else
        var name := Behind("TO", to);
        RollsBackTo(if Front(name) == "SAVEPOINT" then Behind("SAVEPOINT", name) else name)
  }

  function Said(ev: Event): Says {
    if ev.body.Query? then SaysOf(ev.body.text) else if ev.body.Xid? then Commits else SaysNothing
  }

  /** A statement that begins with a word of transaction control only where it is one. */
  predicate Worded(ev: Event) {
    ev.body.Query? ==>
      match TxnBoundary(ev.body.text)
      case Begin => SaysOf(ev.body.text) == Begins
      case Commit => SaysOf(ev.body.text) == Commits
      case Rollback => SaysOf(ev.body.text).RollsBack? || SaysOf(ev.body.text).RollsBackTo?
      case NoBoundary => SaysOf(ev.body.text).Saves? || SaysOf(ev.body.text) == SaysNothing
  }

  ghost predicate AllWorded(l: seq<Item>) {
    forall i :: 0 <= i < |l| ==> Worded(l[i].ev)
  }

  // ---- What a log keeps ----

  predicate EndsTransaction(ev: Event) {
    Said(ev) in {Begins, Commits, RollsBack}
  }

  /** Events `i` and `j` lie in one transaction. */
  predicate Together(l: seq<Item>, i: nat, j: nat)
    requires i < j <= |l|
  {
    forall k :: i < k < j ==> !EndsTransaction(l[k].ev)
  }

  /** The last savepoint of a name before event `j`, in its transaction. */
  predicate IsSavepoint(l: seq<Item>, p: nat, j: nat, name: string)
    requires p < j <= |l|
  {
    Said(l[p].ev) == Saves(name) && Together(l, p, j) && forall k :: p < k < j ==> Said(l[k].ev) != Saves(name)
  }

  /** Event `j` undoes what event `i` did: it rolls its transaction back, whole or to a savepoint set
      before event `i`. */
  predicate Undoes(l: seq<Item>, j: nat, i: nat)
    requires i < j < |l|
  {
    Together(l, i, j)
    && match Said(l[j].ev)
       case RollsBack => true
       case RollsBackTo(name) => exists p :: 0 <= p < i && IsSavepoint(l, p, j, name)
       case _ => false
  }

  predicate RolledBack(l: seq<Item>, i: nat)
    requires i < |l|
  {
    exists j :: i < j < |l| && Undoes(l, j, i)
  }

  /** The changes of the first `n` events that the log, as a whole, keeps. */
  function Committed(env: Env, l: seq<Item>, n: nat): seq<Change>
    requires n <= |l|
  {
    if n == 0 then []
    else Committed(env, l, n - 1) + if RolledBack(l, n - 1) then [] else ChangesAt(env, l, n - 1)
  }

  // ---- Against what is handed over ----

  predicate HandedOver(l: seq<Item>, i: nat, n: nat)
    requires i < n <= |l|
  {
    Fate(l, NextBoundary(l, i, n), n).Some?
  }

  /** Event `i` has changes that wait for a boundary when event `j` comes. */
  predicate Waiting(env: Env, l: seq<Item>, i: nat, j: nat)
    requires i < j <= |l|
  {
    ChangesAt(env, l, i) != [] && forall k :: i < k < j ==> !IsBoundary(l[k].ev)
  }

  /** At each rollback to a savepoint every waiting row came after the savepoint, or is undone later. */
  predicate SavepointsSpare(env: Env, l: seq<Item>, n: nat)
    requires n <= |l|
  {
    forall r, i :: 0 <= i < r < n && Said(l[r].ev).RollsBackTo? && Waiting(env, l, i, r) ==>
      Undoes(l, r, i) || exists j :: r < j < |l| && Undoes(l, j, i)
  }

  /** No row that waits when the dump ends is undone in the rest of the log. */
  predicate NoneUndoneLater(env: Env, l: seq<Item>, n: nat)
    requires n <= |l|
  {
    forall i, j :: 0 <= i < n && Waiting(env, l, i, n) && n <= j < |l| ==> !Undoes(l, j, i)
  }

  predicate Agrees(env: Env, l: seq<Item>, i: nat, n: nat)
    requires i < n <= |l|
  {
    ChangesAt(env, l, i) != [] ==> (HandedOver(l, i, n) <==> !RolledBack(l, i))
  }

  lemma WordedBoundary(ev: Event)
    requires Worded(ev)
    ensures IsBoundary(ev) <==> Said(ev) in {Begins, Commits, RollsBack} || Said(ev).RollsBackTo?
    ensures Said(ev).RollsBack? || Said(ev).RollsBackTo? <==> ev.body.Query? && TxnBoundary(ev.body.text) == Rollback
  {
    hide SaysOf, TxnBoundary;
  }

  /** Nothing between a row and the next boundary undoes it. */
  lemma UndoneNotBefore(l: seq<Item>, i: nat, j: nat, b: nat)
    requires AllWorded(l) && i < j < |l| && Undoes(l, j, i) && i < b <= |l|
    requires forall k :: i < k < b ==> !IsBoundary(l[k].ev)
    ensures j >= b
  {
    hide IsBoundary, Said, IsSavepoint, Worded;
    WordedBoundary(l[j].ev);
  }

  /** A transaction that a boundary ends is not undone after it. */
  lemma UndoneNotAfter(l: seq<Item>, i: nat, j: nat, b: nat)
    requires i < b < |l| && EndsTransaction(l[b].ev) && i < j < |l| && Undoes(l, j, i)
    ensures j <= b
  {
    hide EndsTransaction, Said, IsSavepoint;
  }

  lemma FateAtBoundary(l: seq<Item>, b: nat, n: nat)
    requires b < n <= |l| && Worded(l[b].ev) && IsBoundary(l[b].ev)
    ensures Fate(l, b, n).None? <==> Said(l[b].ev).RollsBack? || Said(l[b].ev).RollsBackTo?
  {
    hide SaysOf, TxnBoundary;
  }

  /** Row by row: the fates agree except for a row waiting at a rollback to a savepoint that spares it, and
      one waiting at the end that is undone later. */
  lemma AgreesIff(env: Env, l: seq<Item>, i: nat, n: nat)
    requires AllWorded(l) && i < n <= |l| && ChangesAt(env, l, i) != []
    ensures var b := NextBoundary(l, i, n);
            Waiting(env, l, i, b)
            && (Agrees(env, l, i, n) <==>
                if b == n then forall j :: n <= j < |l| ==> !Undoes(l, j, i)
                else Said(l[b].ev).RollsBackTo? ==> RolledBack(l, i))
  {
    hide IsBoundary, ChangesAt, Said, Undoes, Worded, Fate, EndsTransaction;
    var b := NextBoundary(l, i, n);
    assert Waiting(env, l, i, b);
    if b == n {
      KeptAtEnd(l, n);
      forall j | i < j < |l| && Undoes(l, j, i) ensures j >= n { UndoneNotBefore(l, i, j, n); }
    } else {
      WordedBoundary(l[b].ev);
      FateAtBoundary(l, b, n);
      if Said(l[b].ev).RollsBack? { WholeUndone(l, i, b); }
      else if !Said(l[b].ev).RollsBackTo? { KeptFor(l, i, b); }
    }
  }

  lemma KeptAtEnd(l: seq<Item>, n: nat)
    requires n <= |l|
    ensures Fate(l, n, n) == Some(0)
  {
  }

  lemma NoneEnds(l: seq<Item>, i: nat, b: nat)
    requires AllWorded(l) && i < b <= |l| && forall k :: i < k < b ==> !IsBoundary(l[k].ev)
    ensures Together(l, i, b)
  {
    hide IsBoundary, Said, Worded;
    forall k | i < k < b ensures !EndsTransaction(l[k].ev) { WordedBoundary(l[k].ev); }
  }

  lemma WholeUndone(l: seq<Item>, i: nat, b: nat)
    requires AllWorded(l) && i < b < |l| && Said(l[b].ev).RollsBack? && forall k :: i < k < b ==> !IsBoundary(l[k].ev)
    ensures RolledBack(l, i)
  {
    hide IsBoundary, Said, Worded, Together;
    NoneEnds(l, i, b);
    assert Undoes(l, b, i);
  }

  lemma KeptFor(l: seq<Item>, i: nat, b: nat)
    requires AllWorded(l) && i < b < |l| && Said(l[b].ev) in {Begins, Commits}
    requires forall k :: i < k < b ==> !IsBoundary(l[k].ev)
    ensures !RolledBack(l, i)
  {
    hide IsBoundary, Said, Worded, Together, IsSavepoint;
    forall j | i < j < |l| ensures !Undoes(l, j, i) {
      if Undoes(l, j, i) {
        UndoneNotBefore(l, i, j, b);
        UndoneNotAfter(l, i, j, b);
      }
    }
  }

  lemma SpareAt(env: Env, l: seq<Item>, i: nat, r: nat, n: nat)
    requires i < r < n <= |l| && SavepointsSpare(env, l, n) && Said(l[r].ev).RollsBackTo? && Waiting(env, l, i, r)
    ensures RolledBack(l, i)
  {
    hide Said, Waiting, Undoes;
  }

  /** Each row before the end is handed over if and only if the log keeps it, exactly when the savepoints
      spare no waiting row and nothing waiting at the end is undone later. */
  lemma HandedOverIsKeptIff(env: Env, l: seq<Item>, n: nat)
    requires AllWorded(l) && n <= |l|
    ensures (forall i :: 0 <= i < n ==> Agrees(env, l, i, n)) <==>
            SavepointsSpare(env, l, n) && NoneUndoneLater(env, l, n)
  {
    hide IsBoundary, ChangesAt, Said, Undoes, AllWorded, Fate, Waiting, Agrees;
    if SavepointsSpare(env, l, n) && NoneUndoneLater(env, l, n) {
      forall i | 0 <= i < n ensures Agrees(env, l, i, n) { AgreesHere(env, l, i, n); }
    }
    if forall i :: 0 <= i < n ==> Agrees(env, l, i, n) {
      forall r, i | 0 <= i < r < n && Said(l[r].ev).RollsBackTo? && Waiting(env, l, i, r)
        ensures Undoes(l, r, i) || exists j :: r < j < |l| && Undoes(l, j, i)
      {
        SparedHere(env, l, i, r, n);
      }
      forall i, j | 0 <= i < n && Waiting(env, l, i, n) && n <= j < |l| ensures !Undoes(l, j, i) {
        NotUndoneHere(env, l, i, j, n);
      }
    }
  }

  lemma AgreesHere(env: Env, l: seq<Item>, i: nat, n: nat)
    requires AllWorded(l) && i < n <= |l| && SavepointsSpare(env, l, n) && NoneUndoneLater(env, l, n)
    ensures Agrees(env, l, i, n)
  {
    hide IsBoundary, ChangesAt, Said, Undoes, AllWorded, HandedOver, Waiting, RolledBack, SavepointsSpare;
    if ChangesAt(env, l, i) != [] {
      AgreesIff(env, l, i, n);
      var b := NextBoundary(l, i, n);
      if b < n && Said(l[b].ev).RollsBackTo? { SpareAt(env, l, i, b, n); }
    }
  }

  lemma WaitingAt(env: Env, l: seq<Item>, i: nat, r: nat, n: nat)
    requires i < r <= n <= |l| && Waiting(env, l, i, r) && (r < n ==> IsBoundary(l[r].ev))
    ensures ChangesAt(env, l, i) != [] && NextBoundary(l, i, n) == r
  {
    hide IsBoundary, ChangesAt, NextBoundary;
    NextIs(l, i, r, n);
  }

  lemma SparedHere(env: Env, l: seq<Item>, i: nat, r: nat, n: nat)
    requires AllWorded(l) && i < r < n <= |l| && Said(l[r].ev).RollsBackTo? && Waiting(env, l, i, r)
    requires Agrees(env, l, i, n)
    ensures Undoes(l, r, i) || exists j :: r < j < |l| && Undoes(l, j, i)
  {
    hide IsBoundary, ChangesAt, Said, Undoes, Worded, HandedOver, Waiting, Agrees, NextBoundary;
    WordedBoundary(l[r].ev);
    WaitingAt(env, l, i, r, n);
    AgreesIff(env, l, i, n);
    var j :| i < j < |l| && Undoes(l, j, i);
    NotBeforeBoundary(env, l, i, j, r);
  }

  lemma NotBeforeBoundary(env: Env, l: seq<Item>, i: nat, j: nat, r: nat)
    requires AllWorded(l) && i < j < |l| && i < r <= |l| && Undoes(l, j, i) && Waiting(env, l, i, r)
    ensures j >= r
  {
    hide IsBoundary, ChangesAt, Undoes, AllWorded;
    UndoneNotBefore(l, i, j, r);
  }

  lemma NotUndoneHere(env: Env, l: seq<Item>, i: nat, j: nat, n: nat)
    requires AllWorded(l) && i < n <= j < |l| && Waiting(env, l, i, n) && Agrees(env, l, i, n)
    ensures !Undoes(l, j, i)
  {
    hide IsBoundary, ChangesAt, Said, Undoes, AllWorded, HandedOver, Waiting, Agrees, NextBoundary, RolledBack;
    WaitingAt(env, l, i, n, n);
    AgreesIff(env, l, i, n);
  }

  // ---- The rows themselves ----

  function Unstamped(chs: seq<Change>): (r: seq<Change>)
    ensures |r| == |chs| && forall i :: 0 <= i < |r| ==> r[i] == chs[i].(xid64 := 0)
  {
    if chs == [] then [] else [chs[0].(xid64 := 0)] + Unstamped(chs[1..])
  }

  lemma {:induction false} RowsHaveNoXid(t: Change, op: RowOp, images: seq<Row>)
    requires t.xid64 == 0
    ensures forall ch :: ch in RowChanges(t, op, images) ==> ch.xid64 == 0
    decreases |images|
  {
    if op == Updated {
      if |images| >= 2 { RowsHaveNoXid(t, op, images[2..]); }
    } else if images != [] {
      RowsHaveNoXid(t, op, images[1..]);
    }
  }

  lemma ChangesHaveNoXid(env: Env, l: seq<Item>, i: nat)
    requires i < |l|
    ensures forall ch :: ch in ChangesAt(env, l, i) ==> ch.xid64 == 0
  {
    hide RowChanges;
    if l[i].ev.body.Rows? && NameAt(l, i).Some? && env.dict(NameAt(l, i).value).Some? {
      var name, body := NameAt(l, i).value, l[i].ev.body;
      RowsHaveNoXid(Template(l[i].ev.ts, name, env.dict(name).value), body.op, body.images);
    }
  }

  lemma UnstampedAppend(a: seq<Change>, b: seq<Change>)
    ensures Unstamped(a + b) == Unstamped(a) + Unstamped(b)
  {
  }

  lemma UnstampedStamp(chs: seq<Change>, xid: int)
    requires forall ch :: ch in chs ==> ch.xid64 == 0
    ensures Unstamped(Stamp(chs, xid)) == chs
  {
    var r := Unstamped(Stamp(chs, xid));
    forall i | 0 <= i < |chs| ensures r[i] == chs[i] { assert chs[i] in chs; }
  }

  lemma UnstampedKept(env: Env, l: seq<Item>, i: nat, fate: Option<int>)
    requires i < |l|
    ensures Unstamped(Kept(ChangesAt(env, l, i), fate)) == if fate.Some? then ChangesAt(env, l, i) else []
  {
    hide ChangesAt, Stamp, Unstamped;
    ChangesHaveNoXid(env, l, i);
    if fate.Some? { UnstampedStamp(ChangesAt(env, l, i), fate.value); } else { NoneUnstamped(); }
  }

  lemma NoneUnstamped()
    ensures Unstamped([]) == []
  {
  }

  lemma {:induction false} HandedIsCommitted(env: Env, l: seq<Item>, b: nat, n: nat)
    requires b <= n <= |l| && forall i :: 0 <= i < n ==> Agrees(env, l, i, n)
    ensures Unstamped(HandedRows(env, l, 0, b, n)) == Committed(env, l, b)
    decreases b
  {
    hide ChangesAt, Fate, Kept, RolledBack, Unstamped, NextBoundary;
    if b == 0 {
      NoneUnstamped();
    } else {
      HandedIsCommitted(env, l, b - 1, n);
      var fate := Fate(l, NextBoundary(l, b - 1, n), n);
      UnstampedAppend(HandedRows(env, l, 0, b - 1, n), Kept(ChangesAt(env, l, b - 1), fate));
      UnstampedKept(env, l, b - 1, fate);
      assert Agrees(env, l, b - 1, n);
    }
  }

  /** What is handed over up to the end, transaction ids aside, is what the log keeps of it, when the
      savepoints spare no waiting row and nothing waiting at the end is undone later. */
  lemma KeptRowsAreHandedOver(env: Env, l: seq<Item>, n: nat)
    requires AllWorded(l) && n <= |l| && SavepointsSpare(env, l, n) && NoneUndoneLater(env, l, n)
    ensures Unstamped(HandedRows(env, l, 0, n, n)) == Committed(env, l, n)
  {
    hide AllWorded, SavepointsSpare, NoneUndoneLater, Agrees;
    HandedOverIsKeptIff(env, l, n);
    HandedIsCommitted(env, l, n, n);
  }

  // ---- Statements as a server writes them ----

  /** A name in capitals without outer blanks. */
  predicate PlainName(name: string) {
    name != "" && !IsSpace(name[0]) && !IsSpace(name[|name| - 1]) && Upper(name) == name && Front(name) != "SAVEPOINT"
  }

  lemma {:induction false} FrontIs(w: string, rest: string)
    requires (forall i :: 0 <= i < |w| ==> NameChar(w[i])) && (rest == "" || !NameChar(rest[0]))
    ensures Front(w + rest) == w
    decreases |w|
  {
    hide NameChar;
    if w == "" {
      assert w + rest == rest;
    } else {
      assert (w + rest)[0] == w[0] && (w + rest)[1..] == w[1..] + rest;
      FrontIs(w[1..], rest);
    }
  }

  lemma NothingTrimmed(s: string)
    requires s != "" && !IsSpace(s[0]) && !IsSpace(s[|s| - 1])
    ensures Trim(s) == s
  {
    hide IsSpace;
  }

  lemma UpperJoined(a: string, b: string)
    requires Upper(a) == a && Upper(b) == b
    ensures Upper(a + b) == a + b
  {
    var u := Upper(a + b);
    forall i | 0 <= i < |a + b| ensures u[i] == (a + b)[i] {
      if i < |a| { assert Upper(a)[i] == a[i]; } else { assert Upper(b)[i - |a|] == b[i - |a|]; }
    }
  }

  lemma BlankTrimmed(name: string)
    requires name != "" && !IsSpace(name[0])
    ensures TrimLeft(" " + name) == name
  {
    hide IsSpace;
    assert IsSpace(' ') by { Blanks(); }
    assert (" " + name)[1..] == name;
  }

  lemma Blanks()
    ensures IsSpace(' ')
  {
  }

  lemma NoControlWord(u: string)
    requires |u| >= 2 && u[0] == 'S' && u[1] == 'A'
    ensures !("BEGIN" <= u) && !("START TRANSACTION" <= u) && !("ROLLBACK" <= u) && !("COMMIT" <= u)
  {
    assert "START TRANSACTION"[1] == 'T';
  }

  lemma SavepointUpper(name: string)
    requires PlainName(name)
    ensures var text := "SAVEPOINT " + name;
            Upper(Trim(text)) == text && text == "SAVEPOINT" + (" " + name) && text[9..] == " " + name
  {
    hide IsSpace, Front;
    var text := "SAVEPOINT " + name;
    Letters();
    NothingTrimmed(text);
    UpperJoined("SAVEPOINT ", name);
    assert text == "SAVEPOINT" + (" " + name);
  }

  lemma SavepointText(name: string)
    requires PlainName(name)
    ensures SaysOf("SAVEPOINT " + name) == Saves(name) && TxnBoundary("SAVEPOINT " + name) == NoBoundary
  {
    hide IsSpace, Front, Upper, Trim, TrimLeft;
    SavepointUpper(name);
    FrontIs("SAVEPOINT", " " + name);
    BlankTrimmed(name);
    NoControlWord("SAVEPOINT " + name);
  }

  lemma Letters()
    ensures !IsSpace('S') && !IsSpace('R') && !IsSpace('T')
    ensures Upper("SAVEPOINT ") == "SAVEPOINT " && Upper("ROLLBACK TO ") == "ROLLBACK TO "
  {
  }

  lemma RollbackUpper(name: string)
    requires PlainName(name)
    ensures var text := "ROLLBACK TO " + name;
            Upper(Trim(text)) == text && text == "ROLLBACK" + (" " + ("TO " + name))
              && text[8..] == " " + ("TO " + name)
  {
    hide IsSpace, Front;
    var text := "ROLLBACK TO " + name;
    Letters();
    NothingTrimmed(text);
    UpperJoined("ROLLBACK TO ", name);
    assert text == "ROLLBACK" + (" " + ("TO " + name));
  }

  lemma RollbackControl(u: string)
    requires "ROLLBACK" <= u
    ensures !("BEGIN" <= u) && !("START TRANSACTION" <= u)
  {
    assert u[0] == "ROLLBACK"[0] == 'R';
  }

  lemma ToName(name: string)
    requires PlainName(name)
    ensures var to := "TO " + name;
            Front(to) == "TO" && "TO" <= to && TrimLeft(" " + to) == to && TrimLeft(to[2..]) == name
  {
    hide IsSpace, Front;
    var to := "TO " + name;
    assert to == "TO" + (" " + name) && to[2..] == " " + name;
    Letters();
    BlankTrimmed(to);
    FrontIs("TO", " " + name);
    BlankTrimmed(name);
  }

  lemma RollbackToText(name: string)
    requires PlainName(name)
    ensures SaysOf("ROLLBACK TO " + name) == RollsBackTo(name) && TxnBoundary("ROLLBACK TO " + name) == Rollback
  {
    hide IsSpace, Front, Upper, Trim, TrimLeft, NameChar;
    RollbackUpper(name);
    RollbackFront("TO " + name);
    ToName(name);
    RollbackControl("ROLLBACK TO " + name);
  }

  lemma RollbackFront(to: string)
    ensures Front("ROLLBACK" + (" " + to)) == "ROLLBACK"
  {
    hide Front;
    FrontIs("ROLLBACK", " " + to);
  }
}
