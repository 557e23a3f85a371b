/** A log in order: an event counts exactly when it lies before the stop position and not after the window,
    and a server whose file names ascend sends its events in order. */
module BinlogOrder {
  import opened Bytes
  import opened Texts
  import opened Binlog
  import opened BinlogRows
  import opened BinlogServer

  predicate Before(a: Item, b: Item) {
    Less(Trim(a.file), Trim(b.file)) || (a.file == b.file && a.ev.logPos <= b.ev.logPos)
  }

  ghost predicate InOrder(l: seq<Item>) {
    forall i, j :: 0 <= i < j < |l| ==> Before(l[i], l[j])
  }

  /** Once the stop position or the end of the window is reached, it stays so. */
  lemma StopStays(env: Env, a: Item, b: Item)
    requires Stops(env, a) && Before(a, b) && 0 < a.ev.ts <= b.ev.ts
    ensures Stops(env, b)
  {
    hide Less, Trim;
    if Less(Trim(env.endFile), Trim(a.file)) && Less(Trim(a.file), Trim(b.file)) {
      LessTransitive(Trim(env.endFile), Trim(a.file), Trim(b.file));
    }
  }

  // ---- Where the dump ends, in a log's own places ----

  ghost predicate NamesAscend(log: Log) {
    forall f, g :: 0 <= f < g < |log| ==> Less(Trim(log[f].name), Trim(log[g].name))
  }

  /** Where the stop position is in file number `e` of the log: in an earlier file, or in that file and ending
      before it. A stop in a file the log does not have lies behind the files whose names do not come after. */
  predicate BeforeStop(env: Env, log: Log, it: Item) {
    env.endFile == "" ||
    var f, e := Find(log, it.file), Find(log, env.endFile);
    if e < |log| then f < e || (f == e && it.ev.logPos < env.endPos)
    else !Less(Trim(env.endFile), Trim(it.file))
  }

  /** Before the stop position and not after the window. */
  predicate Counts(env: Env, log: Log, it: Item) {
    it.ev.ts <= env.end && BeforeStop(env, log, it)
  }

  /** Events of the log's files, in order. */
  ghost predicate Ordered(log: Log, l: seq<Item>) {
    InOrder(l) && NamesAscend(log) && forall i :: 0 <= i < |l| ==> Find(log, l[i].file) < |log|
  }

  lemma NamedOnce(log: Log, f: nat)
    requires NamesAscend(log) && f < |log|
    ensures Find(log, log[f].name) == f
  {
    hide Less, Trim;
    var e := Find(log, log[f].name);
    if e != f { NotBoth(Trim(log[e].name), Trim(log[f].name)); }
  }

  lemma NotBoth(a: string, b: string)
    ensures !(Less(a, b) && Less(b, a)) && !Less(a, a)
  {
    if Less(a, b) && Less(b, a) { LessTransitive(a, b, a); }
    LessIrreflexive(a);
  }

  lemma ReachedIff(env: Env, log: Log, it: Item)
    requires NamesAscend(log) && Find(log, it.file) < |log|
    ensures PosReached(it.file, it.ev.logPos, env.endFile, env.endPos) <==> !BeforeStop(env, log, it)
  {
    hide Less, Trim;
    var f, e := Find(log, it.file), Find(log, env.endFile);
    NotBoth(Trim(it.file), Trim(env.endFile));
    NotBoth(Trim(env.endFile), Trim(env.endFile));
    if e < f { assert Less(Trim(log[e].name), Trim(log[f].name)); }
  }

  /** On a log in order, an event counts exactly when it itself lies before the stop position and not
      after the window. */
  lemma CountsIff(env: Env, log: Log, l: seq<Item>, i: nat)
    requires Ordered(log, l) && InTime(l) && i < |l|
    ensures i < Limit(env, l) <==> Counts(env, log, l[i])
  {
    hide PosReached, Before, BeforeStop, NamesAscend, Find;
    var n := Limit(env, l);
    if n < i { StopStays(env, l[n], l[i]); }
    ReachedIff(env, log, l[i]);
    assert Stops(env, l[i]) <==> l[i].ev.ts > env.end || PosReached(l[i].file, l[i].ev.logPos, env.endFile, env.endPos);
  }

  // ---- A server's log is in order ----

  /** Positions grow, and only the last event may be a rotate. */
  ghost predicate Ascending(evs: seq<Event>) {
    && (forall i, j :: 0 <= i < j < |evs| ==> evs[i].logPos < evs[j].logPos)
    && (forall i :: 0 <= i < |evs| && evs[i].body.Rotate? ==> i + 1 == |evs|)
  }

  lemma {:induction false} FileInOrder(name: string, evs: seq<Event>)
    requires Ascending(evs)
    ensures InOrder(Tagged(name, evs))
    ensures forall it :: it in Tagged(name, evs) ==> it.file == name && it.ev in evs
    decreases |evs|
  {
    hide Less, Trim;
    if evs != [] && !evs[0].body.Rotate? {
      FileInOrder(name, evs[1..]);
      var rest := Tagged(name, evs[1..]);
      forall it | it in rest ensures Before(Item(name, evs[0]), it) {
        var i :| 0 < i < |evs| && it.ev == evs[i];
      }
    } else if evs != [] {
      assert evs[1..] == [];
    }
  }

  lemma {:induction false} LaterFiles(log: Log, f: nat, file: string)
    requires GoodLog(log) && NamesAscend(log) && f <= |log|
    ensures InOrder(Tagged(file, Following(log, f)))
    ensures forall it :: it in Tagged(file, Following(log, f)) ==> exists g :: f <= g < |log| && it.file == log[g].name
    decreases |log| - f
  {
    hide GoodLog, NamesAscend;
    if f < |log| {
      FollowingFirst(log, f);
      FromFile(log, f, 0);
    }
  }

  lemma {:induction false} FromFile(log: Log, g: nat, j: nat)
    requires GoodLog(log) && NamesAscend(log) && g < |log| && j <= |log[g].events|
    ensures var l := Tagged(log[g].name, log[g].events[j..] + Following(log, g + 1));
            InOrder(l) && forall it :: it in l ==> exists h :: g <= h < |log| && it.file == log[h].name
    decreases |log| - g, 1
  {
    hide Less, Trim, Tagged, Following, FileAfter;
    var name, evs := log[g].name, log[g].events[j..];
    assert GoodFile(log, g);
    TaggedAppend(name, evs, Following(log, g + 1));
    FileInOrder(name, evs);
    LaterFiles(log, g + 1, FileAfter(name, evs));
    var a, b := Tagged(name, evs), Tagged(FileAfter(name, evs), Following(log, g + 1));
    forall x, y | x in a && y in b ensures Before(x, y) {
      var h :| g + 1 <= h < |log| && y.file == log[h].name;
    }
    InOrderAppend(a, b);
  }

  lemma InOrderAppend(a: seq<Item>, b: seq<Item>)
    requires InOrder(a) && InOrder(b) && forall x, y :: x in a && y in b ==> Before(x, y)
    ensures InOrder(a + b)
  {
    hide Before;
  }

  /** Names in string order put everything a server sends in order. */
  lemma SentInOrder(log: Log, file: string, pos: U32)
    requires GoodLog(log) && NamesAscend(log) && Sent(log, file, pos).Some?
    ensures Ordered(log, Tagged(file, Sent(log, file, pos).value))
  {
    hide GoodLog, NamesAscend, InOrder, Tagged, Later, Following, Find;
    var g := Find(log, file);
    var j := LaterIsSuffix(log[g].events, pos);
    SentIn(log, g, pos);
    FromFile(log, g, j);
    var l := Tagged(file, Sent(log, file, pos).value);
    forall i | 0 <= i < |l| ensures Find(log, l[i].file) < |log| {
      assert l[i] in l;
      var h :| g <= h < |log| && l[i].file == log[h].name;
      NamedOnce(log, h);
    }
  }
}
