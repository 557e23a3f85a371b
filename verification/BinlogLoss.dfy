/** A disconnect between a rotate and the next event with a position: the dump reopens the new file at
    the old file's position and loses what lies before it. */
module BinlogLoss {
  import opened Options
  import opened Changes
  import opened Binlog
  import opened BinlogRows
  import opened BinlogDump
  import opened BinlogServer
  import opened BinlogRun

  const ROW: Row := map["id" := "1"]

  const INSERT := Event(10, 200, 50, Rows(Some(Name("s", "t")), 1, Inserted, [ROW]))

  const ROTATE := Event(5, 200, 40, Rotate("b.2"))

  /** The commit of the insert, which begins where the first file ended. */
  const COMMIT := Event(10, 260, 60, Xid(7))

  const LOG := [File("b.1", [ROTATE]), File("b.2", [INSERT, COMMIT])]

  const CHANGE := Template(10, Name("s", "t"), []).(op := Insert, after := ROW)

  const HANDED := CHANGE.(xid64 := 7)

  function Everything(): Env {
    Env(1, 100, 0, 0, 0, "", 0, _ => Some([]), (_, _) => true)
  }

  lemma LogIsGood()
    ensures GoodLog(LOG) && Find(LOG, "b.1") == 0 && Find(LOG, "b.2") == 1
  {
    assert LOG[0].name[2] != LOG[1].name[2];
    assert Find(LOG, "b.1") == 0;
    assert LOG[1].name == "b.2" && LOG[0].name == "b.1";
  }

  lemma SentAll()
    ensures Sent(LOG, "b.1", 4) == Some([Announce("b.1"), ROTATE, Announce("b.2"), INSERT, COMMIT])
    ensures Sent(LOG, "b.2", 200) == Some([Announce("b.2"), COMMIT])
  {
    hide Find;
    LogIsGood();
    var one, two, left := [ROTATE], [INSERT, COMMIT], [COMMIT];
    assert two[1..] == left;
    assert Later(one, 4) == one && Later(two, 200) == left;
    assert LOG[0].events == one && LOG[1].events == two;
    assert Following(LOG, 2) == [];
    assert Following(LOG, 1) == [Announce("b.2")] + two + [] == [Announce("b.2"), INSERT, COMMIT];
    assert Sent(LOG, "b.1", 4).value == [Announce("b.1")] + one + Following(LOG, 1);
    assert Sent(LOG, "b.2", 200).value == [Announce("b.2")] + left + Following(LOG, 2);
    assert [Announce("b.1")] + one + [Announce("b.2"), INSERT, COMMIT]
        == [Announce("b.1"), ROTATE, Announce("b.2"), INSERT, COMMIT];
    assert [Announce("b.2")] + left + [] == [Announce("b.2"), COMMIT];
  }

  lemma FeedThree(env: Env, m: Mem, a: Event, b: Event, rest: seq<Event>)
    ensures var n := Step(env, m, a);
            Feed(env, m, [a, b] + rest) ==
            if n.status.Some? then n
            else var n' := Step(env, n.mem, b); if n'.status.Some? then n' else Feed(env, n'.mem, rest)
  {
    hide Step;
    var all := [a, b] + rest;
    assert all[1..] == [b] + rest && all[1..][1..] == rest;
  }

  lemma Rotated(m: Mem, ev: Event)
    requires ev.body.Rotate?
    ensures Step(Everything(), m, ev).status.None?
    ensures var m' := Step(Everything(), m, ev).mem;
            m'.curFile == ev.body.next && m'.pending == m.pending && m'.out == m.out
            && m'.resumePos == if ev.logPos > 0 then ev.logPos else m.resumePos
  {
  }

  lemma Read(m: Mem)
    requires m.pending == [] && m.out == []
    ensures var n := Step(Everything(), m, INSERT); n.status.None? && n.mem.pending == [CHANGE] && n.mem.out == []
  {
    hide Joined;
    var chs := [CHANGE];
    JoinedIs([], chs);
    assert [] + chs == chs && |chs| == 1;
    var images := [ROW];
    assert images[1..] == [];
    var t := Template(10, Name("s", "t"), []);
    assert RowChanges(t, Inserted, []) == [];
    assert RowChanges(t, Inserted, images) == [CHANGE] + [] == chs;
    assert Wanted(Everything(), INSERT, Some(Name("s", "t"))) == RowChanges(t, Inserted, images);
    assert PosReached(m.curFile, 200, "", 0) == false;
  }

  lemma Committed(m: Mem)
    requires m.out == [] && (m.pending == [] || m.pending == [CHANGE])
    ensures var n := Step(Everything(), m, COMMIT); n.status.None? && n.mem.pending == []
    ensures m.pending == [CHANGE] ==> Step(Everything(), m, COMMIT).mem.out == [HANDED]
    ensures m.pending == [] ==> Step(Everything(), m, COMMIT).mem.out == []
  {
    assert PosReached(m.curFile, 260, "", 0) == false;
    var chs := [CHANGE];
    assert chs[1..] == [];
    assert [] + [HANDED] == [HANDED];
    assert Flush(Everything(), [HANDED], [], 7) == Handed([HANDED], true);
    if m.pending == [CHANGE] { assert Flush(Everything(), [], m.pending, 7) == Handed([HANDED], true); }
  }

  /** Undisturbed, the row is handed over; with one break right after the rotate the first event of the new
      file is passed over, and the dump ends in the same way without the row. */
  lemma BreakAfterRotateLosesRows()
    ensures GoodLog(LOG) && Unlimited(Everything())
    ensures var whole := Run(Everything(), LOG, Fresh("b.1", 4), [], 4);
            var broken := Run(Everything(), LOG, Fresh("b.1", 4), [Fault(2, true)], 4);
            whole.mem.out == [HANDED] && broken.mem.out == [] && whole.status == broken.status
  {
    hide GoodLog, Sent, Run;
    LogIsGood();
    SentAll();
    WithoutBreak();
    WithBreak();
  }

  lemma FeedTwo(m: Mem, a: Event, b: Event)
    ensures var n := Step(Everything(), m, a);
            Feed(Everything(), m, [a, b])
            == if n.status.Some? then n
               else var n' := Step(Everything(), n.mem, b); if n'.status.Some? then n' else Next(n'.mem, None)
  {
    hide Step;
    FeedThree(Everything(), m, a, b, []);
    assert [a, b] + [] == [a, b];
  }

  lemma WithoutBreak()
    ensures Run(Everything(), LOG, Fresh("b.1", 4), [], 4).mem.out == [HANDED]
    ensures Run(Everything(), LOG, Fresh("b.1", 4), [], 4).status == Some(Cancelled)
  {
    hide Step, Sent, Feed, Flushed;
    SentAll();
    var m, a, b, c := Fresh("b.1", 4), Announce("b.1"), ROTATE, Announce("b.2");
    FeedThree(Everything(), m, a, b, [c, INSERT, COMMIT]);
    assert [a, b] + [c, INSERT, COMMIT] == [a, b, c, INSERT, COMMIT];
    Rotated(m, a);
    var m1 := Step(Everything(), m, a).mem;
    Rotated(m1, b);
    var m2 := Step(Everything(), m1, b).mem;
    FeedThree(Everything(), m2, c, INSERT, [COMMIT]);
    assert [c, INSERT] + [COMMIT] == [c, INSERT, COMMIT];
    Rotated(m2, c);
    var m3 := Step(Everything(), m2, c).mem;
    Read(m3);
    var m4 := Step(Everything(), m3, INSERT).mem;
    FeedOne(m4, COMMIT);
    Committed(m4);
    FlushNothing(Step(Everything(), m4, COMMIT).mem);
  }

  lemma WithBreak()
    ensures Run(Everything(), LOG, Fresh("b.1", 4), [Fault(2, true)], 4).mem.out == []
    ensures Run(Everything(), LOG, Fresh("b.1", 4), [Fault(2, true)], 4).status == Some(Cancelled)
  {
    hide Step, Sent, Feed, Flushed;
    SentAll();
    var m, a, b, c := Fresh("b.1", 4), Announce("b.1"), ROTATE, Announce("b.2");
    FeedTwo(m, a, b);
    assert [a, b, c, INSERT, COMMIT][..2] == [a, b];
    Rotated(m, a);
    var m1 := Step(Everything(), m, a).mem;
    Rotated(m1, b);
    var m2 := Step(Everything(), m1, b).mem;
    FeedTwo(m2, c, COMMIT);
    Rotated(m2, c);
    var m3 := Step(Everything(), m2, c).mem;
    Committed(m3);
    FlushNothing(Step(Everything(), m3, COMMIT).mem);
    var faults := [Fault(2, true)];
    assert faults[1..] == [];
  }

  lemma FeedOne(m: Mem, ev: Event)
    ensures Feed(Everything(), m, [ev]) == Step(Everything(), m, ev)
  {
    hide Step;
    assert [ev][1..] == [];
  }

  lemma FlushNothing(m: Mem)
    requires m.pending == []
    ensures Flushed(Everything(), m, 0).out == m.out
  {
  }
}
