/** Two logs on which what is handed over is not what the log keeps: a rollback to a savepoint set after a
    row, and a rollback after the dump has ended. */
module BinlogUndone {
  import opened Bytes
  import opened Options
  import opened Texts
  import opened Binlog
  import opened BinlogRows
  import opened BinlogCommitted
  import opened BinlogLoss

  function Row(ts: U32): Item {
    Item("b.1", INSERT.(ts := ts))
  }

  function Stated(ts: U32, logPos: U32, text: string): Item {
    Item("b.1", Event(ts, logPos, 20, Query("", text)))
  }

  /** The row is set, then a savepoint; the rollback to it spares the row, and the transaction commits. */
  function Spared(): seq<Item> {
    [Row(10), Stated(10, 220, "SAVEPOINT " + "P"), Stated(10, 240, "ROLLBACK TO " + "P"),
     Item("b.1", Event(10, 260, 20, Xid(7)))]
  }

  /** The row is inside the window, its rollback after it. */
  function CutOff(): seq<Item> {
    [Row(10), Stated(101, 220, "ROLLBACK")]
  }

  lemma RowHasChange(l: seq<Item>)
    requires l != [] && l[0] == Row(10)
    ensures ChangesAt(Everything(), l, 0) == [CHANGE]
  {
    var images := [ROW];
    assert images[1..] == [];
    var t := Template(10, Name("s", "t"), []);
    assert RowChanges(t, Inserted, []) == [];
    assert RowChanges(t, Inserted, images) == [CHANGE] + [];
    assert NameAt(l, 0) == Some(Name("s", "t"));
  }

  lemma PIsPlain()
    ensures PlainName("P")
  {
    assert "P"[1..] == "";
    assert Upper("P") == "P";
  }

  lemma RollbackText()
    ensures SaysOf("ROLLBACK") == RollsBack && TxnBoundary("ROLLBACK") == Rollback
  {
    hide IsSpace, Front;
    var text := "ROLLBACK";
    Letters();
    assert !IsSpace('K') by { LastLetter(); }
    NothingTrimmed(text);
    assert Upper(text) == text;
    assert text + "" == text;
    FrontIs(text, "");
    assert text[8..] == "" && TrimLeft("") == "";
    assert Front("") == "" by { NoFront(); }
    RollbackControl(text);
  }

  lemma LastLetter()
    ensures !IsSpace('K')
  {
  }

  lemma NoFront()
    ensures Front("") == ""
  {
  }

  lemma SparedTexts()
    ensures var l := Spared();
            Said(l[0].ev) == SaysNothing && Said(l[1].ev) == Saves("P") && Said(l[2].ev) == RollsBackTo("P")
              && Said(l[3].ev) == Commits
    ensures AllWorded(Spared()) && IsBoundary(Spared()[2].ev) && !IsBoundary(Spared()[1].ev)
            && !IsBoundary(Spared()[0].ev)
    ensures Fate(Spared(), 2, 4) == None
  {
    hide SaysOf, TxnBoundary;
    PIsPlain();
    SavepointText("P");
    RollbackToText("P");
  }

  /** A committed row set before the savepoint is dropped. */
  lemma SavepointLosesRow()
    ensures var l := Spared();
            AllWorded(l) && ChangesAt(Everything(), l, 0) == [CHANGE] && !HandedOver(l, 0, 4) && !RolledBack(l, 0)
  {
    hide Said, Fate, ChangesAt, AllWorded, IsBoundary;
    var l := Spared();
    RowHasChange(l);
    SparedTexts();
    NextIs(l, 0, 2, 4);
    forall j | 0 < j < 4 ensures !Undoes(l, j, 0) {}
  }

  /** A row that the log rolls back after the end of the window is handed over. */
  lemma LateRollbackKeepsRow()
    ensures var l := CutOff(); var env := Everything();
            AllWorded(l) && ChangesAt(env, l, 0) == [CHANGE] && Limit(env, l) == 1 && HandedOver(l, 0, 1)
              && RolledBack(l, 0)
  {
    hide SaysOf, TxnBoundary, ChangesAt, PosReached;
    var l := CutOff();
    RowHasChange(l);
    RollbackText();
    NoStopPosition();
    assert Stops(Everything(), l[1]) && !Stops(Everything(), l[0]);
    assert Undoes(l, 1, 0);
  }

  lemma NoStopPosition()
    ensures forall file, pos :: !PosReached(file, pos, "", 0)
  {
  }
}
