/** Byte counts and progress of a binlog dump (flashback_mysql_dump.go:589-666). */
module BinlogBytes {
  import opened Texts
  import opened Lists

  const PROGRESS_MAX := 2_000_000_000

  datatype LogFile = LogFile(name: string, size: int)

  function Positive(n: int): nat {
    if n > 0 then n else 0
  }

  /** Where counting starts and ends within a file. */
  function From(l: LogFile, startFile: string, startPos: nat): int {
    if l.name == startFile && startPos > 0 then startPos else 0
  }

  function To(l: LogFile, endFile: string, endPos: nat): int {
    if endFile != "" && l.name == endFile && endPos > 0 then endPos else l.size
  }

  /** The bytes of the files from `i` on, once the start file is reached. */
  function Remaining(logs: seq<LogFile>, i: nat, started: bool, startFile: string, startPos: nat, endFile: string,
        endPos: nat): (n: nat)
    requires i <= |logs|
    decreases |logs| - i
  {
    if i == |logs| then 0
    else
      var l := logs[i];
      if !started && l.name != startFile then Remaining(logs, i + 1, false, startFile, startPos, endFile, endPos)
      else
        Positive(To(l, endFile, endPos) - From(l, startFile, startPos))
        + if endFile != "" && l.name == endFile then 0
          else Remaining(logs, i + 1, true, startFile, startPos, endFile, endPos)
  }

  function RemainOf(logs: seq<LogFile>, startFile: string, startPos: nat, endFile: string, endPos: nat): (n: nat) {
    Remaining(logs, 0, Trim(startFile) == "", Trim(startFile), startPos, Trim(endFile), endPos)
  }

  method RemainBytes(logs: seq<LogFile>, start: string, startPos: nat, end: string, endPos: nat) returns (total: int)
    ensures total == RemainOf(logs, start, startPos, end, endPos)
  {
    hide Trim, Positive;
    var startFile, endFile := Trim(start), Trim(end);
    if |logs| == 0 { return 0; }
    total := 0;
    var started := startFile == "";
    for i := 0 to |logs|
      invariant RemainOf(logs, start, startPos, end, endPos)
                == total + Remaining(logs, i, started, startFile, startPos, endFile, endPos)
    {
      var l := logs[i];
      if !started {
        if l.name != startFile { continue; }
        started := true;
      }
      var from, to := 0, l.size;
      if l.name == startFile && startPos > 0 { from := startPos; }
      if endFile != "" && l.name == endFile && endPos > 0 { to := endPos; }
      PositiveIs(to - from);
      if to > from { total := total + (to - from); }
      if endFile != "" && l.name == endFile { break; }
    }
  }

  lemma PositiveIs(n: int)
    ensures Positive(n) == if n > 0 then n else 0
  {
  }

  function ReadOf(logs: seq<LogFile>, startFile: string, startPos: nat, curFile: string, logPos: nat): (n: nat) {
    if Trim(curFile) == "" || logPos == 0 then 0 else RemainOf(logs, startFile, startPos, curFile, logPos)
  }

  // ---- Bytes between two points ----

  /** Log files with distinct, non-empty names that carry no outer blanks. */
  ghost predicate Named(logs: seq<LogFile>) {
    && (forall i :: 0 <= i < |logs| ==> logs[i].name != "" && Trim(logs[i].name) == logs[i].name && logs[i].size >= 0)
    && (forall i, j :: 0 <= i < j < |logs| ==> logs[i].name != logs[j].name)
  }

  /** The bytes from byte `from` of file `i` up to byte `to` of file `e`. */
  function Between(logs: seq<LogFile>, i: nat, from: nat, e: nat, to: int): int
    requires i <= e < |logs|
    decreases e - i
  {
    if i == e then to - from else logs[i].size - from + Between(logs, i + 1, 0, e, to)
  }

  /** A point of the log: a byte offset inside a file. */
  ghost predicate Inside(logs: seq<LogFile>, f: nat, pos: nat) {
    f < |logs| && 0 < pos <= logs[f].size
  }

  lemma {:induction false} OnceStarted(logs: seq<LogFile>, i: nat, startFile: string, startPos: nat, e: nat,
        endPos: nat)
    requires Named(logs) && i <= e < |logs| && endPos > 0
    requires forall k :: i <= k < |logs| ==> logs[k].name != startFile
    ensures Remaining(logs, i, true, startFile, startPos, logs[e].name, endPos) == Between(logs, i, 0, e, endPos)
    decreases e - i
  {
    hide Trim;
    if i < e { OnceStarted(logs, i + 1, startFile, startPos, e, endPos); }
  }

  lemma {:induction false} BeforeStart(logs: seq<LogFile>, i: nat, s: nat, startPos: nat, endFile: string, endPos: nat)
    requires Named(logs) && i <= s < |logs|
    ensures Remaining(logs, i, false, logs[s].name, startPos, endFile, endPos)
            == Remaining(logs, s, false, logs[s].name, startPos, endFile, endPos)
    decreases s - i
  {
    hide Trim;
    if i < s { BeforeStart(logs, i + 1, s, startPos, endFile, endPos); }
  }

  /** The code's sum is the distance between the two points. */
  lemma RemainIsBetween(logs: seq<LogFile>, s: nat, startPos: nat, e: nat, endPos: nat)
    requires Named(logs) && Inside(logs, s, startPos) && s <= e < |logs| && endPos > 0
             && (s == e ==> startPos <= endPos)
    ensures RemainOf(logs, logs[s].name, startPos, logs[e].name, endPos) == Between(logs, s, startPos, e, endPos)
  {
    hide Trim;
    BeforeStart(logs, 0, s, startPos, logs[e].name, endPos);
    if s < e { OnceStarted(logs, s + 1, logs[s].name, startPos, e, endPos); }
  }

  lemma {:induction false} BetweenAdds(logs: seq<LogFile>, s: nat, from: nat, c: nat, pos: nat, e: nat, to: int)
    requires s <= c <= e < |logs|
    ensures Between(logs, s, from, c, pos) + Between(logs, c, pos, e, to) == Between(logs, s, from, e, to)
    decreases c - s
  {
    if s < c {
      BetweenAdds(logs, s + 1, 0, c, pos, e, to);
    }
  }

  /** At every point between start and end, what was read and what remains come to the total. */
  lemma ReadPlusRemaining(logs: seq<LogFile>, s: nat, startPos: nat, c: nat, pos: nat, e: nat, endPos: nat)
    requires Named(logs) && Inside(logs, s, startPos) && Inside(logs, c, pos) && s <= c <= e < |logs| && endPos > 0
    requires (s == c ==> startPos <= pos) && (c == e ==> pos <= endPos)
    ensures ReadOf(logs, logs[s].name, startPos, logs[c].name, pos)
            + RemainOf(logs, logs[c].name, pos, logs[e].name, endPos)
            == RemainOf(logs, logs[s].name, startPos, logs[e].name, endPos)
  {
    hide Remaining, Trim, RemainOf;
    RemainIsBetween(logs, s, startPos, c, pos);
    RemainIsBetween(logs, c, pos, e, endPos);
    RemainIsBetween(logs, s, startPos, e, endPos);
    BetweenAdds(logs, s, startPos, c, pos, e, endPos);
  }

  // ---- Progress ----

  datatype Progress = Progress(done: int, tot: int)

  function Clamped(read: int, total: int): int {
    if read < 0 then 0 else if total > 0 && read > total then total else read
  }

  function Scale(total: nat): (scale: nat)
    ensures scale > 0
  {
    if total > PROGRESS_MAX then total / PROGRESS_MAX + 1 else 1
  }

  function ScaleByteProgress(read: int, total: int): Progress {
    var tot := Positive(total);
    var scale := Scale(tot);
    Progress(Clamped(read, tot) / scale, if tot / scale < 1 && tot > 0 then 1 else tot / scale)
  }

  function ByteProgress(read: int, total: int, finished: bool): Progress {
    var p := ScaleByteProgress(read, total);
    if finished then if p.tot < 1 then Progress(1, 1) else Progress(p.tot, p.tot)
    else if p.tot > 0 && p.done >= p.tot then Progress(p.tot - 1, p.tot)
    else p
  }

  lemma DivideAtMost(a: nat, b: nat, d: nat)
    requires a <= b && d > 0
    ensures 0 <= a / d <= b / d
  {
    var x, y, r, t := a / d, b / d, a % d, b % d;
    assert a == d * x + r && b == d * y + t && 0 <= r && t < d;
    if y < x { Multiple(d, y, x); }
  }

  lemma ScaledTotal(total: nat)
    requires total > 0
    ensures 1 <= total / Scale(total) <= PROGRESS_MAX
  {
    if total > PROGRESS_MAX {
      var q := total / PROGRESS_MAX;
      assert total == q * PROGRESS_MAX + total % PROGRESS_MAX;
      var scale := q + 1;
      var t := total / scale;
      assert total == scale * t + total % scale;
    }
  }

  /** Progress stays within its scale exactly when there is a total, or nothing was read. */
  lemma ScaledWithinIff(read: int, total: int)
    ensures var p := ScaleByteProgress(read, total);
            0 <= p.done <= p.tot <= 2_000_000_000 <==> total > 0 || read <= 0
  {
    hide Scale;
    if total > 0 {
      ScaledTotal(total);
      DivideAtMost(Clamped(read, total), total, Scale(total));
    } else {
      ScaleOfNothing();
    }
  }

  lemma ScaleOfNothing()
    ensures Scale(0) == 1
  {
  }

  /** With a total, progress never falls as more is read, and is full exactly when finished. */
  lemma ProgressGrows(read: int, more: int, total: int, finished: bool)
    requires total > 0 && read <= more
    ensures var p := ByteProgress(read, total, false); var q := ByteProgress(more, total, finished);
            0 <= p.done <= q.done <= q.tot == p.tot <= 2_000_000_000 && (q.done == q.tot <==> finished)
  {
    hide Scale;
    ScaledTotal(total);
    DivideAtMost(Clamped(read, total), Clamped(more, total), Scale(total));
    DivideAtMost(Clamped(more, total), total, Scale(total));
  }

  /** Up to two thousand million bytes progress is the bytes themselves, one short of the total until the dump is
      finished. */
  lemma SmallProgress(read: int, total: int)
    requires 0 < total <= 2_000_000_000
    ensures ByteProgress(read, total, true) == Progress(total, total)
    ensures ByteProgress(read, total, false)
            == Progress(if read < 0 then 0 else if read >= total then total - 1 else read, total)
  {
  }

  /** Beyond, both numbers are whole shares of one size: so many fit into the bytes read and into the total. */
  lemma LargeProgress(read: int, total: int) returns (share: nat)
    requires total > 2_000_000_000 && 0 <= read <= total
    ensures var p := ScaleByteProgress(read, total);
            share > 1 && share * p.tot <= total < share * (p.tot + 1) && share * p.done <= read < share * (p.done + 1)
  {
    hide Clamped;
    share := Scale(total);
    ScaledTotal(total);
    var p := ScaleByteProgress(read, total);
    assert Clamped(read, total) == read by { ClampedInside(read, total); }
    Shares(read, share);
    Shares(total, share);
  }

  lemma ClampedInside(read: int, total: int)
    requires 0 <= read <= total
    ensures Clamped(read, total) == read
  {
  }

  lemma Shares(n: nat, d: nat)
    requires d > 0
    ensures d * (n / d) <= n < d * (n / d + 1)
  {
    assert n == d * (n / d) + n % d && d * (n / d + 1) == d * (n / d) + d;
  }

  /** Before the first file or position is known nothing counts as read. */
  lemma NothingRead(logs: seq<LogFile>, startFile: string, startPos: nat, curFile: string, logPos: nat)
    requires logPos == 0 || forall i :: 0 <= i < |curFile| ==> IsSpace(curFile[i])
    ensures ReadOf(logs, startFile, startPos, curFile, logPos) == 0
  {
    hide RemainOf, IsSpace;
    if logPos > 0 { AllTrimmed(curFile); }
  }

  lemma {:induction false} AllTrimmed(s: string)
    requires forall i :: 0 <= i < |s| ==> IsSpace(s[i])
    ensures Trim(s) == ""
    decreases |s|
  {
    hide IsSpace;
    if s != "" { AllTrimmed(s[1..]); }
  }

  /** An end file without a position counts to its end, and a file is never counted for less than nothing. */
  lemma {:induction false} EndOpen(logs: seq<LogFile>, i: nat, started: bool, startFile: string, startPos: nat,
      e: nat)
    requires i <= |logs| && e < |logs| && logs[e].name != "" && logs[e].size > 0
    requires forall k :: 0 <= k < |logs| && k != e ==> logs[k].name != logs[e].name
    ensures Remaining(logs, i, started, startFile, startPos, logs[e].name, 0)
            == Remaining(logs, i, started, startFile, startPos, logs[e].name, logs[e].size)
    decreases |logs| - i
  {
    if i < |logs| {
      EndOpen(logs, i + 1, false, startFile, startPos, e);
      EndOpen(logs, i + 1, true, startFile, startPos, e);
    }
  }

  /** Without a total nothing is told but that the dump is finished. */
  lemma NoTotal(read: int, total: int)
    requires total <= 0
    ensures ByteProgress(read, total, true) == Progress(1, 1)
    ensures ByteProgress(read, total, false) == Progress(if read < 0 then 0 else read, 0)
  {
  }
}
