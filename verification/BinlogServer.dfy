/** A binlog server and a client that reconnects where it left off (flashbackDumpMySQLBinlog's openDump):
    when a reconnect continues the stream exactly, and when it loses events. */
module BinlogServer {
  import opened Bytes
  import opened Options
  import opened Binlog
  import opened BinlogRows

  datatype File = File(name: string, events: seq<Event>)

  type Log = seq<File>

  /** Positions grow within a file; a file but the last may end with a rotate to the next. */
  ghost predicate GoodFile(log: Log, f: nat)
    requires f < |log|
  {
    var evs := log[f].events;
    && (forall i, j :: 0 <= i < j < |evs| ==> evs[i].logPos < evs[j].logPos)
    && (forall i :: 0 <= i < |evs| ==> evs[i].logPos > 0)
    && (forall i :: 0 <= i < |evs| && evs[i].body.Rotate? ==>
          i + 1 == |evs| && f + 1 < |log| && evs[i].body.next == log[f + 1].name)
  }

  ghost predicate GoodLog(log: Log) {
    && (forall f, g :: 0 <= f < g < |log| ==> log[f].name != log[g].name)
    && (forall f :: 0 <= f < |log| ==> GoodFile(log, f))
  }

  function Find(log: Log, name: string): (f: nat)
    ensures f <= |log| && (f < |log| ==> log[f].name == name) && forall i :: 0 <= i < f ==> log[i].name != name
  {
    if log == [] || log[0].name == name then 0 else 1 + Find(log[1..], name)
  }

  /** The rotate a server makes up to announce a file: no time, no position. */
  function Announce(name: string): Event {
    Event(0, 0, 27 + |name|, Rotate(name))
  }

  function Later(events: seq<Event>, pos: U32): seq<Event> {
    if events == [] || events[0].logPos > pos then events else Later(events[1..], pos)
  }

  function Following(log: Log, f: nat): seq<Event>
    decreases |log| - f
  {
    if f >= |log| then [] else [Announce(log[f].name)] + log[f].events + Following(log, f + 1)
  }

  /** What a server sends from a place; nothing (an error) if it has no such file. */
  function Sent(log: Log, name: string, pos: U32): Option<seq<Event>> {
    var f := Find(log, name);
    if f == |log| then None else Some([Announce(name)] + Later(log[f].events, pos) + Following(log, f + 1))
  }

  // ---- Where a client is after some events ----

  function FileAfter(file: string, d: seq<Event>): string {
    if d == [] then file
    else if d[|d| - 1].body.Rotate? then d[|d| - 1].body.next
    else FileAfter(file, d[..|d| - 1])
  }

  function PosAfter(pos: U32, d: seq<Event>): U32 {
    if d == [] then pos
    else if d[|d| - 1].logPos > 0 then d[|d| - 1].logPos
    else PosAfter(pos, d[..|d| - 1])
  }

  /** No rotate into another file since the last event with a position in its file. */
  predicate AtRest(file: string, d: seq<Event>) {
    d == []
    || (var last, before := d[|d| - 1], d[..|d| - 1];
        if last.body.Rotate? then last.body.next == FileAfter(file, before) && AtRest(file, before)
        else last.logPos > 0 || AtRest(file, before))
  }

  lemma {:induction false} TaggedAppend(file: string, a: seq<Event>, b: seq<Event>)
    ensures Tagged(file, a + b) == Tagged(file, a) + Tagged(FileAfter(file, a), b)
    decreases |a|
  {
    if a == [] {
      assert a + b == b;
    } else {
      assert (a + b)[1..] == a[1..] + b;
      var next := if a[0].body.Rotate? then a[0].body.next else file;
      TaggedAppend(next, a[1..], b);
      FileAfterFirst(file, a);
    }
  }

  lemma {:induction false} FileAfterFirst(file: string, a: seq<Event>)
    requires a != []
    ensures FileAfter(file, a) == FileAfter(if a[0].body.Rotate? then a[0].body.next else file, a[1..])
    decreases |a|
  {
    if |a| > 1 && !a[|a| - 1].body.Rotate? {
      FileAfterFirst(file, a[..|a| - 1]);
      assert a[..|a| - 1][1..] == a[1..][..|a| - 2];
    }
  }

  /** Event `j` of file `g` comes next, after the file's announcement if that is still to come. */
  predicate Spot(log: Log, rest: seq<Event>, g: nat, j: nat, announced: bool) {
    g < |log| && j <= |log[g].events|
    && rest == (if announced then [] else [Announce(log[g].name)]) + log[g].events[j..] + Following(log, g + 1)
  }

  lemma LaterAt(events: seq<Event>, j: nat)
    requires j < |events| && forall i, k :: 0 <= i < k < |events| ==> events[i].logPos < events[k].logPos
    ensures Later(events, events[j].logPos) == events[j + 1..]
    decreases j
  {
    if j > 0 {
      LaterAt(events[1..], j - 1);
      assert events[1..][j..] == events[j + 1..];
    }
  }

  lemma {:induction false} LaterIsSuffix(events: seq<Event>, pos: U32) returns (j: nat)
    ensures j <= |events| && Later(events, pos) == events[j..]
    ensures (forall i :: 0 <= i < j ==> events[i].logPos <= pos) && (j < |events| ==> events[j].logPos > pos)
  {
    if events == [] || events[0].logPos > pos {
      j := 0;
    } else {
      j := LaterIsSuffix(events[1..], pos);
      j := j + 1;
      assert events[1..][j - 1..] == events[j..];
    }
  }

  /** A client's file and position against what is still to come: at rest, a reconnect would send exactly
      that; otherwise nothing of the current file has been read yet. */
  ghost predicate Placed(log: Log, file: string, pos: U32, rest: seq<Event>, g: nat, j: nat, announced: bool,
        atRest: bool) {
    Spot(log, rest, g, j, announced) && file == log[g].name
    && if atRest then Later(log[g].events, pos) == log[g].events[j..] else j == 0
  }

  lemma OntoAnnouncement(log: Log, file: string, pos: U32, rest: seq<Event>, g: nat, j: nat, atRest: bool)
    requires Placed(log, file, pos, rest, g, j, false, atRest)
    ensures rest != [] && rest[0] == Announce(log[g].name) && Placed(log, file, pos, rest[1..], g, j, true, atRest)
  {
    hide Later, Following;
    assert rest[1..] == log[g].events[j..] + Following(log, g + 1);
  }

  lemma OntoEvent(log: Log, file: string, pos: U32, rest: seq<Event>, g: nat, j: nat, atRest: bool)
    requires GoodLog(log) && Placed(log, file, pos, rest, g, j, true, atRest) && j < |log[g].events|
    ensures rest != [] && rest[0] == log[g].events[j] && rest[0].logPos > 0
    ensures if rest[0].body.Rotate? then
              g + 1 < |log| && rest[0].body.next == log[g + 1].name && log[g + 1].name != log[g].name
              && Placed(log, rest[0].body.next, rest[0].logPos, rest[1..], g + 1, 0, false, false)
            else Placed(log, file, rest[0].logPos, rest[1..], g, j + 1, true, true)
  {
    hide Later;
    var evs := log[g].events;
    assert GoodFile(log, g);
    assert rest[1..] == evs[j + 1..] + Following(log, g + 1);
    LaterAt(evs, j);
    if rest[0].body.Rotate? {
      assert rest[1..] == Following(log, g + 1);
      assert log[g + 1].events[0..] == log[g + 1].events;
    }
  }

  lemma FollowingFirst(log: Log, f: nat)
    requires Following(log, f) != []
    ensures f < |log| && Following(log, f)[0] == Announce(log[f].name)
    ensures Following(log, f)[1..] == log[f].events[0..] + Following(log, f + 1)
  {
    var rest := Following(log, f + 1);
    assert Following(log, f) == [Announce(log[f].name)] + log[f].events + rest;
    hide Following;
    assert ([Announce(log[f].name)] + log[f].events + rest)[1..] == log[f].events[0..] + rest;
  }

  lemma OntoNextFile(log: Log, file: string, pos: U32, rest: seq<Event>, g: nat, atRest: bool)
    requires g < |log| && Placed(log, file, pos, rest, g, |log[g].events|, true, atRest) && rest != [] && GoodLog(log)
    ensures g + 1 < |log| && rest[0] == Announce(log[g + 1].name) && log[g + 1].name != file
    ensures Placed(log, rest[0].body.next, pos, rest[1..], g + 1, 0, true, false)
  {
    hide Later, GoodFile, Following;
    assert rest == Following(log, g + 1);
    FollowingFirst(log, g + 1);
    assert [] + log[g + 1].events[0..] == log[g + 1].events[0..];
  }

  /** Where the client is after the first `k` events of a connection. */
  lemma {:induction false} Place(log: Log, file: string, pos: U32, s: seq<Event>, k: nat)
      returns (g: nat, j: nat, announced: bool)
    requires GoodLog(log) && Sent(log, file, pos) == Some(s) && k <= |s|
    ensures Placed(log, FileAfter(file, s[..k]), PosAfter(pos, s[..k]), s[k..], g, j, announced, AtRest(file, s[..k]))
    decreases k
  {
    hide GoodLog, Placed, FileAfter, PosAfter, AtRest, Sent;
    if k == 0 {
      g, j, announced := PlaceAtStart(log, file, pos, s);
    } else {
      var g0, j0, a0 := Place(log, file, pos, s, k - 1);
      g, j, announced := PlaceNext(log, file, pos, s, k, g0, j0, a0);
    }
  }

  lemma PlaceAtStart(log: Log, file: string, pos: U32, s: seq<Event>) returns (g: nat, j: nat, announced: bool)
    requires GoodLog(log) && Sent(log, file, pos) == Some(s)
    ensures Placed(log, FileAfter(file, s[..0]), PosAfter(pos, s[..0]), s[0..], g, j, announced, AtRest(file, s[..0]))
  {
    hide GoodLog, Following, Later;
    g := Find(log, file);
    j := LaterIsSuffix(log[g].events, pos);
    announced := false;
    assert s[0..] == s && s[..0] == [];
  }

  lemma PlaceNext(log: Log, file: string, pos: U32, s: seq<Event>, k: nat, g0: nat, j0: nat, a0: bool)
      returns (g: nat, j: nat, announced: bool)
    requires GoodLog(log) && 0 < k <= |s|
    requires Placed(log, FileAfter(file, s[..k - 1]), PosAfter(pos, s[..k - 1]), s[k - 1..], g0, j0, a0,
             AtRest(file, s[..k - 1]))
    ensures Placed(log, FileAfter(file, s[..k]), PosAfter(pos, s[..k]), s[k..], g, j, announced, AtRest(file, s[..k]))
  {
    hide GoodLog, Following, Later;
    var d, rest := s[..k - 1], s[k - 1..];
    assert s[..k][..k - 1] == d && s[..k][k - 1] == s[k - 1] == rest[0] && rest[1..] == s[k..];
    var file', pos', atRest := FileAfter(file, d), PosAfter(pos, d), AtRest(file, d);
    if !a0 {
      OntoAnnouncement(log, file', pos', rest, g0, j0, atRest);
      g, j, announced := g0, j0, true;
    } else if j0 == |log[g0].events| {
      OntoNextFile(log, file', pos', rest, g0, atRest);
      g, j, announced := g0 + 1, 0, true;
    } else {
      OntoEvent(log, file', pos', rest, g0, j0, atRest);
      if rest[0].body.Rotate? { g, j, announced := g0 + 1, 0, false; } else { g, j, announced := g0, j0 + 1, true; }
    }
  }

  // ---- Reconnecting ----

  /** No event of a file ends at or before a position. */
  predicate NothingBefore(log: Log, name: string, pos: U32) {
    var f := Find(log, name);
    f < |log|
    && forall i :: 0 <= i < |log[f].events| && !log[f].events[i].body.Rotate? ==> log[f].events[i].logPos > pos
  }

  lemma {:induction false} TaggedLength(a: string, b: string, evs: seq<Event>)
    ensures |Tagged(a, evs)| == |Tagged(b, evs)|
    decreases |evs|
  {
    if evs != [] && !evs[0].body.Rotate? { TaggedLength(a, b, evs[1..]); }
  }

  lemma TaggedFollowing(a: string, b: string, log: Log, f: nat)
    ensures Tagged(a, Following(log, f)) == Tagged(b, Following(log, f))
  {
    if Following(log, f) != [] {
      FollowingFirst(log, f);
    }
  }

  lemma {:induction false} TaggedRotates(file: string, evs: seq<Event>)
    ensures Tagged(file, evs) == [] <==> forall i :: 0 <= i < |evs| ==> evs[i].body.Rotate?
    decreases |evs|
  {
    if evs != [] {
      if evs[0].body.Rotate? {
        TaggedRotates(evs[0].body.next, evs[1..]);
        assert forall i :: 0 < i < |evs| ==> evs[i] == evs[1..][i - 1];
      }
    }
  }

  /** What a reconnect in file `g` sends, announcement apart. */
  lemma SentIn(log: Log, g: nat, pos: U32)
    requires GoodLog(log) && g < |log|
    ensures Find(log, log[g].name) == g && Sent(log, log[g].name, pos).Some?
    ensures Tagged(log[g].name, Sent(log, log[g].name, pos).value)
            == Tagged(log[g].name, Later(log[g].events, pos) + Following(log, g + 1))
  {
    hide Later, Following, GoodFile;
    var name, body := log[g].name, Later(log[g].events, pos) + Following(log, g + 1);
    var s := [Announce(name)] + Later(log[g].events, pos) + Following(log, g + 1);
    assert s == [Announce(name)] + body && s[1..] == body;
  }

  /** Starting a file over at an old position gives all of it just when no event of it lies before. */
  lemma SkipsNothing(log: Log, g: nat, pos: U32)
    requires GoodLog(log) && g < |log|
    ensures var name := log[g].name; var after := Following(log, g + 1);
            Tagged(name, Later(log[g].events, pos) + after) == Tagged(name, log[g].events + after)
            <==> forall i :: 0 <= i < |log[g].events| && !log[g].events[i].body.Rotate? ==>
                               log[g].events[i].logPos > pos
  {
    hide Following, Later, Tagged, FileAfter, GoodLog, GoodFile;
    var name, evs, after := log[g].name, log[g].events, Following(log, g + 1);
    var j := LaterIsSuffix(evs, pos);
    var skipped, rest := evs[..j], evs[j..];
    assert evs + after == skipped + (rest + after) by { assert evs == skipped + rest; }
    TaggedAppend(name, skipped, rest + after);
    TaggedLength(name, FileAfter(name, skipped), rest + after);
    TaggedRotates(name, skipped);
    Positions(log, g, j, pos);
    if forall i :: 0 <= i < j ==> evs[i].body.Rotate? {
      assert Tagged(name, skipped) == [];
      if j == 0 {
        FileAfterNothing(name);
        assert skipped == [];
      } else {
        OnlyRotateSkipped(log, g, j);
        assert rest + after == after;
        TaggedFollowing(name, FileAfter(name, skipped), log, g + 1);
      }
    } else {
      var i :| 0 <= i < j && !evs[i].body.Rotate?;
      assert skipped[i] == evs[i];
      assert Tagged(name, skipped) != [];
    }
  }

  /** What is skipped lies at or before the position, what is left behind it. */
  lemma Positions(log: Log, g: nat, j: nat, pos: U32)
    requires GoodLog(log) && g < |log| && j <= |log[g].events|
    requires forall i :: 0 <= i < j ==> log[g].events[i].logPos <= pos
    requires j < |log[g].events| ==> log[g].events[j].logPos > pos
    ensures (forall i :: 0 <= i < |log[g].events| && !log[g].events[i].body.Rotate? ==> log[g].events[i].logPos > pos)
            <==> forall i :: 0 <= i < j ==> log[g].events[i].body.Rotate?
  {
    assert GoodFile(log, g);
  }

  lemma OnlyRotateSkipped(log: Log, g: nat, j: nat)
    requires GoodLog(log) && g < |log| && 0 < j <= |log[g].events|
    requires forall i :: 0 <= i < j ==> log[g].events[i].body.Rotate?
    ensures j == |log[g].events|
  {
    assert GoodFile(log, g);
    assert log[g].events[j - 1].body.Rotate?;
  }

  lemma FileAfterNothing(file: string)
    ensures FileAfter(file, []) == file
  {
  }

  /** A reconnect after `k` events continues the stream, with nothing lost or repeated, exactly when an
      event with a position came since the last change of file, or nothing of the current file lies
      before the position the client still holds. */
  lemma ReconnectContinuesIff(log: Log, file: string, pos: U32, s: seq<Event>, k: nat)
    requires GoodLog(log) && Sent(log, file, pos) == Some(s) && k <= |s|
    ensures var d := s[..k]; var file' := FileAfter(file, d); var pos' := PosAfter(pos, d);
            Sent(log, file', pos').Some?
            && (Tagged(file, d) + Tagged(file', Sent(log, file', pos').value) == Tagged(file, s)
                <==> AtRest(file, d) || NothingBefore(log, file', pos'))
  {
    hide GoodLog, Following, Later, Tagged, FileAfter, PosAfter, AtRest, Sent;
    var d := s[..k];
    var file', pos' := FileAfter(file, d), PosAfter(pos, d);
    var g, j, announced := Place(log, file, pos, s, k);
    SentIn(log, g, pos');
    SkipsNothing(log, g, pos');
    assert s == d + s[k..];
    TaggedAppend(file, d, s[k..]);
    StillToCome(log, s[k..], g, j, announced);
    var a, b, c := Tagged(file, d), Tagged(file', Sent(log, file', pos').value), Tagged(file', s[k..]);
    SameTail(a, b, c);
    assert log[g].events[0..] == log[g].events;
  }

  lemma SameTail<T>(a: seq<T>, b: seq<T>, c: seq<T>)
    ensures a + b == a + c <==> b == c
  {
    if a + b == a + c { assert b == (a + b)[|a|..] == (a + c)[|a|..] == c; }
  }

  lemma StillToCome(log: Log, rest: seq<Event>, g: nat, j: nat, announced: bool)
    requires Spot(log, rest, g, j, announced)
    ensures Tagged(log[g].name, rest) == Tagged(log[g].name, log[g].events[j..] + Following(log, g + 1))
  {
    hide Following;
    var body := log[g].events[j..] + Following(log, g + 1);
    if announced { assert rest == body; } else { assert rest == [Announce(log[g].name)] + body && rest[1..] == body; }
  }
}
