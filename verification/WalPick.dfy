/** The loops that choose WAL segments (flashback_wal.go), and the merge of live and archived ones. */
module WalPick {
  import opened Options
  import opened Texts
  import opened WalSelect

  method InferCurrentWALName(files: seq<WalFile>) returns (name: string)
    ensures name == LastName(files)
  {
    hide Less;
    name := "";
    for i := 0 to |files|
      invariant name == HighestLive(files, i)
    {
      if files[i].source == Live && (name == "" || Less(name, files[i].name)) { name := files[i].name; }
    }
    if name == "" && |files| > 0 {
      name := files[0].name;
      for i := 1 to |files|
        invariant HighestLive(files, |files|) == "" && name == Highest(files, i)
      {
        if Less(name, files[i].name) { name := files[i].name; }
      }
    }
  }

  method Filter(sorted: seq<WalFile>, to: Time, current: string) returns (cands: seq<WalFile>)
    ensures cands == OnlyEligible(sorted, to, current)
  {
    hide Less;
    cands := [];
    for i := 0 to |sorted|
      invariant OnlyEligible(sorted, to, current) == cands + OnlyEligible(sorted[i..], to, current)
    {
      var f := sorted[i];
      MoreEligible(cands, sorted, i, to, current);
      if current != "" && Less(current, f.name) { continue; }
      if to.Some? && f.source == Archive && f.modified.Some? && f.modified.value > to.value { continue; }
      cands := cands + [f];
    }
  }

  lemma MoreEligible(cands: seq<WalFile>, sorted: seq<WalFile>, i: nat, to: Time, current: string)
    requires i < |sorted|
    ensures cands + OnlyEligible(sorted[i..], to, current)
            == (if Eligible(sorted[i], to, current) then cands + [sorted[i]] else cands)
              + OnlyEligible(sorted[i + 1..], to, current)
  {
    hide Eligible;
    assert sorted[i..][0] == sorted[i] && sorted[i..][1..] == sorted[i + 1..];
  }

  method FindStart(cands: seq<WalFile>, from: Time, current: string) returns (start: nat)
    ensures start == StartAt(cands, from, current, |cands|)
  {
    start := 0;
    if from.Some? {
      var prev := -1;
      for i := 0 to |cands|
        invariant prev < i && StartAt(cands, from, current, i) == if prev >= 0 then prev else 0
      {
        var f := cands[i];
        if current != "" && f.name == current && f.source == Live { continue; }
        if f.modified.Some? && f.modified.value < from.value { prev := i; }
      }
      if prev >= 0 { start := prev; }
    }
  }

  method FindCut(cands: seq<WalFile>, maxBytes: int) returns (cut: nat, truncated: bool)
    requires maxBytes > 0
    ensures cut == CutAt(cands, maxBytes, |cands|) && truncated == (cut > 0)
  {
    var keep := 0;
    cut, truncated := 0, false;
    var i := |cands|;
    SumOfNone();
    while i > 0
      invariant 0 <= i <= |cands| && keep == Sum(cands[i..]) && cut == 0 && !truncated
      invariant CutAt(cands, maxBytes, |cands|) == CutAt(cands, maxBytes, i)
    {
      i := i - 1;
      assert cands[i..][0] == cands[i] && cands[i..][1..] == cands[i + 1..];
      if keep + cands[i].size > maxBytes && keep > 0 { return i + 1, true; }
      keep := keep + cands[i].size;
    }
  }

  method SumSizes(files: seq<WalFile>) returns (total: int)
    ensures total == Sum(files)
  {
    total := 0;
    for i := 0 to |files|
      invariant Sum(files) == total + Sum(files[i..])
    {
      assert files[i..][0] == files[i] && files[i..][1..] == files[i + 1..];
      total := total + files[i].size;
    }
  }

  method SelectWAL(files: seq<WalFile>, from: Time, to: Time, maxBytes: int, current: string) returns (c: Choice)
    ensures c == Select(files, from, to, maxBytes, current)
  {
    hide ByName, OnlyEligible, StartAt, CutAt, LastName, Trim;
    NoFiles(to, current);
    SumOfNone();
    var sorted := ByName(files);
    var cur := current;
    if Trim(cur) == "" { cur := InferCurrentWALName(sorted); }
    var cands := Filter(sorted, to, cur);
    NoCut(maxBytes);
    if cands == [] { return Choice([], 0, false); }
    var start := FindStart(cands, from, cur);
    cands := cands[start..];
    var cut, truncated := 0, false;
    if maxBytes > 0 { cut, truncated := FindCut(cands, maxBytes); }
    var total := SumSizes(cands[cut..]);
    return Choice(cands[cut..], total, truncated);
  }

  lemma NoFiles(to: Time, current: string)
    ensures ByName([]) == [] && OnlyEligible([], to, current) == []
  {
  }

  lemma NoCut(maxBytes: int)
    ensures CutAt([], maxBytes, 0) == 0
  {
  }

  lemma ReachStep(sorted: seq<WalFile>, i: nat, found: bool, cp: string, first: string, current: string,
        extra: seq<WalFile>)
    requires i < |sorted| && !(current != "" && Less(current, sorted[i].name))
    ensures var f := sorted[i];
            var now := found || f.name == cp;
            var more := if now && Less(f.name, first) then extra + [f] else extra;
            var r := Reach(sorted, i, found, cp, first, current);
            var r' := Reach(sorted, i + 1, now, cp, first, current);
            Reached(r.found, extra + r.extra)
            == if AtMost(first, f.name) then Reached(now, more) else Reached(r'.found, more + r'.extra)
  {
    hide Less, AtMost;
    var r' := Reach(sorted, i + 1, found || sorted[i].name == cp, cp, first, current);
    assert extra + ([sorted[i]] + r'.extra) == extra + [sorted[i]] + r'.extra;
    assert [] + r'.extra == r'.extra && extra + [] == extra;
  }

  method FindCheckpoint(sorted: seq<WalFile>, cp: string, first: string, current: string)
        returns (found: bool, extra: seq<WalFile>)
    ensures Reached(found, extra) == Reach(sorted, 0, false, cp, first, current)
  {
    hide Less, AtMost, Reach;
    found, extra := false, [];
    ReachesNoMore(sorted, cp, first, current);
    for i := 0 to |sorted|
      invariant var r := Reach(sorted, i, found, cp, first, current);
                Reach(sorted, 0, false, cp, first, current) == Reached(r.found, extra + r.extra)
    {
      var f := sorted[i];
      if current != "" && Less(current, f.name) {
        CutOff(sorted, i, found, cp, first, current);
        break;
      }
      ReachStep(sorted, i, found, cp, first, current, extra);
      if f.name == cp { found := true; }
      if found && Less(f.name, first) { extra := extra + [f]; }
      if AtMost(first, f.name) { break; }
    }
  }

  lemma ReachesNoMore(sorted: seq<WalFile>, cp: string, first: string, current: string)
    ensures forall found :: Reach(sorted, |sorted|, found, cp, first, current) == Reached(found, [])
  {
  }

  lemma CutOff(sorted: seq<WalFile>, i: nat, found: bool, cp: string, first: string, current: string)
    requires i < |sorted| && current != "" && Less(current, sorted[i].name)
    ensures Reach(sorted, i, found, cp, first, current) == Reached(found, [])
  {
  }

  method SelectWALPrecise(files: seq<WalFile>, from: Time, to: Time, maxBytes: int, current: string, checkpoint: string)
      returns (p: Precise)
    ensures p == SelectPrecise(files, from, to, maxBytes, current, checkpoint)
  {
    hide ByName, Select, Trim, Reach, Sum;
    var c := SelectWAL(files, from, to, maxBytes, current);
    var cp := Trim(checkpoint);
    if cp == "" || c.picked == [] { return Precise(c, false); }
    for i := 0 to |c.picked|
      invariant forall k :: 0 <= k < i ==> c.picked[k].name != cp
    {
      if c.picked[i].name == cp { return Precise(c, true); }
    }
    var found, extra := FindCheckpoint(ByName(files), cp, c.picked[0].name, current);
    if !found { return Precise(c, false); }
    var extraBytes := SumSizes(extra);
    if maxBytes > 0 && c.total + extraBytes > maxBytes { return Precise(c.(truncated := true), false); }
    return Precise(Choice(extra + c.picked, c.total + extraBytes, c.truncated), true);
  }

  // ---- Live and archived segments together ----

  /** The last file with a name. */
  function LastNamed(files: seq<WalFile>, name: string): Option<WalFile> {
    if files == [] then None
    else if files[|files| - 1].name == name then Some(files[|files| - 1])
    else LastNamed(files[..|files| - 1], name)
  }

  /** The file a merge keeps under a name. */
  function Chosen(live: seq<WalFile>, archive: seq<WalFile>, name: string): Option<WalFile> {
    if LastNamed(live, name).Some? then LastNamed(live, name) else LastNamed(archive, name)
  }

  /** Every known name once, in strict order; a live file stands for its archived copy. */
  ghost predicate Merged(live: seq<WalFile>, archive: seq<WalFile>, out: seq<WalFile>) {
    && Ascending(out)
    && (forall f :: f in live + archive ==> HasName(out, f.name))
    && (forall f :: f in out ==> Some(f) == Chosen(live, archive, f.name))
  }

  lemma {:induction false} LastNamedIs(files: seq<WalFile>, name: string)
    ensures LastNamed(files, name).Some? <==> HasName(files, name)
    ensures LastNamed(files, name).Some? ==> LastNamed(files, name).value.name == name
    decreases |files|
  {
    if files != [] {
      var most := files[..|files| - 1];
      LastNamedIs(most, name);
      if HasName(most, name) {
        var i :| 0 <= i < |most| && most[i].name == name;
        assert files[i].name == name;
      }
    }
  }

  method Overlay(live: seq<WalFile>, archive: seq<WalFile>) returns (seen: map<string, WalFile>)
    ensures forall n :: Chosen(live, archive, n) == if n in seen then Some(seen[n]) else None
  {
    seen := map[];
    for i := 0 to |archive|
      invariant forall n :: LastNamed(archive[..i], n) == if n in seen then Some(seen[n]) else None
    {
      assert archive[..i + 1][..i] == archive[..i];
      seen := seen[archive[i].name := archive[i]];
    }
    assert archive[..|archive|] == archive;
    for i := 0 to |live|
      invariant forall n :: Chosen(live[..i], archive, n) == if n in seen then Some(seen[n]) else None
    {
      assert live[..i + 1][..i] == live[..i];
      seen := seen[live[i].name := live[i]];
    }
    assert live[..|live|] == live;
  }

  method MergeWALFiles(live: seq<WalFile>, archive: seq<WalFile>) returns (out: seq<WalFile>)
    ensures Merged(live, archive, out) && DistinctNames(out)
  {
    hide Less, LastNamed;
    var seen := Overlay(live, archive);
    var names := Sorted(seen.Keys);
    SortedLists(seen.Keys);
    SortedAscends(seen.Keys);
    out := [];
    for i := 0 to |names|
      invariant |out| == i && forall k :: 0 <= k < i ==> names[k] in seen && out[k] == seen[names[k]]
    {
      out := out + [seen[names[i]]];
    }
    forall n | n in seen ensures seen[n].name == n { LastNamedIs(live, n); LastNamedIs(archive, n); }
    AscendingIsDistinct(out);
    forall f | f in live + archive ensures HasName(out, f.name) {
      LastNamedIs(live, f.name);
      LastNamedIs(archive, f.name);
      assert f.name in names;
      var k :| 0 <= k < |names| && names[k] == f.name;
      assert out[k].name == f.name;
    }
  }

  /** The last file of a list under its name. */
  predicate LastOfName(files: seq<WalFile>, f: WalFile) {
    exists i :: 0 <= i < |files| && files[i] == f && forall j :: i < j < |files| ==> files[j].name != f.name
  }

  lemma {:induction false} LastNamedIff(files: seq<WalFile>, f: WalFile)
    ensures LastNamed(files, f.name) == Some(f) <==> LastOfName(files, f)
    decreases |files|
  {
    if files != [] {
      var most, last := files[..|files| - 1], files[|files| - 1];
      LastNamedIff(most, f);
      if last.name == f.name {
        if last == f { assert files[|files| - 1] == f; }
      } else {
        if LastOfName(most, f) {
          var i :| 0 <= i < |most| && most[i] == f && forall j :: i < j < |most| ==> most[j].name != f.name;
          assert files[i] == f && forall j :: i < j < |files| ==> files[j].name != f.name;
        }
        if LastOfName(files, f) {
          var i :| 0 <= i < |files| && files[i] == f && forall j :: i < j < |files| ==> files[j].name != f.name;
          assert most[i] == f && forall j :: i < j < |most| ==> most[j].name != f.name;
        }
      }
    }
  }

  /** A merge holds a file exactly if it is the last live one of its name, or the last archived one of a name
      that no live file has. */
  lemma MergedIff(live: seq<WalFile>, archive: seq<WalFile>, out: seq<WalFile>, f: WalFile)
    requires Merged(live, archive, out)
    ensures f in out <==> LastOfName(live, f)
                          || (LastOfName(archive, f) && forall g :: g in live ==> g.name != f.name)
  {
    hide Less, LastNamed, LastOfName, Ascending;
    LastNamedIff(live, f);
    LastNamedIff(archive, f);
    LastNamedIs(live, f.name);
    LastNamedIs(archive, f.name);
    if Chosen(live, archive, f.name) == Some(f) {
      NamedIn(live, archive, f);
      var k :| 0 <= k < |out| && out[k].name == f.name;
      assert out[k] in out;
    }
  }

  lemma NamedIn(live: seq<WalFile>, archive: seq<WalFile>, f: WalFile)
    requires LastOfName(live, f) || LastOfName(archive, f)
    ensures f in live + archive
  {
  }
}
