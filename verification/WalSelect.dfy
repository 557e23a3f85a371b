/** Choosing WAL segments under a byte cap (flashback_wal.go). */
module WalSelect {
  import opened Options
  import opened Texts

  /** Nanoseconds, or Go's zero time. */
  type Time = Option<int>

  datatype Source = Live | Archive | Elsewhere

  datatype WalFile = WalFile(name: string, size: int, modified: Time, source: Source)

  // ---- Order and size ----

  function Insert(f: WalFile, s: seq<WalFile>): seq<WalFile> {
    if s == [] || !Less(s[0].name, f.name) then [f] + s else [s[0]] + Insert(f, s[1..])
  }

  /** The files by name; `sort.Slice` gives this list whenever the names differ. */
  function ByName(files: seq<WalFile>): seq<WalFile> {
    if files == [] then [] else Insert(files[0], ByName(files[1..]))
  }

  ghost predicate Ascending(s: seq<WalFile>) {
    forall i, j :: 0 <= i < j < |s| ==> Less(s[i].name, s[j].name)
  }

  ghost predicate DistinctNames(s: seq<WalFile>) {
    forall i, j :: 0 <= i < j < |s| ==> s[i].name != s[j].name
  }

  lemma {:induction false} InsertKeeps(f: WalFile, s: seq<WalFile>)
    ensures forall x :: x in Insert(f, s) <==> x == f || x in s
    decreases |s|
  {
    if s != [] && Less(s[0].name, f.name) { InsertKeeps(f, s[1..]); }
  }

  lemma FirstOfAll(x: WalFile, s: seq<WalFile>)
    requires Ascending(s) && forall f :: f in s ==> Less(x.name, f.name)
    ensures Ascending([x] + s)
  {
    hide Less;
  }

  lemma {:induction false} InsertSorts(f: WalFile, s: seq<WalFile>)
    requires Ascending(s) && forall x :: x in s ==> x.name != f.name
    ensures Ascending(Insert(f, s))
    decreases |s|
  {
    hide Less;
    if s != [] {
      InsertKeeps(f, s[1..]);
      LessTotal(s[0].name, f.name);
      if Less(s[0].name, f.name) {
        InsertSorts(f, s[1..]);
        assert forall x :: x in s[1..] ==> Less(s[0].name, x.name);
        FirstOfAll(s[0], Insert(f, s[1..]));
      } else {
        forall x | x in s ensures Less(f.name, x.name) {
          if x != s[0] { LessTransitive(f.name, s[0].name, x.name); }
        }
        FirstOfAll(f, s);
      }
    }
  }

  lemma {:induction false} ByNameSorts(files: seq<WalFile>)
    ensures forall x :: x in ByName(files) <==> x in files
    ensures DistinctNames(files) ==> Ascending(ByName(files))
    decreases |files|
  {
    if files != [] {
      var rest := ByName(files[1..]);
      ByNameSorts(files[1..]);
      InsertKeeps(files[0], rest);
      if DistinctNames(files) { InsertSorts(files[0], rest); }
    }
  }

  function Sum(s: seq<WalFile>): int {
    if s == [] then 0 else s[0].size + Sum(s[1..])
  }

  ghost predicate Sized(s: seq<WalFile>) {
    forall f :: f in s ==> f.size >= 0
  }

  lemma {:induction false} SumAppend(a: seq<WalFile>, b: seq<WalFile>)
    ensures Sum(a + b) == Sum(a) + Sum(b)
  {
    if a == [] {
      assert a + b == b;
    } else {
      assert (a + b)[1..] == a[1..] + b;
      SumAppend(a[1..], b);
    }
  }

  lemma {:induction false} SumNonNegative(s: seq<WalFile>)
    requires Sized(s)
    ensures Sum(s) >= 0
  {
    if s != [] { SumNonNegative(s[1..]); }
  }

  // ---- Candidates ----

  /** Not after the current segment, and not archived after the window. */
  predicate Eligible(f: WalFile, to: Time, current: string) {
    !(current != "" && Less(current, f.name))
    && !(to.Some? && f.source == Archive && f.modified.Some? && f.modified.value > to.value)
  }

  function OnlyEligible(s: seq<WalFile>, to: Time, current: string): seq<WalFile> {
    if s == [] then []
    else (if Eligible(s[0], to, current) then [s[0]] else []) + OnlyEligible(s[1..], to, current)
  }

  /** A segment finished before the window, the one being written apart. */
  predicate Older(f: WalFile, from: Time, current: string)
    requires from.Some?
  {
    !(current != "" && f.name == current && f.source == Live) && f.modified.Some? && f.modified.value < from.value
  }

  /** The last segment finished before the window: the one to start from, or the first if there is none. */
  function StartAt(cands: seq<WalFile>, from: Time, current: string, n: nat): (start: nat)
    requires n <= |cands|
    ensures start == 0 || (start < n && from.Some? && Older(cands[start], from, current))
    ensures from.Some? ==> forall i :: start < i < n ==> !Older(cands[i], from, current)
  {
    if n == 0 || from.None? then 0
    else if Older(cands[n - 1], from, current) then n - 1
    else StartAt(cands, from, current, n - 1)
  }

  function Inferred(files: seq<WalFile>, current: string): string {
    if Trim(current) == "" then LastName(files) else current
  }

  /** The highest live name among the first files, empty if none is live. */
  function HighestLive(files: seq<WalFile>, n: nat): string
    requires n <= |files|
  {
    if n == 0 then ""
    else
      var best := HighestLive(files, n - 1);
      if files[n - 1].source == Live && (best == "" || Less(best, files[n - 1].name)) then files[n - 1].name else best
  }

  function Highest(files: seq<WalFile>, n: nat): string
    requires 0 < n <= |files|
  {
    if n == 1 then files[0].name
    else if Less(Highest(files, n - 1), files[n - 1].name) then files[n - 1].name
    else Highest(files, n - 1)
  }

  function LastName(files: seq<WalFile>): string {
    var live := HighestLive(files, |files|);
    if live == "" && files != [] then Highest(files, |files|) else live
  }

  /** The segments to choose from, oldest first. */
  function Candidates(files: seq<WalFile>, from: Time, to: Time, current: string): seq<WalFile> {
    var cur := Inferred(ByName(files), current);
    var all := OnlyEligible(ByName(files), to, cur);
    all[StartAt(all, from, cur, |all|)..]
  }

  // ---- The cap ----

  /** Where the newest files that fit begin, with the files from `n` on already taken. */
  function CutAt(cands: seq<WalFile>, maxBytes: int, n: nat): (cut: nat)
    requires n <= |cands|
    ensures cut <= n
  {
    if n == 0 then 0
    else
      var keep := Sum(cands[n..]);
      if keep + cands[n - 1].size > maxBytes && keep > 0 then n else CutAt(cands, maxBytes, n - 1)
  }

  datatype Choice = Choice(picked: seq<WalFile>, total: int, truncated: bool)

  function Capped(cands: seq<WalFile>, maxBytes: int): Choice {
    var cut := if maxBytes > 0 then CutAt(cands, maxBytes, |cands|) else 0;
    Choice(cands[cut..], Sum(cands[cut..]), cut > 0)
  }

  function Select(files: seq<WalFile>, from: Time, to: Time, maxBytes: int, current: string): Choice {
    Capped(Candidates(files, from, to, current), maxBytes)
  }

  /** Files within the cap, or more than it only because one file alone, empty ones apart, exceeds it. */
  predicate Within(s: seq<WalFile>, maxBytes: int) {
    maxBytes > 0 ==> Sum(s) <= maxBytes || (s != [] && Sum(s[1..]) == 0)
  }

  lemma {:induction false} CutFits(cands: seq<WalFile>, maxBytes: int, n: nat)
    requires n <= |cands| && Sized(cands) && maxBytes > 0 && Within(cands[n..], maxBytes)
    ensures var cut := CutAt(cands, maxBytes, n);
            Within(cands[cut..], maxBytes)
            && (cut > 0 ==> Sum(cands[cut..]) > 0 && cands[cut - 1].size + Sum(cands[cut..]) > maxBytes)
    decreases n
  {
    if n > 0 {
      var s := cands[n - 1..];
      assert s[0] == cands[n - 1] && s[1..] == cands[n..];
      SumNonNegative(cands[n..]);
      if !(Sum(cands[n..]) + cands[n - 1].size > maxBytes && Sum(cands[n..]) > 0) { CutFits(cands, maxBytes, n - 1); }
    }
  }

  /** The window choice: the newest candidates, as many as fit. One more would exceed the cap. */
  lemma WindowChoiceIsMaximal(files: seq<WalFile>, from: Time, to: Time, maxBytes: int, current: string)
    requires Sized(files)
    ensures var c := Select(files, from, to, maxBytes, current);
            var cands := Candidates(files, from, to, current);
            var cut := |cands| - |c.picked|;
            && 0 <= cut && c.picked == cands[cut..] && c.total == Sum(c.picked) && c.truncated == (cut > 0)
            && Within(c.picked, maxBytes)
            && (cut > 0 ==> maxBytes > 0 && c.total > 0 && cands[cut - 1].size + c.total > maxBytes)
            && (cands != [] ==> c.picked != [])
  {
    hide CutAt, Candidates, Sum;
    var cands := Candidates(files, from, to, current);
    CandidatesFrom(files, from, to, current);
    if maxBytes > 0 {
      assert cands[|cands|..] == [];
      SumOfNone();
      CutFits(cands, maxBytes, |cands|);
    }
  }

  lemma SumOfNone()
    ensures Sum([]) == 0
  {
  }

  lemma {:induction false} EligibleFrom(s: seq<WalFile>, to: Time, current: string)
    ensures forall f :: f in OnlyEligible(s, to, current) <==> f in s && Eligible(f, to, current)
    ensures Ascending(s) ==> Ascending(OnlyEligible(s, to, current))
    decreases |s|
  {
    hide Eligible, Less;
    if s != [] {
      var rest := OnlyEligible(s[1..], to, current);
      EligibleFrom(s[1..], to, current);
      if Ascending(s) {
        assert forall x :: x in s[1..] ==> Less(s[0].name, x.name);
        FirstOfAll(s[0], rest);
      }
    }
  }

  /** Candidates are eligible files in strict name order. */
  lemma CandidatesFrom(files: seq<WalFile>, from: Time, to: Time, current: string)
    ensures var cands := Candidates(files, from, to, current);
            && (forall f :: f in cands ==> f in files && Eligible(f, to, Inferred(ByName(files), current)))
            && (DistinctNames(files) ==> Ascending(cands))
  {
    hide ByName, OnlyEligible, Eligible, Inferred, StartAt, Less;
    ByNameSorts(files);
    var cur := Inferred(ByName(files), current);
    EligibleFrom(ByName(files), to, cur);
  }

  // ---- Which files those are, by their own fields ----

  lemma {:induction false} HighestLiveIs(files: seq<WalFile>, n: nat)
    requires n <= |files|
    ensures var best := HighestLive(files, n);
            && (forall i :: 0 <= i < n && files[i].source == Live ==> AtMost(files[i].name, best))
            && (best != "" ==> exists i :: 0 <= i < n && files[i].source == Live && files[i].name == best)
    decreases n
  {
    hide Less;
    if n > 0 {
      HighestLiveIs(files, n - 1);
      var best, f := HighestLive(files, n - 1), files[n - 1];
      LessTotal(best, f.name);
      forall i | 0 <= i < n && files[i].source == Live ensures AtMost(files[i].name, HighestLive(files, n)) {
        NothingBelowEmpty(f.name);
        if i < n - 1 && Less(files[i].name, best) && Less(best, f.name) { LessTransitive(files[i].name, best, f.name); }
        if i < n - 1 && best == "" { NothingBelowEmpty(files[i].name); }
      }
    }
  }

  lemma NothingBelowEmpty(s: string)
    ensures !Less(s, "") && AtMost("", s)
  {
  }

  lemma {:induction false} HighestIs(files: seq<WalFile>, n: nat)
    requires 0 < n <= |files|
    ensures var best := Highest(files, n);
            && (forall i :: 0 <= i < n ==> AtMost(files[i].name, best))
            && exists i :: 0 <= i < n && files[i].name == best
    decreases n
  {
    hide Less;
    if n > 1 {
      HighestIs(files, n - 1);
      var best, f := Highest(files, n - 1), files[n - 1];
      LessTotal(best, f.name);
      forall i | 0 <= i < n ensures AtMost(files[i].name, Highest(files, n)) {
        if i < n - 1 && Less(files[i].name, best) && Less(best, f.name) { LessTransitive(files[i].name, best, f.name); }
      }
    } else {
      assert files[0].name == Highest(files, 1);
    }
  }

  /** Where no current segment is named it is the live one that comes last, or the last of all where none is
      live. */
  lemma InferredIs(files: seq<WalFile>, current: string)
    ensures var cur := Inferred(files, current);
            if Trim(current) != "" then cur == current
            else
              && (cur != "" ==> exists f :: f in files && f.name == cur)
              && ((exists f :: f in files && f.source == Live && f.name != "") ==>
                    (exists f :: f in files && f.source == Live && f.name == cur)
                    && forall f :: f in files && f.source == Live ==> AtMost(f.name, cur))
              && ((forall f :: f in files ==> f.source != Live) ==> forall f :: f in files ==> AtMost(f.name, cur))
  {
    hide Less, Trim;
    HighestLiveIs(files, |files|);
    if files != [] { HighestIs(files, |files|); }
    forall f | f in files && f.source == Live && HighestLive(files, |files|) == "" ensures f.name == "" {
      NothingBelowEmpty(f.name);
    }
  }

  /** Not after the current segment, and no archive written after the window. */
  ghost function InRange(files: seq<WalFile>, to: Time, cur: string): set<WalFile> {
    set f | f in files && (cur == "" || AtMost(f.name, cur))
            && (to.None? || f.source != Archive || f.modified.None? || f.modified.value <= to.value)
  }

  /** Not known to be finished before a time: still written to, without a time of its own, or later. */
  predicate MayReach(f: WalFile, from: int, cur: string) {
    (cur != "" && f.name == cur && f.source == Live) || f.modified.None? || from <= f.modified.value
  }

  /** A file is chosen from exactly if it is in range and, where the window has a beginning, every file in range
      behind it may reach into the window. */
  lemma CandidateIff(files: seq<WalFile>, from: Time, to: Time, current: string, f: WalFile)
    requires DistinctNames(files)
    ensures
      var range := InRange(files, to, Inferred(ByName(files), current));
      f in Candidates(files, from, to, current) <==>
      f in range && (from.Some? ==> forall g :: g in range && Less(f.name, g.name) ==>
                                      MayReach(g, from.value, Inferred(ByName(files), current)))
  {
    hide Less, ByName, OnlyEligible, Inferred, StartAt, InRange, MayReach, Eligible, Older;
    var cur := Inferred(ByName(files), current);
    var all := OnlyEligible(ByName(files), to, cur);
    ByNameSorts(files);
    EligibleFrom(ByName(files), to, cur);
    EligibleIs(files, to, cur);
    if from.None? { StartsAtFirst(all, cur); }
    if f in all && from.Some? {
      TailIff(all, from.value, cur, f);
      forall g | g in all ensures MayReach(g, from.value, cur) <==> !Older(g, from, cur) {
        OlderIs(g, from.value, cur);
      }
    }
  }

  lemma StartsAtFirst(all: seq<WalFile>, cur: string)
    ensures StartAt(all, None, cur, |all|) == 0 && all[0..] == all
  {
  }

  lemma OlderIs(f: WalFile, from: int, cur: string)
    ensures MayReach(f, from, cur) <==> !Older(f, Some(from), cur)
  {
  }

  lemma EligibleIs(files: seq<WalFile>, to: Time, cur: string)
    ensures forall f :: f in InRange(files, to, cur) <==> f in files && Eligible(f, to, cur)
  {
    hide Less;
    forall f | f in files ensures AtMost(f.name, cur) == !Less(cur, f.name) { AtMostIs(f.name, cur); }
  }

  lemma TailIff(all: seq<WalFile>, from: int, cur: string, f: WalFile)
    requires Ascending(all) && f in all
    ensures f in all[StartAt(all, Some(from), cur, |all|)..]
            <==> forall g :: g in all && Less(f.name, g.name) ==> !Older(g, Some(from), cur)
  {
    hide Less, Older;
    var start := StartAt(all, Some(from), cur, |all|);
    var i :| 0 <= i < |all| && all[i] == f;
    InTail(all, i, start);
    if i < start {
      assert Less(f.name, all[start].name) && all[start] in all;
    } else {
      forall g | g in all && Less(f.name, g.name) ensures !Older(g, Some(from), cur) {
        var j :| 0 <= j < |all| && all[j] == g;
        BehindIs(all, i, j);
      }
    }
  }

  lemma InTail(s: seq<WalFile>, i: nat, start: nat)
    requires Ascending(s) && i < |s| && start <= |s|
    ensures s[i] in s[start..] <==> start <= i
  {
    hide Less;
    if start <= i { assert s[start..][i - start] == s[i]; }
    if s[i] in s[start..] {
      var j :| start <= j < |s| && s[j] == s[i];
      LessIrreflexive(s[i].name);
    }
  }

  lemma BehindIs(s: seq<WalFile>, i: nat, j: nat)
    requires Ascending(s) && i < |s| && j < |s| && Less(s[i].name, s[j].name)
    ensures i < j
  {
    hide Less;
    if j < i { LessTransitive(s[i].name, s[j].name, s[i].name); }
    LessIrreflexive(s[i].name);
  }

  // ---- Reaching back to the checkpoint ----

  datatype Reached = Reached(found: bool, extra: seq<WalFile>)

  /** The files from place `i` on that lie from the checkpoint's up to the window's first. */
  function Reach(sorted: seq<WalFile>, i: nat, found: bool, cp: string, first: string, current: string): Reached
    requires i <= |sorted|
    decreases |sorted| - i
  {
    if i == |sorted| || (current != "" && Less(current, sorted[i].name)) then Reached(found, [])
    else
      var f := sorted[i];
      var now := found || f.name == cp;
      var taken := if now && Less(f.name, first) then [f] else [];
      if AtMost(first, f.name) then Reached(now, taken)
      else var r := Reach(sorted, i + 1, now, cp, first, current); Reached(r.found, taken + r.extra)
  }

  datatype Precise = Precise(choice: Choice, ok: bool)

  function HasName(s: seq<WalFile>, name: string): bool {
    exists i :: 0 <= i < |s| && s[i].name == name
  }

  function SelectPrecise(files: seq<WalFile>, from: Time, to: Time, maxBytes: int, current: string,
        checkpoint: string): Precise {
    var c := Select(files, from, to, maxBytes, current);
    var cp := Trim(checkpoint);
    if cp == "" || c.picked == [] then Precise(c, false)
    else if HasName(c.picked, cp) then Precise(c, true)
    else
      var r := Reach(ByName(files), 0, false, cp, c.picked[0].name, current);
      var total := c.total + Sum(r.extra);
      if !r.found then Precise(c, false)
      else if maxBytes > 0 && total > maxBytes then Precise(c.(truncated := true), false)
      else Precise(Choice(r.extra + c.picked, total, c.truncated), true)
  }

  lemma AtMostIs(a: string, b: string)
    ensures AtMost(a, b) == !Less(b, a)
  {
    LessTotal(a, b);
    if Less(a, b) && Less(b, a) { LessTransitive(a, b, a); LessIrreflexive(a); }
    if a == b { LessIrreflexive(a); }
  }

  lemma SmallerOf(a: string, b: string, c: string)
    requires Less(a, b) && AtMost(b, c)
    ensures Less(a, c) && !AtMost(c, a)
  {
    if b != c { LessTransitive(a, b, c); }
    AtMostIs(c, a);
  }

  /** Files before the window's first neither end the search nor are cut off by the current segment. */
  lemma ReachOn(sorted: seq<WalFile>, i: nat, found: bool, cp: string, j: nat, current: string)
    requires Ascending(sorted) && i < j < |sorted| && !(current != "" && Less(current, sorted[j].name))
    ensures var first := sorted[j].name;
            var now := found || sorted[i].name == cp;
            var r := Reach(sorted, i + 1, now, cp, first, current);
            Reach(sorted, i, found, cp, first, current) == Reached(r.found, (if now then [sorted[i]] else []) + r.extra)
  {
    hide Less, AtMost;
    var first := sorted[j].name;
    AtMostIs(first, sorted[i].name);
    AtMostIs(first, first);
    SmallerOf(sorted[i].name, first, first);
    if current != "" {
      AtMostIs(first, current);
      SmallerOf(sorted[i].name, first, current);
      NotBoth(sorted[i].name, current);
    }
  }

  lemma NotBoth(a: string, b: string)
    requires Less(a, b)
    ensures !Less(b, a)
  {
    AtMostIs(a, b);
  }

  lemma ReachEnd(sorted: seq<WalFile>, j: nat, found: bool, cp: string, current: string)
    requires j < |sorted| && !(current != "" && Less(current, sorted[j].name)) && sorted[j].name != cp
    ensures Reach(sorted, j, found, cp, sorted[j].name, current) == Reached(found, [])
  {
    LessIrreflexive(sorted[j].name);
  }

  /** The place of a name in a part of the list, or the part's end. */
  function PlaceOf(sorted: seq<WalFile>, i: nat, j: nat, name: string): (a: nat)
    requires i <= j <= |sorted|
    ensures i <= a <= j && (a < j ==> sorted[a].name == name) && forall k :: i <= k < a ==> sorted[k].name != name
    decreases j - i
  {
    if i == j || sorted[i].name == name then i else PlaceOf(sorted, i + 1, j, name)
  }

  /** Between checkpoint and window the search takes every file, and nothing when it meets no checkpoint. */
  lemma {:induction false} ReachFinds(sorted: seq<WalFile>, i: nat, found: bool, cp: string, j: nat, current: string)
    requires Ascending(sorted) && i <= j < |sorted| && !(current != "" && Less(current, sorted[j].name))
    requires sorted[j].name != cp
    ensures var a := if found then i else PlaceOf(sorted, i, j, cp);
            Reach(sorted, i, found, cp, sorted[j].name, current) == Reached(found || a < j, sorted[a..j])
    decreases j - i
  {
    hide Less, AtMost, Reach;
    if i == j {
      ReachEnd(sorted, j, found, cp, current);
    } else {
      ReachOn(sorted, i, found, cp, j, current);
      ReachFinds(sorted, i + 1, found || sorted[i].name == cp, cp, j, current);
      if found || sorted[i].name == cp { assert [sorted[i]] + sorted[i + 1..j] == sorted[i..j]; }
    }
  }

  /** A list in strict name order, as a merge gives, has no name twice. */
  lemma AscendingIsDistinct(s: seq<WalFile>)
    requires Ascending(s)
    ensures DistinctNames(s)
  {
    hide Less;
    forall i, j | 0 <= i < j < |s| ensures s[i].name != s[j].name { LessIrreflexive(s[i].name); }
  }

  // ---- What the precise choice promises ----

  predicate IsHex(c: char) {
    '0' <= c <= '9' || 'A' <= c <= 'F' || 'a' <= c <= 'f'
  }

  /** `flashbackIsWALSegName`. */
  predicate IsSegmentName(name: string) {
    |name| == 24 && forall i :: 0 <= i < 24 ==> IsHex(name[i])
  }

  /** A current name that is empty or says something, or files all named as segments. */
  ghost predicate Nameable(files: seq<WalFile>, current: string) {
    current == "" || Trim(current) != "" || forall f :: f in files ==> IsSegmentName(f.name)
  }

  /** The current segment's name comes before `name`, so the search for the checkpoint stops there. */
  predicate CutsOff(current: string, name: string) {
    current != "" && Less(current, name)
  }

  lemma BlankFirst(s: string)
    requires s != "" && Trim(s) == ""
    ensures IsSpace(s[0])
  {
    hide IsSpace;
    if !IsSpace(s[0]) {
      assert TrimLeft(s) == s;
      RightKeepsFirst(s);
    }
  }

  lemma {:induction false} RightKeepsFirst(s: string)
    requires s != "" && !IsSpace(s[0])
    ensures TrimRight(s) != ""
    decreases |s|
  {
    hide IsSpace;
    if IsSpace(s[|s| - 1]) { RightKeepsFirst(s[..|s| - 1]); }
  }

  /** A blank current name comes before every segment or after every one. */
  lemma BlankCutsAlike(current: string, a: string, b: string)
    requires current != "" && Trim(current) == "" && IsSegmentName(a) && IsSegmentName(b)
    ensures CutsOff(current, a) == CutsOff(current, b)
  {
    hide Trim;
    BlankFirst(current);
    assert IsHex(a[0]) && IsHex(b[0]);
  }

  /** The window's first file, in the list by name. */
  lemma FirstListed(files: seq<WalFile>, from: Time, to: Time, maxBytes: int, current: string) returns (j: nat)
    requires DistinctNames(files) && Sized(files)
    requires Select(files, from, to, maxBytes, current).picked != []
    ensures var sorted := ByName(files);
            var first := Select(files, from, to, maxBytes, current).picked[0];
            Ascending(sorted) && j < |sorted| && sorted[j] == first
              && (Trim(current) != "" ==> !CutsOff(current, first.name))
  {
    hide Less, ByName, Candidates, CutAt, Trim;
    ByNameSorts(files);
    CandidatesFrom(files, from, to, current);
    WindowChoiceIsMaximal(files, from, to, maxBytes, current);
    var first := Select(files, from, to, maxBytes, current).picked[0];
    assert first in Candidates(files, from, to, current);
    j :| 0 <= j < |ByName(files)| && ByName(files)[j] == first;
  }

  lemma SliceAscends(s: seq<WalFile>, a: nat, b: nat)
    requires Ascending(s) && a <= b <= |s|
    ensures Ascending(s[a..b])
  {
    hide Less;
  }

  /** A list that starts where another leaves off. */
  lemma Joined(sorted: seq<WalFile>, a: nat, j: nat, tail: seq<WalFile>)
    requires Ascending(sorted) && Ascending(tail) && a <= j < |sorted| && tail != [] && tail[0] == sorted[j]
    ensures Ascending(sorted[a..j] + tail)
  {
    hide Less;
    var s := sorted[a..j] + tail;
    forall x, y | 0 <= x < y < |s| ensures Less(s[x].name, s[y].name) {
      if x < j - a {
        if y >= j - a {
          assert Less(s[x].name, sorted[j].name);
          var t := tail[y - (j - a)];
          if y > j - a { LessTransitive(s[x].name, tail[0].name, t.name); }
        }
      } else {
        assert s[x] == tail[x - (j - a)] && s[y] == tail[y - (j - a)];
      }
    }
  }

  lemma ReachNone(sorted: seq<WalFile>, cp: string, first: string, current: string)
    requires sorted != [] && CutsOff(current, sorted[0].name)
    ensures Reach(sorted, 0, false, cp, first, current) == Reached(false, [])
  {
    hide Less;
  }

  /** What extending the window down to the checkpoint comes to. */
  lemma Extension(files: seq<WalFile>, from: Time, to: Time, maxBytes: int, current: string, cp: string)
        returns (a: nat, j: nat)
    requires DistinctNames(files) && Sized(files) && Nameable(files, current)
    requires var picked := Select(files, from, to, maxBytes, current).picked; picked != [] && !HasName(picked, cp)
    ensures var sorted := ByName(files);
            var picked := Select(files, from, to, maxBytes, current).picked;
            && Ascending(sorted) && a <= j < |sorted| && sorted[j] == picked[0] && (a < j ==> sorted[a].name == cp)
            && (forall k :: 0 <= k < a ==> sorted[k].name != cp)
            && Reach(sorted, 0, false, cp, picked[0].name, current)
               == if CutsOff(current, picked[0].name) then Reached(false, []) else Reached(a < j, sorted[a..j])
  {
    hide Less, ByName, Select, Trim, Reach, AtMost, IsSegmentName;
    j := FirstListed(files, from, to, maxBytes, current);
    var sorted := ByName(files);
    a := PlaceOf(sorted, 0, j, cp);
    var first := Select(files, from, to, maxBytes, current).picked[0].name;
    if CutsOff(current, first) {
      ByNameSorts(files);
      assert sorted[0] in sorted && sorted[j] in sorted;
      BlankCutsAlike(current, sorted[0].name, first);
      ReachNone(sorted, cp, first, current);
    } else {
      ReachFinds(sorted, 0, false, cp, j, current);
    }
  }

  lemma SelectAscends(files: seq<WalFile>, from: Time, to: Time, maxBytes: int, current: string)
    requires DistinctNames(files) && Sized(files)
    ensures Ascending(Select(files, from, to, maxBytes, current).picked)
  {
    hide Candidates, Select, Less;
    CandidatesFrom(files, from, to, current);
    WindowChoiceIsMaximal(files, from, to, maxBytes, current);
    var cands := Candidates(files, from, to, current);
    SliceAscends(cands, |cands| - |Select(files, from, to, maxBytes, current).picked|, |cands|);
  }

  /** A choice that ends with the window's, holds the checkpoint's segment and every known one between, in
      strict name order, with its exact size, within the cap if it was extended. */
  ghost predicate Complete(files: seq<WalFile>, window: seq<WalFile>, c: Choice, cp: string, maxBytes: int) {
    && 0 < |window| <= |c.picked| && c.picked[|c.picked| - |window|..] == window
    && Ascending(c.picked) && HasName(c.picked, cp) && c.total == Sum(c.picked)
    && (forall f :: f in files && AtMost(cp, f.name) && Less(f.name, window[0].name) ==> f in c.picked)
    && (maxBytes > 0 && |c.picked| > |window| ==> c.total <= maxBytes)
  }

  lemma WindowComplete(files: seq<WalFile>, c: Choice, cp: string, maxBytes: int)
    requires c.picked != [] && Ascending(c.picked) && HasName(c.picked, cp) && c.total == Sum(c.picked)
    ensures Complete(files, c.picked, c, cp, maxBytes)
  {
    hide Less, AtMost, Sum, HasName;
    NothingBetween(c.picked, cp);
    assert c.picked[|c.picked| - |c.picked|..] == c.picked;
  }

  lemma ExtendedComplete(files: seq<WalFile>, a: nat, j: nat, w: Choice, maxBytes: int)
    requires DistinctNames(files) && Ascending(w.picked) && w.total == Sum(w.picked)
    requires a < j < |ByName(files)| && w.picked != [] && w.picked[0] == ByName(files)[j]
    requires var extra := ByName(files)[a..j]; maxBytes > 0 ==> w.total + Sum(extra) <= maxBytes
    ensures var extra := ByName(files)[a..j];
            Complete(files, w.picked, Choice(extra + w.picked, w.total + Sum(extra), w.truncated),
              ByName(files)[a].name, maxBytes)
  {
    hide ByName, Less, AtMost, Sum;
    var sorted := ByName(files);
    ByNameSorts(files);
    Joined(sorted, a, j, w.picked);
    SumAppend(sorted[a..j], w.picked);
    BetweenIsListed(sorted, a, j);
    var all := sorted[a..j] + w.picked;
    assert all[|all| - |w.picked|..] == w.picked;
    assert all[0] == sorted[a];
  }

  /** When the precise choice says yes, it is complete. */
  lemma PreciseIsComplete(files: seq<WalFile>, from: Time, to: Time, maxBytes: int, current: string, checkpoint: string)
    requires DistinctNames(files) && Sized(files) && Nameable(files, current)
    ensures var w := Select(files, from, to, maxBytes, current);
            var p := SelectPrecise(files, from, to, maxBytes, current, checkpoint);
            p.ok ==> Complete(files, w.picked, p.choice, Trim(checkpoint), maxBytes)
  {
    hide ByName, Select, Less, AtMost, Trim, Reach, Complete, HasName, Sum, DistinctNames, Sized, Within, Candidates,
         Ascending, Nameable, CutsOff;
    var w := Select(files, from, to, maxBytes, current);
    var cp := Trim(checkpoint);
    if cp != "" && w.picked != [] {
      WindowChoiceIsMaximal(files, from, to, maxBytes, current);
      SelectAscends(files, from, to, maxBytes, current);
      if HasName(w.picked, cp) {
        WindowComplete(files, w, cp, maxBytes);
      } else {
        var a, j := Extension(files, from, to, maxBytes, current, cp);
        if SelectPrecise(files, from, to, maxBytes, current, checkpoint).ok {
          ExtendedComplete(files, a, j, w, maxBytes);
        }
      }
    }
  }

  lemma NothingBetween(picked: seq<WalFile>, cp: string)
    requires Ascending(picked) && HasName(picked, cp)
    ensures forall f: WalFile :: !(AtMost(cp, f.name) && Less(f.name, picked[0].name))
  {
    hide Less, AtMost;
    var i :| 0 <= i < |picked| && picked[i].name == cp;
    forall f: WalFile | Less(f.name, picked[0].name) ensures !AtMost(cp, f.name) {
      if i > 0 { LessTransitive(f.name, picked[0].name, cp); }
      AtMostIs(cp, f.name);
    }
  }

  lemma BetweenIsListed(sorted: seq<WalFile>, a: nat, j: nat)
    requires Ascending(sorted) && a <= j < |sorted|
    ensures forall f :: f in sorted && AtMost(sorted[a].name, f.name) && Less(f.name, sorted[j].name) ==>
                          f in sorted[a..j]
  {
    hide Less, AtMost;
    forall f | f in sorted && AtMost(sorted[a].name, f.name) && Less(f.name, sorted[j].name) ensures f in sorted[a..j] {
      var k :| 0 <= k < |sorted| && sorted[k] == f;
      AtMostIs(sorted[a].name, f.name);
      if k > j { NotBoth(f.name, sorted[j].name); } else if k == j { LessIrreflexive(f.name); }
      assert sorted[a..j][k - a] == f;
    }
  }

  /** The precise choice refuses a checkpoint known before the window only for its size, or because the
      current name is blank and comes before all segments. */
  lemma RefusedOnlyForSize(files: seq<WalFile>, from: Time, to: Time, maxBytes: int, current: string,
        checkpoint: string)
    requires DistinctNames(files) && Sized(files) && Nameable(files, current) && Trim(checkpoint) != ""
    requires var w := Select(files, from, to, maxBytes, current).picked;
             w != [] && HasName(files, Trim(checkpoint)) && Less(Trim(checkpoint), w[0].name)
    ensures Trim(current) != "" ==> !CutsOff(current, Select(files, from, to, maxBytes, current).picked[0].name)
    ensures var w := Select(files, from, to, maxBytes, current);
            exists a, j :: 0 <= a < j < |ByName(files)| && ByName(files)[a].name == Trim(checkpoint)
              && ByName(files)[j] == w.picked[0]
                    && (SelectPrecise(files, from, to, maxBytes, current, checkpoint).ok
                        <==> !CutsOff(current, w.picked[0].name)
                             && (maxBytes <= 0 || w.total + Sum(ByName(files)[a..j]) <= maxBytes))
  {
    hide ByName, Select, Less, AtMost, Trim, Reach, Sum, CutsOff, IsSegmentName;
    var w := Select(files, from, to, maxBytes, current);
    var cp := Trim(checkpoint);
    SelectAscends(files, from, to, maxBytes, current);
    var _ := FirstListed(files, from, to, maxBytes, current);
    NoneBefore(w.picked, cp);
    var a, j := Extension(files, from, to, maxBytes, current, cp);
    var i :| 0 <= i < |files| && files[i].name == cp;
    ByNameSorts(files);
    assert files[i] in ByName(files);
    var k :| 0 <= k < |ByName(files)| && ByName(files)[k] == files[i];
    if j < k { NotBoth(cp, w.picked[0].name); } else if j == k { LessIrreflexive(cp); }
  }

  lemma NoneBefore(picked: seq<WalFile>, cp: string)
    requires Ascending(picked) && picked != [] && Less(cp, picked[0].name)
    ensures !HasName(picked, cp)
  {
    hide Less;
    if HasName(picked, cp) {
      var i :| 0 <= i < |picked| && picked[i].name == cp;
      LessIrreflexive(cp);
      NotBoth(cp, picked[0].name);
    }
  }
}
