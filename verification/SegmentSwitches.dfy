/** A log with segment switches: runs of records, each laid out on the pages of some files. A switch ends the
    last file of its run, whatever stands behind it there, and the next run starts a new file
    (flashback_walparse.go:604-606, 646-648). */
module SegmentSwitches {
  import opened Bytes
  import opened WalPages
  import opened WalLayout
  import opened WalParser
  import opened Recovery
  import opened Lists
  import opened TxnBuffer
  import opened Transactions
  import WalRecords

  /** Records, the page headers they are laid out behind, the pages by files, and the pages that stand in the
      last file after those. */
  datatype Run = Run(recs: seq<Bytes>, heads: seq<Head>, groups: seq<seq<Bytes>>, behind: seq<Bytes>) {
    ghost predicate Valid() {
      && groups != [] && ValidHeads(heads) && WholePages(behind) && AllRecords(recs)
      && Flatten(groups) == Pages(heads, Rest([], recs))
    }

    /** The records the reader can see. */
    function Seen(): seq<Bytes> {
      ReadableFrom(heads, 0, recs)
    }

    /** The headers before the last file. */
    function Front(): seq<Head>
      requires groups != [] && |groups[|groups| - 1]| <= |heads|
    {
      heads[..|heads| - |groups[|groups| - 1]|]
    }

    /** The last record is a switch, the only one; it is seen, and ends in the last file. */
    ghost predicate Switched() {
      && OneSwitch(recs) && AnySwitch(Seen())
      && groups != [] && |groups[|groups| - 1]| <= |heads| && NoSwitch(ReadableFrom(Front(), 0, recs))
    }

    function Files(): seq<Bytes>
      requires groups != []
    {
      FilesOf(groups, behind)
    }
  }

  predicate OneSwitch(recs: seq<Bytes>) {
    recs != [] ==> NoSwitch(recs[..|recs| - 1])
  }

  /** The files of some groups of pages, the last with more pages behind. */
  function FilesOf(groups: seq<seq<Bytes>>, behind: seq<Bytes>): seq<Bytes>
    requires groups != []
  {
    if |groups| == 1 then [Join(groups[0] + behind)] else [Join(groups[0])] + FilesOf(groups[1..], behind)
  }

  /** Reading on in a file whose next page is `page`. */
  lemma ScanNext(f: Frame, page: Bytes, pages: seq<Bytes>, files: seq<Bytes>)
    requires |page| == PAGE_SIZE && WholePages(pages)
    ensures var s := ScanPage(f, page);
            ScanFiles(f, [Join([page] + pages)] + files)
            == s.recs + if s.switched then ScanFiles(s.frame, files) else ScanFiles(s.frame, [Join(pages)] + files)
  {
    hide ScanPage, ScanPages, PagesOf, Join;
    var all := [page] + pages;
    assert all[1..] == pages;
    PagesOfJoin(all);
    PagesOfJoin(pages);
    ScanPagesStep(f, all);
    FirstFile(f, Join(all), files);
    var s := ScanPage(f, page);
    FirstFile(s.frame, Join(pages), files);
    var t := ScanPages(s.frame, pages);
    Regroup(s.recs, t.recs, ScanFiles(t.frame, files));
  }

  lemma FirstFile(f: Frame, data: Bytes, files: seq<Bytes>)
    ensures var s := ScanPages(f, PagesOf(data)); ScanFiles(f, [data] + files) == s.recs + ScanFiles(s.frame, files)
  {
    hide ScanPages, PagesOf;
    assert ([data] + files)[1..] == files;
  }

  lemma NoPages(f: Frame, files: seq<Bytes>)
    ensures ScanFiles(f, [Join([])] + files) == ScanFiles(f, files)
  {
    FirstFile(f, Join([]), files);
  }

  // ---- One page ----

  /** A page takes `out` off the stream, drops `lost` if the page end cuts a record that is not taken up, and
      leaves the reader in `f'`. */
  ghost predicate Steps(h: Head, r: Rest, f: Frame, f': Frame, out: seq<Bytes>, lost: seq<Bytes>) {
    var next := Next(h, r);
    && Taken(f, r.carry) + r.recs == out + (lost + (Taken(f', next.carry) + next.recs))
    && (out != [] && next.carry != [] ==> lost + Taken(f', next.carry) != [])
    && Holds(f', next.carry)
    && forall rest :: InSight([h] + rest, r, f) == out + InSight(rest, next, f')
  }

  /** The records, by how the page end cuts them. */
  lemma {:induction false} CutSplits(recs: seq<Bytes>, w: nat) returns (lost: seq<Bytes>)
    requires AllRecords(recs)
    ensures var r := After(recs, w);
            && recs == Whole(recs, w) + (lost + (Taken(Cut(recs, w), r.carry) + r.recs))
            && (r.carry != [] ==> lost + Taken(Cut(recs, w), r.carry) != [])
    decreases |recs|
  {
    hide IsRecord;
    lost := [];
    if recs != [] && w > 0 {
      var rec := recs[0];
      assert IsRecord(rec);
      if |rec| > 8 * w {
        if 8 * w < RECORD_HEADER || |rec| > MAX_RECORD { lost := [rec]; }
        assert rec[..8 * w] + rec[8 * w..] == rec;
      } else {
        lost := CutSplits(recs[1..], w - Words(|rec|));
      }
    }
  }

  lemma StepMiddle(h: Head, r: Rest, f: Frame) returns (f': Frame)
    requires h.Valid() && h.Room() < |r.carry| < 0x1_0000_0000 && Holds(f, r.carry)
    ensures ScanPage(f, Page(h, r)) == Scan(f', [], false) && Steps(h, r, f, f', [], [])
  {
    hide ScanPage, Page, InSight, Awaited;
    f' := ReadMiddlePage(h, r, f);
    ScanMiddlePage(h, r, f);
    assert f.contNeed > 0 ==> f'.cont + r.carry[h.Room()..] == f.cont + r.carry;
    forall rest ensures InSight([h] + rest, r, f) == [] + InSight(rest, Next(h, r), f') {
      SightOnMiddle(h, rest, r, f, f');
    }
  }

  lemma StepLast(h: Head, r: Rest, f: Frame) returns (f': Frame, out: seq<Bytes>, lost: seq<Bytes>)
    requires h.Valid() && |r.carry| <= h.Room() && Holds(f, r.carry) && AllRecords(r.recs)
    ensures ScanPage(f, Page(h, r)) == WalLayout.Seen(f', out) && Steps(h, r, f, f', out, lost)
  {
    hide ScanPage, Page, InSight, Whole, Cut, After, Words, WalLayout.Seen, IsRecord, AllRecords;
    var w := h.BodyWords() - Words(|r.carry|);
    ReadLastPage(h, r, f);
    lost := CutSplits(r.recs, w);
    f', out := Cut(r.recs, w), Taken(f, r.carry) + Whole(r.recs, w);
    Regroup(Taken(f, r.carry), Whole(r.recs, w), lost + (Taken(f', After(r.recs, w).carry) + After(r.recs, w).recs));
    forall rest ensures InSight([h] + rest, r, f) == out + InSight(rest, Next(h, r), f') {
      SightOnLast(h, rest, r, f);
    }
  }

  lemma Step(h: Head, r: Rest, f: Frame) returns (f': Frame, out: seq<Bytes>, lost: seq<Bytes>)
    requires h.Valid() && |r.carry| < 0x1_0000_0000 && Holds(f, r.carry) && AllRecords(r.recs)
    ensures ScanPage(f, Page(h, r)) == WalLayout.Seen(f', out) && Steps(h, r, f, f', out, lost)
  {
    hide ScanPage, Page, Steps, Holds, AllRecords;
    if |r.carry| > h.Room() {
      f' := StepMiddle(h, r, f);
      out, lost := [], [];
      NoneSwitches();
    } else {
      f', out, lost := StepLast(h, r, f);
    }
  }

  lemma OneSwitchBehind(out: seq<Bytes>, tail: seq<Bytes>)
    requires OneSwitch(out + tail)
    ensures OneSwitch(tail) && (AnySwitch(out) ==> tail == [] && Through(out) == out)
  {
    hide AnySwitch, Through;
    NoneSwitches();
    var all := out + tail;
    if tail != [] {
      assert all[..|all| - 1] == out + tail[..|tail| - 1];
      ThroughAppend(out, tail[..|tail| - 1]);
    } else if out != [] {
      var front, last := out[..|out| - 1], out[|out| - 1];
      assert all == out == front + [last] && all[..|all| - 1] == front;
      ThroughAppend(front, [last]);
      SeenOne(last);
    }
  }

  lemma SeenOne(rec: Bytes)
    ensures Through([rec]) == [rec]
  {
  }

  // ---- The pages of a run ----

  lemma {:induction false} NothingInSight(heads: seq<Head>, r: Rest, f: Frame)
    requires Holds(f, r.carry) && (heads == [] || r == Rest([], []))
    ensures InSight(heads, r, f) == []
  {
    NothingReadable(MaxAlign(|r.carry|), r.recs);
  }

  lemma {:induction false} EmptyPages(heads: seq<Head>)
    requires ValidHeads(heads)
    ensures forall p :: p in Pages(heads, Rest([], [])) ==> ScanPage(Fresh, p) == Scan(Fresh, [], false)
    decreases |heads|
  {
    hide ScanPage, Page, Words;
    if heads != [] {
      var h := heads[0];
      assert h.Valid();
      ScanPlainPage(h, []);
      NothingSeen();
      assert Next(h, Rest([], [])) == Rest([], []) by { EmptyNext(h); }
      EmptyPages(heads[1..]);
    }
  }

  lemma EmptyNext(h: Head)
    ensures Next(h, Rest([], [])) == Rest([], [])
  {
  }

  lemma {:induction false} EmptyFile(pages: seq<Bytes>, files: seq<Bytes>)
    requires WholePages(pages)
    requires forall p :: p in pages ==> ScanPage(Fresh, p) == Scan(Fresh, [], false)
    ensures ScanFiles(Fresh, [Join(pages)] + files) == ScanFiles(Fresh, files)
    decreases |pages|
  {
    hide ScanPage, Join, ScanFiles;
    if pages == [] {
      NoPages(Fresh, files);
    } else {
      assert [pages[0]] + pages[1..] == pages;
      ScanNext(Fresh, pages[0], pages[1..], files);
      EmptyFile(pages[1..], files);
    }
  }

  lemma {:induction false} EmptyFiles(groups: seq<seq<Bytes>>, files: seq<Bytes>)
    requires WholePages(Flatten(groups)) && groups != []
    requires forall p :: p in Flatten(groups) ==> ScanPage(Fresh, p) == Scan(Fresh, [], false)
    ensures ScanFiles(Fresh, FilesOf(groups, []) + files) == ScanFiles(Fresh, files)
    decreases |groups|
  {
    hide ScanPage, Join, ScanFiles;
    var g, more := groups[0], groups[1..];
    var others := (if more == [] then [] else FilesOf(more, [])) + files;
    assert g + [] == g;
    assert Flatten(groups)[..|g|] == g && Flatten(groups)[|g|..] == Flatten(more);
    assert FilesOf(groups, []) + files == [Join(g)] + others;
    EmptyFile(g, others);
    if more == [] { assert [] + files == files; } else { EmptyFiles(more, files); }
  }

  // ---- A run ----

  ghost predicate Pending(heads: seq<Head>, r: Rest, f: Frame) {
    && ValidHeads(heads) && |r.carry| < 0x1_0000_0000 && AllRecords(r.recs) && Holds(f, r.carry)
    && OneSwitch(Taken(f, r.carry) + r.recs)
  }

  /** What is in sight before the last file holds no switch. */
  ghost predicate LastFile(heads: seq<Head>, r: Rest, f: Frame, groups: seq<seq<Bytes>>) {
    groups != [] &&
    var n := |groups[|groups| - 1]|;
    n <= |heads| && NoSwitch(InSight(heads[..|heads| - n], r, f))
  }

  lemma PageAndRest(heads: seq<Head>, r: Rest, groups: seq<seq<Bytes>>)
    requires ValidHeads(heads) && |r.carry| < 0x1_0000_0000 && AllRecords(r.recs)
    requires Flatten(groups) == Pages(heads, r) && groups != [] && groups[0] != []
    ensures var h, rest := heads[0], heads[1..];
            && h.Valid() && ValidHeads(rest) && groups[0][0] == Page(h, r)
            && |Next(h, r).carry| < 0x1_0000_0000 && AllRecords(Next(h, r).recs)
            && Flatten([groups[0][1..]] + groups[1..]) == Pages(rest, Next(h, r))
            && WholePages(groups[0]) && WholePages(Flatten(groups[1..]))
  {
    hide Page, AllRecords;
    NextRest(heads[0], r);
    var g, more := groups[0], groups[1..];
    var all, less := g + Flatten(more), [g[1..]] + more;
    assert less[1..] == more && g == [g[0]] + g[1..];
    assert Flatten(less) == g[1..] + Flatten(more) == all[1..];
    assert Pages(heads, r)[1..] == Pages(heads[1..], Next(heads[0], r));
    assert all[..|g|] == g && all[|g|..] == Flatten(more);
  }

  /** The files without the first page. */
  lemma FilesStep(groups: seq<seq<Bytes>>, behind: seq<Bytes>, files: seq<Bytes>)
    returns (pages: seq<Bytes>, others: seq<Bytes>)
    requires groups != [] && groups[0] != []
    ensures FilesOf(groups, behind) + files == [Join([groups[0][0]] + pages)] + others
    ensures FilesOf([groups[0][1..]] + groups[1..], behind) + files == [Join(pages)] + others
    ensures pages == groups[0][1..] + if |groups| == 1 then behind else []
    ensures others == (if |groups| == 1 then [] else FilesOf(groups[1..], behind)) + files
  {
    hide Join;
    var g, more := groups[0], groups[1..];
    pages := g[1..] + if |groups| == 1 then behind else [];
    others := (if |groups| == 1 then [] else FilesOf(more, behind)) + files;
    assert ([g[1..]] + more)[1..] == more;
    assert [g[0]] + pages == g + if |groups| == 1 then behind else [];
    assert g + [] == g && g[1..] + [] == g[1..];
  }

  /** Groups without their first page, when the page has no switch. */
  lemma StillLast(h: Head, rest: seq<Head>, r: Rest, f: Frame, f': Frame, out: seq<Bytes>, lost: seq<Bytes>,
        groups: seq<seq<Bytes>>)
    requires groups != [] && groups[0] != [] && |Flatten(groups)| == 1 + |rest| && LastFile([h] + rest, r, f, groups)
    requires Steps(h, r, f, f', out, lost)
    ensures LastFile(rest, Next(h, r), f', [groups[0][1..]] + groups[1..])
    ensures |groups| > 1 ==> NoSwitch(out)
  {
    hide InSight, AnySwitch, Next, Steps, Flatten;
    var heads, last := [h] + rest, groups[|groups| - 1];
    if |groups| > 1 {
      FlattenSize(groups);
      LastFits(groups[1..]);
      var front := rest[..|rest| - |last|];
      assert heads[..|heads| - |last|] == [h] + front;
      SightOf(h, front, r, f, f', out, lost);
      ThroughAppend(out, InSight(front, Next(h, r), f'));
    } else {
      FlattenOne(groups);
      assert rest[..|rest| - (|last| - 1)] == [];
      SightOf(h, [], r, f, f', out, lost);
      NothingInSight([], Next(h, r), f');
      NoneSwitches();
    }
  }

  lemma SightOf(h: Head, rest: seq<Head>, r: Rest, f: Frame, f': Frame, out: seq<Bytes>, lost: seq<Bytes>)
    requires Steps(h, r, f, f', out, lost)
    ensures Holds(f', Next(h, r).carry) && InSight([h] + rest, r, f) == out + InSight(rest, Next(h, r), f')
  {
    hide InSight, Next, Holds;
  }

  lemma FlattenSize(groups: seq<seq<Bytes>>)
    requires groups != []
    ensures |Flatten(groups)| == |groups[0]| + |Flatten(groups[1..])|
  {
  }

  lemma {:induction false} LastFits(groups: seq<seq<Bytes>>)
    requires groups != []
    ensures |groups[|groups| - 1]| <= |Flatten(groups)|
    decreases |groups|
  {
    if |groups| > 1 { LastFits(groups[1..]); }
  }

  lemma PagesLength(heads: seq<Head>, r: Rest)
    requires ValidHeads(heads) && |r.carry| < 0x1_0000_0000 && AllRecords(r.recs)
    ensures |Pages(heads, r)| == |heads| && WholePages(Pages(heads, r))
  {
  }

  /** Nothing is left after the switch in the files behind its own. */
  lemma SkipEmpty(rest: seq<Head>, groups: seq<seq<Bytes>>, files: seq<Bytes>)
    requires ValidHeads(rest) && groups != [] && groups[0] != []
    requires Flatten([groups[0][1..]] + groups[1..]) == Pages(rest, Rest([], []))
    requires |groups| > 1
    ensures ScanFiles(Fresh, FilesOf(groups[1..], []) + files) == ScanFiles(Fresh, files)
  {
    hide ScanPage, ScanFiles, FilesOf;
    EmptyPages(rest);
    PagesLength(rest, Rest([], []));
    var all, more := Pages(rest, Rest([], [])), groups[1..];
    assert ([groups[0][1..]] + more)[1..] == more;
    assert all[|groups[0]| - 1..] == Flatten(more);
    EmptyFiles(more, files);
  }

  lemma StepSight(h: Head, rest: seq<Head>, r: Rest, f: Frame, f': Frame, out: seq<Bytes>, lost: seq<Bytes>)
    requires Steps(h, r, f, f', out, lost) && OneSwitch(Taken(f, r.carry) + r.recs)
    ensures var next := Next(h, r);
            && Holds(f', next.carry) && InSight([h] + rest, r, f) == out + InSight(rest, next, f')
            && OneSwitch(Taken(f', next.carry) + next.recs)
            && (AnySwitch(out) ==> next == Rest([], []) && f' == Fresh && Through(out) == out)
  {
    hide InSight, AnySwitch, Through, Next, OneSwitch;
    var next := Next(h, r);
    var tail := Taken(f', next.carry) + next.recs;
    OneSwitchBehind(out, lost + tail);
    OneSwitchBehind(lost, tail);
    if AnySwitch(out) {
      NoneSwitches();
      assert out != [] && lost + tail == [];
    }
  }

  lemma NoFilesLeft(f: Frame, groups: seq<seq<Bytes>>, behind: seq<Bytes>, files: seq<Bytes>)
    requires groups != [] && groups[0] == []
    ensures |groups| == 1 && behind == [] ==> ScanFiles(f, FilesOf(groups, behind) + files) == ScanFiles(f, files)
    ensures |groups| > 1 ==>
              && ScanFiles(f, FilesOf(groups, behind) + files) == ScanFiles(f, FilesOf(groups[1..], behind) + files)
              && Flatten(groups) == Flatten(groups[1..]) && groups[1..][|groups| - 2] == groups[|groups| - 1]
  {
    hide ScanFiles, Join;
    if |groups| == 1 {
      assert groups[0] + [] == [];
      NoPages(f, files);
    } else {
      var others := FilesOf(groups[1..], behind);
      NoPages(f, others + files);
      assert FilesOf(groups, behind) + files == [Join([])] + (others + files);
    }
  }

  lemma NothingMore(f: Frame, f': Frame)
    ensures ScanFiles(f, []) == ScanFiles(f', [])
  {
  }

  /** From the middle of a run: its files give what is in sight, and the next run is read afresh. */
  lemma {:induction false} ReadGroups(heads: seq<Head>, r: Rest, f: Frame, groups: seq<seq<Bytes>>, behind: seq<Bytes>,
      files: seq<Bytes>)
    requires Pending(heads, r, f) && groups != [] && Flatten(groups) == Pages(heads, r) && WholePages(behind)
    requires AnySwitch(InSight(heads, r, f)) || (behind == [] && files == [])
    requires behind != [] ==> LastFile(heads, r, f, groups)
    ensures ScanFiles(f, FilesOf(groups, behind) + files) == InSight(heads, r, f) + ScanFiles(Fresh, files)
    decreases |heads|, |groups|
  {
    hide ScanPage, ScanFiles, InSight, AnySwitch, Through, Page, Next, Holds, AllRecords, WalLayout.Seen, FilesOf,
         Flatten, Join, Steps, Awaited, Taken, OneSwitch;
    PagesLength(heads, r);
    if groups[0] != [] {
      assert Flatten(groups) != [] by { FlattenFirst(groups); }
      PageOfRun(heads, r, f, groups, behind, files);
    } else {
      NoFilesLeft(f, groups, behind, files);
      if |groups| > 1 {
        ReadGroups(heads, r, f, groups[1..], behind, files);
      } else {
        assert Flatten(groups) == [] by { FlattenOne(groups); }
        NothingInSight(heads, r, f);
        NoneSwitches();
        NothingMore(f, Fresh);
      }
    }
  }

  lemma FlattenOne(groups: seq<seq<Bytes>>)
    requires |groups| == 1
    ensures Flatten(groups) == groups[0]
  {
  }

  lemma FlattenFirst(groups: seq<seq<Bytes>>)
    requires groups != [] && groups[0] != []
    ensures Flatten(groups) != []
  {
  }

  lemma {:induction false} PageOfRun(heads: seq<Head>, r: Rest, f: Frame, groups: seq<seq<Bytes>>, behind: seq<Bytes>,
      files: seq<Bytes>)
    requires Pending(heads, r, f) && groups != [] && Flatten(groups) == Pages(heads, r) && WholePages(behind)
    requires AnySwitch(InSight(heads, r, f)) || (behind == [] && files == [])
    requires behind != [] ==> LastFile(heads, r, f, groups)
    requires groups[0] != [] && heads != []
    ensures ScanFiles(f, FilesOf(groups, behind) + files) == InSight(heads, r, f) + ScanFiles(Fresh, files)
    decreases |heads|, 0
  {
    hide ScanPage, ScanFiles, InSight, AnySwitch, Through, Page, Next, Holds, AllRecords, FilesOf, LastFile, Flatten,
         Join, Steps, Awaited, Taken, OneSwitch, ValidHeads;
    var h, rest := heads[0], heads[1..];
    assert heads == [h] + rest;
    PageAndRest(heads, r, groups);
    PagesLength(heads, r);
    var less, next := [groups[0][1..]] + groups[1..], Next(h, r);
    var f', out, lost := Step(h, r, f);
    StepSight(h, rest, r, f, f', out, lost);
    ThroughAppend(out, InSight(rest, next, f'));
    var pages, others := FilesStep(groups, behind, files);
    ScanNext(f, groups[0][0], pages, others);
    if behind != [] { StillLast(h, rest, r, f, f', out, lost, groups); }
    if AnySwitch(out) {
      NothingInSight(rest, next, f');
      if |groups| > 1 { SkipEmpty(rest, groups, files); }
      assert [] + files == files;
    } else {
      ReadGroups(rest, next, f', less, behind, files);
      Regroup(out, InSight(rest, next, f'), ScanFiles(Fresh, files));
    }
  }

  // ---- A whole log ----

  /** Every run but the last ends with its switch, and so may the last. */
  ghost predicate ValidRuns(runs: seq<Run>) {
    runs == [] ||
    (runs[0].Valid() && ValidRuns(runs[1..])
     && (runs[0].Switched() || (NoSwitch(runs[0].recs) && runs[0].behind == [] && |runs| == 1)))
  }

  ghost function AllFiles(runs: seq<Run>): seq<Bytes>
    requires ValidRuns(runs)
  {
    if runs == [] then [] else runs[0].Files() + AllFiles(runs[1..])
  }

  function AllSeen(runs: seq<Run>): seq<Bytes> {
    if runs == [] then [] else runs[0].Seen() + AllSeen(runs[1..])
  }

  lemma RunIsPending(run: Run)
    requires run.Valid() && (run.Switched() || (NoSwitch(run.recs) && run.behind == []))
    ensures Pending(run.heads, Rest([], run.recs), Fresh)
    ensures InSight(run.heads, Rest([], run.recs), Fresh) == run.Seen()
    ensures run.behind != [] ==> LastFile(run.heads, Rest([], run.recs), Fresh, run.groups)
  {
    hide ReadableFrom, AnySwitch, InSight, ValidHeads, Pages;
    NothingTaken(run.heads, run.recs);
    assert Taken(Fresh, []) + run.recs == run.recs;
    if !run.Switched() && run.recs != [] {
      assert run.recs == run.recs[..|run.recs| - 1] + [run.recs[|run.recs| - 1]];
      ThroughAppend(run.recs[..|run.recs| - 1], [run.recs[|run.recs| - 1]]);
    }
    if run.behind != [] { NothingTaken(run.Front(), run.recs); }
  }

  lemma {:induction false} ReadRuns(runs: seq<Run>)
    requires ValidRuns(runs)
    ensures ScanFiles(Fresh, AllFiles(runs)) == AllSeen(runs)
    decreases |runs|
  {
    hide ScanFiles, Run.Valid, Run.Switched, InSight, Pending, AnySwitch, FilesOf, LastFile, Pages, Flatten;
    if runs == [] {
      NothingScanned();
    } else {
      var run := runs[0];
      RunIsPending(run);
      ReadRuns(runs[1..]);
      RunIsValid(run);
      ReadGroups(run.heads, Rest([], run.recs), Fresh, run.groups, run.behind, AllFiles(runs[1..]));
    }
  }

  lemma NothingScanned()
    ensures ScanFiles(Fresh, []) == []
  {
  }

  lemma RunIsValid(run: Run)
    requires run.Valid()
    ensures run.groups != [] && WholePages(run.behind) && ValidHeads(run.heads) && AllRecords(run.recs)
    ensures Flatten(run.groups) == Pages(run.heads, Rest([], run.recs))
    ensures run.Switched() ==> AnySwitch(run.Seen())
  {
    hide Pages, Flatten, AnySwitch;
  }

  /** The reader on a log with switches: every record it can see comes out, in order, those behind a switch
      from the start of the next file; what stands behind the switch in its own file, log pages or anything
      else, is not read. */
  lemma ParsedRuns(o: Opts, heap: WalRecords.HeapDecoder, runs: seq<Run>)
    requires ValidRuns(runs)
    ensures
      var f := FeedFiles(o, heap, NewReader, AllFiles(runs));
      f.out + Finish(o, f.reader.state) == Total(o, WalRecords.EventsOf(heap, AllSeen(runs)))
  {
    hide FeedFiles, ScanFiles, Total, Finish, WalRecords.EventsOf, AllFiles, AllSeen, ValidRuns;
    ReadRuns(runs);
    ParsedIsTotal(o, heap, AllFiles(runs));
  }

  /** Switches as they are written: by the XLOG resource manager with 4 in the high half of the info byte.
      No checkpoint, no other record of that manager and none of another manager ends a file. */
  lemma SwitchAsWritten(xid: U32, prev: Bytes, info: Byte, rmid: Byte, check: Bytes, body: Bytes)
    requires |prev| == 8 && |check| == 6 && RECORD_HEADER + |body| < 0x1_0000_0000
    ensures Switches(WalRecords.WriteRecord(xid, prev, info, rmid, check, body))
            <==> rmid == 0 && 0x40 <= info < 0x50
  {
    hide WalRecords.WriteRecord;
    WalRecords.RecordFields(xid, prev, info, rmid, check, body);
  }
}
