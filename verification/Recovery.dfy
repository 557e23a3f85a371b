/** The reader end to end: from records laid out on the pages of segment files to the changes handed
    over. */
module Recovery {
  import opened Bytes
  import opened TxnBuffer
  import opened Transactions
  import opened WalPages
  import opened WalLayout
  import opened WalRecords
  import opened WalParser
  import opened Lists

  // ---- Whatever the files hold, the output is the transaction machine's on the records found ----

  /** Every record that a scan of the files finds, stops and limits aside. */
  function ScanFiles(f: Frame, files: seq<Bytes>): seq<Bytes>
    decreases |files|
  {
    if files == [] then []
    else
      var s := ScanPages(f, PagesOf(files[0]));
      s.recs + ScanFiles(s.frame, files[1..])
  }

  /** The reader's transaction state is that of a run over the records it has seen. */
  ghost predicate Tracks(o: Opts, heap: HeapDecoder, r: Reader) {
    r.state == Run(o, EventsOf(heap, r.seen)).state
  }

  lemma EventsAppend(heap: HeapDecoder, recs: seq<Bytes>, rec: Bytes)
    ensures EventsOf(heap, recs + [rec]) == EventsOf(heap, recs) + [Classify(heap, recs, rec)]
  {
    assert (recs + [rec])[..|recs + [rec]| - 1] == recs;
    hide Classify;
  }

  lemma {:induction false} ConsumeIsRun(o: Opts, heap: HeapDecoder, seen: seq<Bytes>, recs: seq<Bytes>)
    ensures
      var r := Run(o, EventsOf(heap, seen));
      var c := Consume(o, heap, r.state, seen, recs);
      Run(o, EventsOf(heap, seen + recs)) == Result(c.state, r.out + c.out)
    decreases |recs|
  {
    hide Run, Consume, EventsOf, Step, Classify, Output, Past, UpToEnd, Buffered, HandedOver;
    var r := Run(o, EventsOf(heap, seen));
    if recs == [] {
      ConsumeNone(o, heap, r.state, seen);
      assert seen + recs == seen && r.out + [] == r.out;
    } else {
      var recs', rec := recs[..|recs| - 1], recs[|recs| - 1];
      assert recs == recs' + [rec];
      Regroup(seen, recs', [rec]);
      ConsumeIsRun(o, heap, seen, recs');
      ConsumeOne(o, heap, r.state, seen, recs', rec);
      EventsAppend(heap, seen + recs', rec);
      OneMore(o, EventsOf(heap, seen + recs'), Classify(heap, seen + recs', rec));
      var c := Consume(o, heap, r.state, seen, recs');
      Regroup(r.out, c.out, Step(o, c.state, Classify(heap, seen + recs', rec)).out);
    }
  }

  /** What feeding has done: the reader tracks a run over a part of `all`, the whole of it unless
      stopped, and has given that run's output. */
  ghost predicate Follows(o: Opts, heap: HeapDecoder, r: Reader, g: Fed, all: seq<Bytes>, f: Frame) {
    && Tracks(o, heap, g.reader)
    && Run(o, EventsOf(heap, r.seen)).out + g.out == Run(o, EventsOf(heap, g.reader.seen)).out
    && g.reader.seen <= all
    && (!g.reader.state.Stopped(o) ==> g.reader.seen == all && g.reader.frame == f)
  }

  lemma FollowsPage(o: Opts, heap: HeapDecoder, r: Reader, page: Bytes)
    requires |page| == PAGE_SIZE && Tracks(o, heap, r)
    ensures
      var s := ScanPage(r.frame, page);
      Follows(o, heap, r, FeedPage(o, heap, r, page), r.seen + s.recs, s.frame)
  {
    hide Run, Consume, EventsOf, ScanPage;
    ConsumeIsRun(o, heap, r.seen, ScanPage(r.frame, page).recs);
  }

  lemma FollowsNothing(o: Opts, heap: HeapDecoder, r: Reader, all: seq<Bytes>, f: Frame)
    requires Tracks(o, heap, r) && r.seen <= all
    requires r.state.Stopped(o) || (r.seen == all && r.frame == f)
    ensures Follows(o, heap, r, Fed(r, []), all, f)
  {
    hide Run, EventsOf, State.Stopped;
  }

  lemma FollowsOn(o: Opts, heap: HeapDecoder, r: Reader, a: Fed, mid: seq<Bytes>, f: Frame, b: Fed, more: seq<Bytes>,
        f': Frame)
    requires Follows(o, heap, r, a, mid, f)
    requires if a.reader.state.Stopped(o) then b == Fed(a.reader, [])
             else Follows(o, heap, a.reader, b, mid + more, f')
    ensures Follows(o, heap, r, Fed(b.reader, a.out + b.out), mid + more, f')
  {
    hide Run, EventsOf, State.Stopped;
    if a.reader.state.Stopped(o) {
      assert a.out + [] == a.out;
    } else {
      var x := Run(o, EventsOf(heap, r.seen)).out;
      assert x + (a.out + b.out) == (x + a.out) + b.out;
    }
  }

  lemma ScanPagesStep(f: Frame, pages: seq<Bytes>)
    requires WholePages(pages)
    ensures ScanPages(f, pages)
         == if pages == [] then Scan(f, [], false)
            else
              var s := ScanPage(f, pages[0]);
              if s.switched then s else var t := ScanPages(s.frame, pages[1..]); t.(recs := s.recs + t.recs)
  {
    hide ScanPage;
  }

  lemma {:induction false} FollowsPages(o: Opts, heap: HeapDecoder, r: Reader, pages: seq<Bytes>)
    requires WholePages(pages) && Tracks(o, heap, r)
    ensures
      var s := ScanPages(r.frame, pages);
      Follows(o, heap, r, FeedPages(o, heap, r, pages), r.seen + s.recs, s.frame)
    decreases |pages|
  {
    hide FeedPages, FeedPage, ScanPage, ScanPages, Follows, Tracks, State.Stopped;
    var s := ScanPages(r.frame, pages);
    FeedPagesStep(o, heap, r, pages);
    ScanPagesStep(r.frame, pages);
    if pages == [] || r.state.Stopped(o) {
      assert r.seen <= r.seen + s.recs && (pages == [] ==> r.seen + s.recs == r.seen);
      FollowsNothing(o, heap, r, r.seen + s.recs, s.frame);
    } else {
      var a, p := FeedPage(o, heap, r, pages[0]), ScanPage(r.frame, pages[0]);
      FollowsPage(o, heap, r, pages[0]);
      if !p.switched {
        var rest, b := ScanPages(p.frame, pages[1..]), FeedPages(o, heap, a.reader, pages[1..]);
        Regroup(r.seen, p.recs, rest.recs);
        if a.reader.state.Stopped(o) {
          FeedPagesStep(o, heap, a.reader, pages[1..]);
        } else {
          FollowsParts(o, heap, r, a, r.seen + p.recs, p.frame);
          FollowsPages(o, heap, a.reader, pages[1..]);
        }
        FollowsOn(o, heap, r, a, r.seen + p.recs, p.frame, b, rest.recs, s.frame);
      }
    }
  }

  lemma FollowsParts(o: Opts, heap: HeapDecoder, r: Reader, g: Fed, all: seq<Bytes>, f: Frame)
    requires Follows(o, heap, r, g, all, f) && !g.reader.state.Stopped(o)
    ensures Tracks(o, heap, g.reader) && g.reader.seen == all && g.reader.frame == f
  {
  }

  lemma {:induction false} FollowsFiles(o: Opts, heap: HeapDecoder, r: Reader, files: seq<Bytes>)
    returns (f: Frame)
    requires Tracks(o, heap, r)
    ensures Follows(o, heap, r, FeedFiles(o, heap, r, files), r.seen + ScanFiles(r.frame, files), f)
    decreases |files|
  {
    var all := ScanFiles(r.frame, files);
    hide FeedPages, ScanPages, Follows, Tracks, State.Stopped, PagesOf;
    f := r.frame;
    if files == [] || r.state.Stopped(o) {
      assert r.seen <= r.seen + all && (files == [] ==> r.seen + all == r.seen);
      FollowsNothing(o, heap, r, r.seen + all, f);
    } else {
      var pages := PagesOf(files[0]);
      var a, s := FeedPages(o, heap, r, pages), ScanPages(r.frame, pages);
      FollowsPages(o, heap, r, pages);
      var b, rest := FeedFiles(o, heap, a.reader, files[1..]), ScanFiles(s.frame, files[1..]);
      assert (r.seen + s.recs) + rest == r.seen + all;
      if !a.reader.state.Stopped(o) {
        FollowsParts(o, heap, r, a, r.seen + s.recs, s.frame);
        f := FollowsFiles(o, heap, a.reader, files[1..]);
      }
      FollowsOn(o, heap, r, a, r.seen + s.recs, s.frame, b, rest, f);
    }
  }

  // ---- A stopped run gives nothing more ----

  lemma StoppedStep(o: Opts, s: State, e: Event)
    requires s.Stopped(o)
    ensures Step(o, s, e).out == [] && Step(o, s, e).state.Stopped(o)
  {
    hide AddedAll, Cleared, Flushed, Kept;
  }

  lemma {:induction false} StoppedRun(o: Opts, evs: seq<Event>, n: nat)
    requires n <= |evs| && Run(o, evs[..n]).state.Stopped(o)
    ensures Run(o, evs).out == Run(o, evs[..n]).out && Run(o, evs).state.Stopped(o)
    decreases |evs| - n
  {
    if n == |evs| {
      assert evs[..n] == evs;
    } else {
      hide *;
      assert evs[..n + 1] == evs[..n] + [evs[n]];
      OneMore(o, evs[..n], evs[n]);
      StoppedStep(o, Run(o, evs[..n]).state, evs[n]);
      assert Run(o, evs[..n]).out + [] == Run(o, evs[..n]).out;
      StoppedRun(o, evs, n + 1);
    }
  }

  lemma StoppedFinish(o: Opts, evs: seq<Event>)
    requires Run(o, evs).state.Stopped(o)
    ensures Finish(o, Run(o, evs).state) == []
  {
    RunOutput(o, evs);
    if o.window.to.None? {
      OpenEndNeverPast(o.window, evs);
    }
  }

  lemma {:induction false} EventsPrefix(heap: HeapDecoder, recs: seq<Bytes>, n: nat)
    requires n <= |recs|
    ensures EventsOf(heap, recs[..n]) == EventsOf(heap, recs)[..n]
    decreases |recs| - n
  {
    if n == |recs| {
      assert recs[..n] == recs && EventsOf(heap, recs)[..n] == EventsOf(heap, recs);
    } else {
      hide EventsOf, Classify;
      EventsPrefix(heap, recs, n + 1);
      assert recs[..n + 1] == recs[..n] + [recs[n]];
      EventsAppend(heap, recs[..n], recs[n]);
      var evs := EventsOf(heap, recs);
      assert evs[..n] == evs[..n + 1][..n];
    }
  }

  /** For every set of files, limits and decoder: the parser's output is the transaction machine's
      total output on all records a scan finds, wherever the reading stopped. */
  lemma ParsedIsTotal(o: Opts, heap: HeapDecoder, files: seq<Bytes>)
    ensures
      var f := FeedFiles(o, heap, NewReader, files);
      f.out + Finish(o, f.reader.state) == Total(o, EventsOf(heap, ScanFiles(Fresh, files)))
  {
    assert EventsOf(heap, []) == [] && Run(o, []).out == [] && Tracks(o, heap, NewReader);
    var frame := FollowsFiles(o, heap, NewReader, files);
    var g, all := FeedFiles(o, heap, NewReader, files), ScanFiles(Fresh, files);
    assert NewReader.seen + all == all && [] + g.out == g.out;
    FollowedTotal(o, heap, g, all, frame);
  }

  lemma FollowedTotal(o: Opts, heap: HeapDecoder, g: Fed, all: seq<Bytes>, f: Frame)
    requires Follows(o, heap, NewReader, g, all, f) && Run(o, EventsOf(heap, [])).out + g.out == g.out
    ensures g.out + Finish(o, g.reader.state) == Total(o, EventsOf(heap, all))
  {
    hide FeedFiles, ScanFiles, Run, EventsOf, Finish, State.Stopped;
    var seen := g.reader.seen;
    assert seen == all[..|seen|];
    EventsPrefix(heap, all, |seen|);
    if g.reader.state.Stopped(o) {
      StoppedRun(o, EventsOf(heap, all), |seen|);
      StoppedFinish(o, EventsOf(heap, seen));
      StoppedFinish(o, EventsOf(heap, all));
    }
  }

  // ---- Segment files cut from a run of pages ----

  function Join(pages: seq<Bytes>): Bytes {
    if pages == [] then [] else pages[0] + Join(pages[1..])
  }

  function JoinAll(groups: seq<seq<Bytes>>): (files: seq<Bytes>)
    ensures |files| == |groups|
  {
    if groups == [] then [] else [Join(groups[0])] + JoinAll(groups[1..])
  }

  function Flatten(groups: seq<seq<Bytes>>): seq<Bytes> {
    if groups == [] then [] else groups[0] + Flatten(groups[1..])
  }

  lemma {:induction false} PagesOfJoin(pages: seq<Bytes>)
    requires WholePages(pages)
    ensures PagesOf(Join(pages)) == pages
    decreases |pages|
  {
    if pages != [] {
      PagesOfJoin(pages[1..]);
      var data := Join(pages);
      assert data[..PAGE_SIZE] == pages[0] && data[PAGE_SIZE..] == Join(pages[1..]);
    }
  }

  lemma {:induction false} ScanAppend(f: Frame, a: seq<Bytes>, b: seq<Bytes>)
    requires WholePages(a) && WholePages(b) && WholePages(a + b)
    requires !ScanPages(f, a + b).switched
    ensures
      var s := ScanPages(f, a);
      var t := ScanPages(s.frame, b);
      !s.switched && !t.switched && ScanPages(f, a + b) == t.(recs := s.recs + t.recs)
    decreases |a|
  {
    hide ScanPage, ScanPages;
    ScanPagesStep(f, a);
    ScanPagesStep(f, a + b);
    if a == [] {
      assert a + b == b;
      var t := ScanPages(f, b);
      assert [] + t.recs == t.recs;
    } else {
      assert (a + b)[0] == a[0] && (a + b)[1..] == a[1..] + b;
      var p := ScanPage(f, a[0]);
      ScanAppend(p.frame, a[1..], b);
      var s := ScanPages(p.frame, a[1..]);
      Regroup(p.recs, s.recs, ScanPages(s.frame, b).recs);
    }
  }

  lemma {:induction false} ScanOfGroups(f: Frame, groups: seq<seq<Bytes>>)
    requires WholePages(Flatten(groups))
    requires !ScanPages(f, Flatten(groups)).switched
    ensures ScanFiles(f, JoinAll(groups)) == ScanPages(f, Flatten(groups)).recs
    decreases |groups|
  {
    if groups != [] {
      hide ScanPages, PagesOf;
      var g, rest := groups[0], groups[1..];
      assert Flatten(groups)[..|g|] == g && Flatten(groups)[|g|..] == Flatten(rest);
      assert WholePages(g) && WholePages(Flatten(rest));
      ScanAppend(f, g, Flatten(rest));
      PagesOfJoin(g);
      ScanOfGroups(ScanPages(f, g).frame, rest);
      assert JoinAll(groups)[1..] == JoinAll(rest);
    }
  }

  /** The reader on a well-formed log: for records laid out on pages and cut into files at any page
      bounds, the output is the transaction machine's on exactly the readable records, in order. */
  lemma ParsedLayout(o: Opts, heap: HeapDecoder, heads: seq<Head>, recs: seq<Bytes>, groups: seq<seq<Bytes>>)
    requires ValidHeads(heads) && WalLayout.AllRecords(recs) && NoSwitch(recs)
    requires Flatten(groups) == Pages(heads, Rest([], recs))
    ensures
      var f := FeedFiles(o, heap, NewReader, JoinAll(groups));
      f.out + Finish(o, f.reader.state) == Total(o, EventsOf(heap, ReadableFrom(heads, 0, recs)))
  {
    hide Pages, ScanPages, FeedFiles, ScanFiles, Run, EventsOf, Finish, Total, ReadableFrom;
    ReadLayout(heads, recs);
    ScanOfGroups(Fresh, groups);
    ParsedIsTotal(o, heap, JoinAll(groups));
  }
}
