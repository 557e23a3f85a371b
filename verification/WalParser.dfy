/** The WAL parser (flashbackWALParser and flashbackWalkWALDir in flashback_walparse.go), page by page and
    file by file. */
module WalParser {
  import opened Bytes
  import opened Changes
  import opened TxnBuffer
  import opened Transactions
  import opened WalPages
  import opened WalRecords
  import opened Lists

  // ---- The parser as a function of its state ----

  /** Reassembly state, transaction state, and the records given to the decoder so far. */
  datatype Reader = Reader(frame: Frame, state: State, seen: seq<Bytes>)

  datatype Fed = Fed(reader: Reader, out: seq<Change>)

  function Consume(o: Opts, heap: HeapDecoder, s: State, seen: seq<Bytes>, recs: seq<Bytes>): Result {
    if recs == [] then Result(s, [])
    else
      var front := recs[..|recs| - 1];
      var r := Consume(o, heap, s, seen, front);
      var next := Step(o, r.state, Classify(heap, seen + front, recs[|recs| - 1]));
      Result(next.state, r.out + next.out)
  }

  function FeedPage(o: Opts, heap: HeapDecoder, r: Reader, page: Bytes): Fed
    requires |page| == PAGE_SIZE
  {
    var s := ScanPage(r.frame, page);
    var c := Consume(o, heap, r.state, r.seen, s.recs);
    Fed(Reader(s.frame, c.state, r.seen + s.recs), c.out)
  }

  /** The whole pages of a file's bytes; a short page at the end is not read. */
  function PagesOf(data: Bytes): (pages: seq<Bytes>)
    ensures WholePages(pages)
  {
    if |data| < PAGE_SIZE then [] else [data[..PAGE_SIZE]] + PagesOf(data[PAGE_SIZE..])
  }

  function FeedPages(o: Opts, heap: HeapDecoder, r: Reader, pages: seq<Bytes>): Fed
    requires WholePages(pages)
    decreases |pages|
  {
    if pages == [] || r.state.Stopped(o) then Fed(r, [])
    else
      var f := FeedPage(o, heap, r, pages[0]);
      if ScanPage(r.frame, pages[0]).switched then f
      else
        var g := FeedPages(o, heap, f.reader, pages[1..]);
        Fed(g.reader, f.out + g.out)
  }

  function FeedFiles(o: Opts, heap: HeapDecoder, r: Reader, files: seq<Bytes>): Fed
    decreases |files|
  {
    if files == [] || r.state.Stopped(o) then Fed(r, [])
    else
      var f := FeedPages(o, heap, r, PagesOf(files[0]));
      var g := FeedFiles(o, heap, f.reader, files[1..]);
      Fed(g.reader, f.out + g.out)
  }

  const NewReader := Reader(Fresh, Start, [])

  // ---- The parser as it runs ----

  class Parser {
    const opts: Opts
    const heap: HeapDecoder
    const txn: TxnBuf
    var cont: Bytes
    var contNeed: nat
    var padSkip: nat
    var emitted: nat
    var pastEnd: bool
    /** The records handed to the decoder, standing for the state it keeps. */
    var seen: seq<Bytes>

    constructor (opts: Opts, heap: HeapDecoder)
      ensures this.opts == opts && this.heap == heap && fresh(txn)
      ensures Abstract() == NewReader
    {
      this.opts, this.heap := opts, heap;
      txn := new TxnBuf();
      cont, contNeed, padSkip, emitted, pastEnd, seen := [], 0, 0, 0, false, [];
    }

    function Txn(): State
      reads this, txn
    {
      State(txn.pending, emitted, pastEnd)
    }

    function Abstract(): Reader
      reads this, txn
    {
      Reader(Frame(cont, contNeed, padSkip), Txn(), seen)
    }

    method Take(ch: seq<Change>) returns (out: seq<Change>)
      modifies this`emitted
      ensures out == Allowed(opts, old(emitted), ch) && emitted == old(emitted) + |out|
    {
      if |ch| == 0 { return []; }
      if opts.maxChanges <= 0 {
        emitted := emitted + |ch|;
        return ch;
      }
      var left := opts.maxChanges - emitted;
      if left <= 0 { return []; }
      out := ch;
      if |ch| > left { out := ch[..left]; }
      emitted := emitted + |out|;
    }

    method HandleXact(rec: Bytes) returns (out: seq<Change>)
      requires |rec| >= RECORD_HEADER && !pastEnd
      modifies this`pastEnd, txn
      ensures
        var h := Handle(opts.window, old(Txn()), XactEvent(rec));
        Txn() == h.state && out == h.out
    {
      var xid, op := LE32(rec, 4), WalRecords.Op(rec[16]);
      var payload := XactMainData(rec);
      var prepared := op == XACT_COMMIT_PREPARED || op == XACT_ABORT_PREPARED;
      if op == XACT_COMMIT || op == XACT_COMMIT_PREPARED {
        var cmt := ParseXactCommit(rec[16], payload, prepared);
        var flushed := txn.Flush(cmt.subs, cmt.time, xid);
        if opts.window.to.Some? && cmt.time.Some? && cmt.time.value > opts.window.to.value {
          pastEnd := true;
        }
        out := FilterWindow(flushed, opts.window);
      } else if op == XACT_ABORT || op == XACT_ABORT_PREPARED {
        var cmt := ParseXactCommit(rec[16], payload, prepared);
        txn.Discard([xid] + cmt.subs);
        out := [];
      } else {
        out := [];
      }
    }

    /** One record: a transaction record is handled, any other is decoded and its changes buffered. */
    method EmitRecord(rec: Bytes) returns (out: seq<Change>)
      modifies this`pastEnd, this`seen, txn
      ensures
        var h := Handle(opts.window, old(Txn()), Classify(heap, old(seen), rec));
        Txn() == h.state && out == h.out
      ensures seen == old(seen) + [rec]
    {
      out := [];
      if pastEnd || |rec| < RECORD_HEADER {
        seen := seen + [rec];
        return;
      }
      if rec[17] == RM_XACT {
        out := HandleXact(rec);
      } else {
        var chs := heap(seen, rec);
        ghost var was := txn.pending;
        for k := 0 to |chs|
          invariant txn.pending == AddedAll(was, chs[..k])
          modifies txn
        {
          assert chs[..k + 1][..k] == chs[..k];
          txn.Add(chs[k]);
        }
        assert chs[..|chs|] == chs;
      }
      seen := seen + [rec];
    }

    method EmitAndTake(rec: Bytes) returns (out: seq<Change>)
      modifies this`pastEnd, this`seen, this`emitted, txn
      ensures
        var s := Step(opts, old(Txn()), Classify(heap, old(seen), rec));
        Txn() == s.state && out == s.out
      ensures seen == old(seen) + [rec]
    {
      var got := EmitRecord(rec);
      out := Take(got);
    }

    /** A record handed over, on top of those of this page already `done`. */
    method HandOver(rec: Bytes, ghost state: State, ghost before: seq<Bytes>, ghost done: seq<Bytes>)
      returns (out: seq<Change>)
      requires Txn() == Consume(opts, heap, state, before, done).state && seen == before + done
      modifies this`pastEnd, this`seen, this`emitted, txn
      ensures
        var c := Consume(opts, heap, state, before, done + [rec]);
        Txn() == c.state && c.out == Consume(opts, heap, state, before, done).out + out
      ensures seen == before + (done + [rec])
    {
      hide Consume, Step, Classify;
      out := EmitAndTake(rec);
      ConsumeOne(opts, heap, state, before, done, rec);
    }

    /** The record loop over what is left of a page body. */
    method FeedBody(start: Bytes) returns (out: seq<Change>, switched: bool)
      modifies this, txn
      ensures
        var r := old(Abstract());
        var s := ScanBody(r.frame, start);
        var c := Consume(opts, heap, r.state, r.seen, s.recs);
        && Abstract() == Reader(s.frame, c.state, r.seen + s.recs)
        && out == c.out && switched == s.switched
    {
      hide Consume, ScanBody, LE32, IsSwitch, Words;
      ghost var r := Abstract();
      ghost var done: seq<Bytes> := [];
      var body := start;
      out, switched := [], false;
      ConsumeNone(opts, heap, r.state, r.seen);
      while |body| >= RECORD_HEADER
        invariant Abstract() == Reader(r.frame, Consume(opts, heap, r.state, r.seen, done).state, r.seen + done)
        invariant out == Consume(opts, heap, r.state, r.seen, done).out
        invariant ScanBody(r.frame, start) == Behind(done, ScanBody(r.frame, body))
        decreases |body|
      {
        ScanBodyStep(r.frame, body);
        var tot := LE32(body, 0);
        if tot < RECORD_HEADER || tot > MAX_RECORD { break; }
        var aligned := MaxAlign(tot);
        if tot > |body| {
          cont, contNeed := body, tot;
          break;
        }
        var rec := body[..tot];
        var got := HandOver(rec, r.state, r.seen, done);
        out := out + got;
        BehindOne(done, rec, ScanBody(r.frame, body[if aligned > |body| then 0 else aligned..]));
        done := done + [rec];
        if IsSwitch(rec) {
          switched := true;
          break;
        }
        if aligned > |body| {
          padSkip := aligned - |body|;
          break;
        }
        body := body[aligned..];
      }
      ScanBodyStep(r.frame, body);
      assert ScanBody(r.frame, start).recs == done;
    }

    /** The bytes at the start of a page that continue a record: appended to what is held, and the
        record handed over when it is whole. */
    method FeedContinuation(body: Bytes, rem: nat) returns (out: seq<Change>, switched: bool)
      modifies this, txn
      ensures
        var r := old(Abstract());
        var s := Continue(r.frame, body, rem);
        var c := Consume(opts, heap, r.state, r.seen, s.recs);
        && Abstract() == Reader(s.frame, c.state, r.seen + s.recs)
        && out == c.out && switched == s.switched
    {
      hide Consume, IsSwitch;
      ghost var r := Abstract();
      ConsumeNone(opts, heap, r.state, r.seen);
      out, switched := [], false;
      var take := rem;
      if take > |body| { take := |body|; }
      if contNeed > 0 && take > 0 {
        cont := cont + body[..take];
        if |cont| >= contNeed {
          var rec := cont[..contNeed];
          out := HandOver(rec, r.state, r.seen, []);
          assert [] + [rec] == [rec];
          cont, contNeed := [], 0;
          switched := IsSwitch(rec);
        }
      }
    }

    method FeedOnePage(page: Bytes) returns (out: seq<Change>, switched: bool)
      requires |page| == PAGE_SIZE
      modifies this, txn
      ensures
        var r := old(Abstract());
        var f := FeedPage(opts, heap, r, page);
        Abstract() == f.reader && out == f.out && switched == ScanPage(r.frame, page).switched
    {
      hide Consume, Continue, ScanBody, LE16, LE32, HasFlag, LooksLikeMagic, Words;
      ghost var r := Abstract();
      ConsumeNone(opts, heap, r.state, r.seen);
      out, switched := [], false;
      if !LooksLikeMagic(LE16(page, 0)) { return; }
      var body := page[HeaderLen(page)..];
      if HasFlag(LE16(page, 2), XLP_FIRST_CONT) {
        var rem := LE32(page, 16);
        out, switched := FeedContinuation(body, rem);
        if switched || rem > |body| { return; }
        ghost var c := Continue(r.frame, body, rem);
        var skip := MaxAlign(rem);
        if skip > |body| {
          padSkip := skip - |body|;
          return;
        }
        padSkip := 0;
        ghost var s := ScanBody(c.frame.(padSkip := 0), body[skip..]);
        var more;
        more, switched := FeedBody(body[skip..]);
        ConsumeMore(opts, heap, r.state, r.seen, c.recs, s.recs);
        out := out + more;
      } else {
        if padSkip > 0 {
          if padSkip >= |body| {
            padSkip := padSkip - |body|;
            return;
          }
          body := body[padSkip..];
          padSkip := 0;
        }
        if contNeed > 0 {
          cont, contNeed := [], 0;
        }
        out, switched := FeedBody(body);
      }
    }

    /** A segment file: whole pages, until the input or the run ends or a switch record is met. */
    method FeedFile(data: Bytes) returns (out: seq<Change>)
      modifies this, txn
      ensures
        var f := FeedPages(opts, heap, old(Abstract()), PagesOf(data));
        Abstract() == f.reader && out == f.out
    {
      hide FeedPage, ScanPage, FeedPages, PagesOf, State.Stopped;
      ghost var r, all := Abstract(), FeedPages(opts, heap, Abstract(), PagesOf(data));
      var pos := 0;
      out := [];
      assert data[0..] == data;
      while true
        invariant 0 <= pos <= |data|
        invariant
          var rest := FeedPages(opts, heap, Abstract(), PagesOf(data[pos..]));
          all == Fed(rest.reader, out + rest.out)
        decreases |data| - pos
      {
        PagesStep(data, pos);
        FeedPagesStep(opts, heap, Abstract(), PagesOf(data[pos..]));
        assert Abstract().state.Stopped(opts) <==> pastEnd || (opts.maxChanges > 0 && emitted >= opts.maxChanges) by {
          StoppedIs(opts, Abstract().state);
        }
        if pastEnd { return; }
        if opts.maxChanges > 0 && emitted >= opts.maxChanges { return; }
        if pos + PAGE_SIZE > |data| { return; }
        var page := data[pos..pos + PAGE_SIZE];
        ghost var rest := FeedPages(opts, heap, Abstract(), PagesOf(data[pos..]));
        var got, switched := FeedOnePage(page);
        assert switched ==> rest.out == got;
        out := out + got;
        if switched { return; }
        pos := pos + PAGE_SIZE;
      }
    }
  }

  lemma StoppedIs(o: Opts, s: State)
    ensures s.Stopped(o) <==> s.pastEnd || (o.maxChanges > 0 && s.emitted >= o.maxChanges)
  {
  }

  lemma PagesStep(data: Bytes, pos: nat)
    requires pos <= |data|
    ensures PagesOf(data[pos..])
         == if pos + PAGE_SIZE > |data| then [] else [data[pos..pos + PAGE_SIZE]] + PagesOf(data[pos + PAGE_SIZE..])
  {
    if pos + PAGE_SIZE <= |data| {
      assert data[pos..][..PAGE_SIZE] == data[pos..pos + PAGE_SIZE];
      assert data[pos..][PAGE_SIZE..] == data[pos + PAGE_SIZE..];
    }
  }

  lemma FeedPagesStep(o: Opts, heap: HeapDecoder, r: Reader, pages: seq<Bytes>)
    requires WholePages(pages)
    ensures FeedPages(o, heap, r, pages)
         == if pages == [] || r.state.Stopped(o) then Fed(r, [])
            else
              var f := FeedPage(o, heap, r, pages[0]);
              if ScanPage(r.frame, pages[0]).switched then f
              else var g := FeedPages(o, heap, f.reader, pages[1..]); Fed(g.reader, f.out + g.out)
  {
  }

  /** Reading a directory's segment files in order, all changes gathered. */
  method ParseWalDir(files: seq<Bytes>, opts: Opts, heap: HeapDecoder) returns (out: seq<Change>)
    ensures
      var f := FeedFiles(opts, heap, NewReader, files);
      out == f.out + Finish(opts, f.reader.state)
  {
    hide FeedPages;
    var p := new Parser(opts, heap);
    out := [];
    assert files[0..] == files;
    ghost var all := FeedFiles(opts, heap, NewReader, files);
    for i := 0 to |files|
      invariant fresh(p) && fresh(p.txn) && p.opts == opts && p.heap == heap
      invariant
        var rest := FeedFiles(opts, heap, p.Abstract(), files[i..]);
        all.reader == rest.reader && all.out == out + rest.out
    {
      if opts.maxChanges > 0 && p.emitted >= opts.maxChanges { break; }
      if p.pastEnd { break; }
      var ch := p.FeedFile(files[i]);
      assert files[i..][0] == files[i] && files[i..][1..] == files[i + 1..];
      out := out + ch;
    }
    assert all.reader == p.Abstract() && all.out == out;
    if !opts.window.Bounded() {
      var pending := p.txn.DumpAll();
      var last := p.Take(pending);
      out := out + last;
    }
  }

  function Behind(done: seq<Bytes>, s: Scan): Scan {
    s.(recs := done + s.recs)
  }

  lemma BehindOne(done: seq<Bytes>, rec: Bytes, s: Scan)
    ensures Behind(done, s.Before(rec)) == Behind(done + [rec], s)
  {
    assert done + ([rec] + s.recs) == (done + [rec]) + s.recs;
  }

  /** One turn of the record loop. */
  lemma ScanBodyStep(f: Frame, body: Bytes)
    ensures
      var s := ScanBody(f, body);
      if |body| < RECORD_HEADER then s == Scan(f, [], false)
      else
        var tot := LE32(body, 0);
        if tot < RECORD_HEADER || tot > MAX_RECORD then s == Scan(f, [], false)
        else if tot > |body| then s == Scan(f.(cont := body, contNeed := tot), [], false)
        else if IsSwitch(body[..tot]) then s == Scan(f, [body[..tot]], true)
        else if MaxAlign(tot) > |body| then s == Scan(f.(padSkip := MaxAlign(tot) - |body|), [body[..tot]], false)
        else s == ScanBody(f, body[MaxAlign(tot)..]).Before(body[..tot])
  {
  }

  lemma {:induction false} ConsumeMore(o: Opts, heap: HeapDecoder, s: State, seen: seq<Bytes>, a: seq<Bytes>,
        b: seq<Bytes>)
    ensures
      var c := Consume(o, heap, s, seen, a);
      var d := Consume(o, heap, c.state, seen + a, b);
      Consume(o, heap, s, seen, a + b) == Result(d.state, c.out + d.out)
    decreases |b|
  {
    hide Consume, Step, Classify;
    var c := Consume(o, heap, s, seen, a);
    if b == [] {
      assert a + b == a && c.out + [] == c.out;
      ConsumeNone(o, heap, c.state, seen + a);
    } else {
      var b', rec := b[..|b| - 1], b[|b| - 1];
      assert b == b' + [rec];
      ConsumeMore(o, heap, s, seen, a, b');
      ConsumeOne(o, heap, s, seen, a + b', rec);
      ConsumeOne(o, heap, c.state, seen + a, b', rec);
      Regroup(a, b', [rec]);
      Regroup(seen, a, b');
    }
  }

  lemma ConsumeNone(o: Opts, heap: HeapDecoder, s: State, seen: seq<Bytes>)
    ensures Consume(o, heap, s, seen, []) == Result(s, [])
  {
  }

  method XactMainData(rec: Bytes) returns (main: Bytes)
    ensures main == MainData(rec)
  {
    if |rec| < RECORD_HEADER { return []; }
    var body := rec[RECORD_HEADER..];
    if |body| == 0 { return []; }
    var p := XLogBody.SplitXLogBody(body);
    if p.Parts? && p.main != [] { return p.main; }
    main := body;
  }

  method FilterWindow(ch: seq<Change>, w: Window) returns (out: seq<Change>)
    ensures out == Kept(ch, w.from, w.to)
  {
    if |ch| == 0 { return []; }
    var buf := new Change[|ch|](i requires 0 <= i < |ch| => ch[i]);
    assert buf[..] == ch;
    var n := FilterCommitTime(buf, w.from, w.to);
    out := buf[..n];
  }

  lemma ConsumeOne(o: Opts, heap: HeapDecoder, s: State, seen: seq<Bytes>, recs: seq<Bytes>, rec: Bytes)
    ensures
      var r := Consume(o, heap, s, seen, recs);
      var next := Step(o, r.state, Classify(heap, seen + recs, rec));
      Consume(o, heap, s, seen, recs + [rec]) == Result(next.state, r.out + next.out)
  {
    assert (recs + [rec])[..|recs + [rec]| - 1] == recs;
  }
}
