/** How the WAL reader cuts 8 KB pages into records (feedFile in flashback_walparse.go), as a
    function of the reassembly state and the page. `WalParser` runs it in place. */
module WalPages {
  import opened Bytes

  const MAX_RECORD := 1024 * 1024
  const XLP_FIRST_CONT := 1
  const XLP_LONG_HEADER := 2

  /** The reassembly fields of the parser: bytes of an unfinished record, the length it needs, and
      padding still to skip at the start of the next page. */
  datatype Frame = Frame(cont: Bytes, contNeed: nat, padSkip: nat)

  const Fresh := Frame([], 0, 0)

  /** What one page gives: the new reassembly state, the records completed on the page, and whether
      the last of them was a segment switch, which ends the file. */
  datatype Scan = Scan(frame: Frame, recs: seq<Bytes>, switched: bool) {
    function Before(first: Bytes): Scan {
      this.(recs := [first] + recs)
    }
  }

  predicate LooksLikeMagic(m: U16) {
    || m in {0xD097, 0xD106, 0xD10D, 0xD110, 0xD111, 0xD113, 0xD116, 0xD118, 0xD121}
    || 0xD090 <= m <= 0xD200
  }

  predicate IsSwitch(rec: Bytes) {
    |rec| >= 18 && rec[17] == 0 && rec[16] / 16 == 4
  }

  function HeaderLen(page: Bytes): (n: nat)
    requires |page| == PAGE_SIZE
    ensures n == 24 || n == 40
  {
    if HasFlag(LE16(page, 2), XLP_LONG_HEADER) then 40 else 24
  }

  /** The record loop over the rest of a page body. */
  function ScanBody(f: Frame, body: Bytes): (r: Scan)
    decreases |body|
  {
    if |body| < RECORD_HEADER then Scan(f, [], false)
    else
      var tot := LE32(body, 0);
      if tot < RECORD_HEADER || tot > MAX_RECORD then Scan(f, [], false)
      else if tot > |body| then Scan(f.(cont := body, contNeed := tot), [], false)
      else if IsSwitch(body[..tot]) then Scan(f, [body[..tot]], true)
      else if MaxAlign(tot) > |body| then
        Scan(f.(padSkip := MaxAlign(tot) - |body|), [body[..tot]], false)
      else
        ScanBody(f, body[MaxAlign(tot)..]).Before(body[..tot])
  }

  /** Takes the bytes that finish a record begun on an earlier page. */
  function Continue(f: Frame, body: Bytes, rem: nat): (r: Scan)
  {
    var take := if rem > |body| then |body| else rem;
    if f.contNeed == 0 || take == 0 then Scan(f, [], false)
    else
      var got := f.cont + body[..take];
      if |got| < f.contNeed then Scan(f.(cont := got), [], false)
      else Scan(f.(cont := [], contNeed := 0), [got[..f.contNeed]], IsSwitch(got[..f.contNeed]))
  }

  /** A page whose header says it starts inside a record with `rem` bytes to go. */
  function ScanContinued(f: Frame, body: Bytes, rem: nat): (r: Scan)
  {
    var c := Continue(f, body, rem);
    if c.switched || rem > |body| then c
    else if MaxAlign(rem) > |body| then
      c.(frame := c.frame.(padSkip := MaxAlign(rem) - |body|))
    else
      var s := ScanBody(c.frame.(padSkip := 0), body[MaxAlign(rem)..]);
      s.(recs := c.recs + s.recs)
  }

  /** A page that starts with a record: an unfinished one is dropped. */
  function ScanPlain(f: Frame, body: Bytes): (r: Scan)
  {
    if f.padSkip > 0 && f.padSkip >= |body| then
      Scan(f.(padSkip := f.padSkip - |body|), [], false)
    else
      ScanBody(Frame(if f.contNeed > 0 then [] else f.cont, 0, 0), body[f.padSkip..])
  }

  function ScanPage(f: Frame, page: Bytes): (r: Scan)
    requires |page| == PAGE_SIZE
  {
    if !LooksLikeMagic(LE16(page, 0)) then Scan(f, [], false)
    else
      var body := page[HeaderLen(page)..];
      if HasFlag(LE16(page, 2), XLP_FIRST_CONT) then ScanContinued(f, body, LE32(page, 16))
      else ScanPlain(f, body)
  }

  predicate WholePages(pages: seq<Bytes>) {
    forall i :: 0 <= i < |pages| ==> |pages[i]| == PAGE_SIZE
  }

  /** Reading a run of pages until they end or a switch record ends the file. */
  function ScanPages(f: Frame, pages: seq<Bytes>): (r: Scan)
    requires WholePages(pages)
    decreases |pages|
  {
    if pages == [] then Scan(f, [], false)
    else
      var s := ScanPage(f, pages[0]);
      if s.switched then s
      else
        var t := ScanPages(s.frame, pages[1..]);
        t.(recs := s.recs + t.recs)
  }

  /** For arbitrary bytes the unread part of a page is always a multiple of 8 long, so no padding is
      ever carried to the next page. */
  lemma {:induction false} BodyLeavesNoPadding(f: Frame, body: Bytes)
    requires f.padSkip == 0 && |body| % 8 == 0
    ensures ScanBody(f, body).frame.padSkip == 0
    decreases |body|
  {
    if |body| >= RECORD_HEADER {
      var tot := LE32(body, 0);
      if RECORD_HEADER <= tot <= MAX_RECORD && tot <= |body| && !IsSwitch(body[..tot]) {
        assert MaxAlign(tot) <= |body|;
        BodyLeavesNoPadding(f, body[MaxAlign(tot)..]);
      }
    }
  }

  lemma PageLeavesNoPadding(f: Frame, page: Bytes)
    requires f.padSkip == 0 && |page| == PAGE_SIZE
    ensures ScanPage(f, page).frame.padSkip == 0
  {
    var body := page[HeaderLen(page)..];
    if HasFlag(LE16(page, 2), XLP_FIRST_CONT) {
      var rem := LE32(page, 16);
      var c := Continue(f, body, rem);
      if rem <= |body| {
        assert MaxAlign(rem) <= |body|;
        BodyLeavesNoPadding(c.frame.(padSkip := 0), body[MaxAlign(rem)..]);
      }
    } else {
      BodyLeavesNoPadding(Frame(if f.contNeed > 0 then [] else f.cont, 0, 0), body[0..]);
    }
  }

  lemma {:induction false} PagesLeaveNoPadding(f: Frame, pages: seq<Bytes>)
    requires f.padSkip == 0
    requires WholePages(pages)
    ensures ScanPages(f, pages).frame.padSkip == 0
    decreases |pages|
  {
    if pages != [] {
      PageLeavesNoPadding(f, pages[0]);
      PagesLeaveNoPadding(ScanPage(f, pages[0]).frame, pages[1..]);
    }
  }
}
