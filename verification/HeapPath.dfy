/** The file and offset of a relation's page, as the server is asked for it (flashback_pdu_heap.go:243-254). */
module HeapPath {
  import opened Bytes
  import opened Lists
  import opened Numerals
  import opened Texts
  import HeapFile

  datatype Place = Place(path: string, off: nat)

  function Suffix(seg: nat): string {
    if seg > 0 then "." + Decimal(seg) else ""
  }

  function Dir(dboid: U32): string {
    if dboid == 0 then "global/" else "base/" + Decimal(dboid) + "/"
  }

  function HeapRelFile(dboid: U32, relNode: U32, block: U32): Place {
    Place(Dir(dboid) + Decimal(relNode) + Suffix(block / HeapFile.SEGMENT_PAGES),
          block % HeapFile.SEGMENT_PAGES * PAGE_SIZE)
  }

  predicate Numeral(s: string) {
    forall i :: 0 <= i < |s| ==> '0' <= s[i] <= '9'
  }

  predicate Ends(s: string) {
    s == "" || !('0' <= s[0] <= '9')
  }

  /** Digits followed by something else are told apart from it. */
  lemma {:induction false} NumeralEnds(a: string, r: string, a': string, r': string)
    requires Numeral(a) && Numeral(a') && Ends(r) && Ends(r') && a + r == a' + r'
    ensures a == a' && r == r'
    decreases |a|
  {
    var w := a + r;
    assert w == a' + r';
    assert (a == "" ==> w == r) && (a' == "" ==> w == r');
    assert (a != "" ==> w[0] == a[0]) && (a' != "" ==> w[0] == a'[0]);
    if a != "" && a' != "" {
      assert w[1..] == a[1..] + r && w[1..] == a'[1..] + r';
      NumeralEnds(a[1..], r, a'[1..], r');
      assert a == [a[0]] + a[1..] && a' == [a'[0]] + a'[1..];
    }
  }

  /** A number in decimal, and what follows it, are what the text says. */
  lemma NumberEnds(m: nat, r: string, n: nat, r': string)
    requires Ends(r) && Ends(r') && Decimal(m) + r == Decimal(n) + r'
    ensures m == n && r == r'
  {
    hide Decimal;
    DecimalDigits(m, m);
    DecimalDigits(n, n);
    NumeralEnds(Decimal(m), r, Decimal(n), r');
    DecimalInjective(m, n);
  }

  lemma SuffixInjective(seg: nat, seg': nat)
    requires Suffix(seg) == Suffix(seg')
    ensures seg == seg'
  {
    hide Decimal;
    if seg > 0 && seg' > 0 {
      assert ("." + Decimal(seg))[1..] == Decimal(seg) && ("." + Decimal(seg'))[1..] == Decimal(seg');
      DecimalInjective(seg, seg');
    }
  }

  /** Two names under one directory. */
  lemma SameName(node: nat, seg: nat, node': nat, seg': nat)
    requires Decimal(node) + Suffix(seg) == Decimal(node') + Suffix(seg')
    ensures node == node' && seg == seg'
  {
    hide Decimal;
    NumberEnds(node, Suffix(seg), node', Suffix(seg'));
    SuffixInjective(seg, seg');
  }

  lemma Dropped(a: string, b: string)
    ensures (a + b)[|a|..] == b
  {
  }

  lemma SameBase(m: nat, x: string, n: nat, x': string)
    requires "base/" + Decimal(m) + "/" + x == "base/" + Decimal(n) + "/" + x'
    ensures m == n && x == x'
  {
    hide Decimal;
    Regroup("base/" + Decimal(m), "/", x);
    Regroup("base/" + Decimal(n), "/", x');
    Regroup("base/", Decimal(m), "/" + x);
    Regroup("base/", Decimal(n), "/" + x');
    Dropped("base/", Decimal(m) + ("/" + x));
    Dropped("base/", Decimal(n) + ("/" + x'));
    NumberEnds(m, "/" + x, n, "/" + x');
    Dropped("/", x);
    Dropped("/", x');
  }

  /** A path says which directory it is in, and what comes after it. */
  lemma SameDir(dboid: U32, x: string, dboid': U32, x': string)
    requires Dir(dboid) + x == Dir(dboid') + x'
    ensures dboid == dboid' && x == x'
  {
    hide Decimal;
    assert (Dir(dboid) + x)[0] == Dir(dboid)[0] && (Dir(dboid') + x')[0] == Dir(dboid')[0];
    if dboid != 0 && dboid' != 0 {
      SameBase(dboid, x, dboid', x');
    } else {
      Dropped("global/", x);
      Dropped("global/", x');
    }
  }

  /** No two pages, of whatever relations and databases, are asked for at the same place. */
  lemma PlacesDiffer(dboid: U32, node: U32, block: U32, dboid': U32, node': U32, block': U32)
    requires HeapRelFile(dboid, node, block) == HeapRelFile(dboid', node', block')
    ensures dboid == dboid' && node == node' && block == block'
  {
    hide Decimal, Suffix, Dir;
    var seg, seg' := block / HeapFile.SEGMENT_PAGES, block' / HeapFile.SEGMENT_PAGES;
    var off, off' := block % HeapFile.SEGMENT_PAGES, block' % HeapFile.SEGMENT_PAGES;
    Regroup(Dir(dboid), Decimal(node), Suffix(seg));
    Regroup(Dir(dboid'), Decimal(node'), Suffix(seg'));
    SameDir(dboid, Decimal(node) + Suffix(seg), dboid', Decimal(node') + Suffix(seg'));
    SameName(node, seg, node', seg');
    assert off == off';
  }
}
