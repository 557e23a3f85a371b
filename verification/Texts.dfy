/** String order and the few string tests the SQL builders and file selections use. */
module Texts {

  /** Go's `<` on strings. */
  predicate Less(a: string, b: string)
    decreases |a|
  {
    b != [] && (a == [] || a[0] < b[0] || (a[0] == b[0] && Less(a[1..], b[1..])))
  }

  predicate AtMost(a: string, b: string) {
    a == b || Less(a, b)
  }

  lemma {:induction false} LessTotal(a: string, b: string)
    ensures Less(a, b) || a == b || Less(b, a)
    decreases |a|
  {
    if a != [] && b != [] && a[0] == b[0] {
      LessTotal(a[1..], b[1..]);
      assert a == [a[0]] + a[1..] && b == [b[0]] + b[1..];
    }
  }

  lemma {:induction false} LessTransitive(a: string, b: string, c: string)
    requires Less(a, b) && Less(b, c)
    ensures Less(a, c)
    decreases |a|
  {
    if a != [] && a[0] == b[0] == c[0] {
      LessTransitive(a[1..], b[1..], c[1..]);
    }
  }

  lemma {:induction false} LessIrreflexive(a: string)
    ensures !Less(a, a)
    decreases |a|
  {
    if a != [] {
      LessIrreflexive(a[1..]);
    }
  }

  predicate IsLeast(x: string, names: set<string>) {
    x in names && forall y :: y in names ==> AtMost(x, y)
  }

  lemma {:induction false} HasLeast(names: set<string>)
    requires names != {}
    ensures exists x :: IsLeast(x, names)
    decreases |names|
  {
    var x :| x in names;
    if names == {x} {
      assert IsLeast(x, names);
    } else {
      HasLeast(names - {x});
      var y :| IsLeast(y, names - {x});
      LessTotal(x, y);
      if Less(x, y) {
        forall z | z in names
          ensures AtMost(x, z)
        {
          if z != x && z != y {
            assert z in names - {x};
            LessTransitive(x, y, z);
          }
        }
        assert IsLeast(x, names);
      } else {
        forall z | z in names
          ensures AtMost(y, z)
        {
          assert z == x || z in names - {x};
        }
        assert IsLeast(y, names);
      }
    }
  }

  lemma LeastUnique(x: string, y: string, names: set<string>)
    requires IsLeast(x, names) && IsLeast(y, names)
    ensures x == y
  {
    if x != y {
      LessTransitive(x, y, x);
      LessIrreflexive(x);
    }
  }

  function Least(names: set<string>): (x: string)
    requires names != {}
    ensures IsLeast(x, names)
  {
    HasLeast(names);
    assert forall x, y | IsLeast(x, names) && IsLeast(y, names) :: x == y by {
      forall x, y | IsLeast(x, names) && IsLeast(y, names)
        ensures x == y
      {
        LeastUnique(x, y, names);
      }
    }
    var x :| IsLeast(x, names);
    x
  }

  /** The names of a set in ascending order. */
  function Sorted(names: set<string>): (s: seq<string>)
    decreases |names|
  {
    if names == {} then [] else var x := Least(names); [x] + Sorted(names - {x})
  }

  predicate Distinct(s: seq<string>) {
    forall i, j :: 0 <= i < j < |s| ==> s[i] != s[j]
  }

  /** Sorting lists every name once. */
  lemma {:induction false} SortedLists(names: set<string>)
    ensures forall x :: x in Sorted(names) <==> x in names
    ensures Distinct(Sorted(names))
    decreases |names|
  {
    if names != {} {
      var x := Least(names);
      SortedLists(names - {x});
      assert Sorted(names) == [x] + Sorted(names - {x});
    }
  }

  /** Sorting puts names in strictly ascending order. */
  lemma {:induction false} SortedAscends(names: set<string>)
    ensures forall i, j :: 0 <= i < j < |Sorted(names)| ==> Less(Sorted(names)[i], Sorted(names)[j])
    decreases |names|
  {
    if names != {} {
      var x := Least(names);
      var rest := Sorted(names - {x});
      SortedAscends(names - {x});
      SortedLists(names - {x});
      forall k | 0 <= k < |rest| ensures Less(x, rest[k]) { assert rest[k] in names - {x}; }
      assert Sorted(names) == [x] + rest;
    }
  }

  predicate Contains(s: string, part: string) {
    part <= s || (s != [] && Contains(s[1..], part))
  }

  /** `strings.EqualFold(s, "NULL")`: no letter of the word folds to anything outside ASCII. */
  predicate FoldsToNull(s: string) {
    && |s| == 4 && s[0] in {'N', 'n'} && s[1] in {'U', 'u'} && s[2] in {'L', 'l'} && s[3] in {'L', 'l'}
  }

  /** Unicode white space. */
  predicate IsSpace(c: char) {
    || c in {' ', '\t', '\n', '\r', '\U{000B}', '\U{000C}', '\U{0085}', '\U{00A0}', '\U{1680}'}
    || '\U{2000}' <= c <= '\U{200A}'
    || c in {'\U{2028}', '\U{2029}', '\U{202F}', '\U{205F}', '\U{3000}'}
  }

  /** `strings.TrimSpace(s) == ""`. */
  predicate Blank(s: string) {
    forall i :: 0 <= i < |s| ==> IsSpace(s[i])
  }

  function TrimLeft(s: string): string {
    if s != [] && IsSpace(s[0]) then TrimLeft(s[1..]) else s
  }

  function TrimRight(s: string): string {
    if s != [] && IsSpace(s[|s| - 1]) then TrimRight(s[..|s| - 1]) else s
  }

  /** `strings.TrimSpace`. */
  function Trim(s: string): string {
    TrimRight(TrimLeft(s))
  }

  /** `strings.ToUpper` on ASCII letters; other characters are kept. */
  function Upper(s: string): string {
    seq(|s|, i requires 0 <= i < |s| => if 'a' <= s[i] <= 'z' then (s[i] as int - 32) as char else s[i])
  }

  /** The characters before the first space. */
  function FirstWord(s: string): string {
    if s == [] || IsSpace(s[0]) then [] else [s[0]] + FirstWord(s[1..])
  }

  /** A natural number in decimal. */
  function Decimal(n: nat): string {
    (if n < 10 then [] else Decimal(n / 10)) + ["0123456789"[n % 10]]
  }

  /** `strings.Join`. */
  function Join(parts: seq<string>, sep: string): string {
    if parts == [] then []
    else if |parts| == 1 then parts[0]
    else parts[0] + sep + Join(parts[1..], sep)
  }

  predicate StandsAt(s: string, part: string, i: nat) {
    i + |part| <= |s| && s[i..i + |part|] == part
  }

  /** A text contains another exactly if that stands somewhere in it. */
  lemma {:induction false} ContainsIff(s: string, part: string)
    ensures Contains(s, part) <==> exists i: nat :: StandsAt(s, part, i)
    decreases |s|
  {
    hide StandsAt;
    StandsFirst(s, part);
    if s != "" {
      ContainsIff(s[1..], part);
      StandsLater(s, part);
      if i: nat :| StandsAt(s[1..], part, i) { assert StandsAt(s, part, i + 1); }
      if i: nat :| StandsAt(s, part, i) && i > 0 { assert StandsAt(s[1..], part, i - 1); }
    }
  }

  lemma StandsFirst(s: string, part: string)
    ensures StandsAt(s, part, 0) <==> part <= s
    ensures s == "" ==> forall i: nat :: StandsAt(s, part, i) && part != "" ==> false
  {
  }

  lemma StandsLater(s: string, part: string)
    requires s != ""
    ensures forall i: nat :: StandsAt(s, part, i + 1) <==> StandsAt(s[1..], part, i)
  {
    forall i: nat ensures StandsAt(s, part, i + 1) <==> StandsAt(s[1..], part, i) {
      var n := |part|;
      if i + 1 + n <= |s| {
        var a, b := s[i + 1..i + 1 + n], s[1..][i..i + n];
        assert |a| == |b| == n;
        forall k | 0 <= k < n ensures a[k] == b[k] { assert a[k] == s[i + 1 + k]; }
        assert a == b;
      }
    }
  }

  /** Capitals stand for the small letters, and everything else for itself. */
  lemma UpperLetters()
    ensures Upper("abcdefghijklmnopqrstuvwxyz") == "ABCDEFGHIJKLMNOPQRSTUVWXYZ"
    ensures forall s, i :: 0 <= i < |s| && !('a' <= s[i] <= 'z') ==> Upper(s)[i] == s[i]
  {
  }

  /** One text comes before another exactly if it is a shorter beginning of it, or has the smaller character where
      they first differ. */
  lemma {:induction false} LessIff(a: string, b: string)
    ensures Less(a, b) <==> (a <= b && |a| < |b|)
                            || exists i :: 0 <= i < |a| && i < |b| && a[..i] == b[..i] && a[i] < b[i]
    decreases |a|
  {
    if a != "" && b != "" && a[0] == b[0] {
      LessIff(a[1..], b[1..]);
      assert a == [a[0]] + a[1..] && b == [b[0]] + b[1..];
      if i :| 0 <= i < |a[1..]| && i < |b[1..]| && a[1..][..i] == b[1..][..i] && a[1..][i] < b[1..][i] {
        assert a[..i + 1] == [a[0]] + a[1..][..i] && b[..i + 1] == [b[0]] + b[1..][..i];
        assert a[i + 1] < b[i + 1];
      }
      if i :| 0 <= i < |a| && i < |b| && a[..i] == b[..i] && a[i] < b[i] {
        assert i > 0;
        assert a[1..][..i - 1] == a[..i][1..] && b[1..][..i - 1] == b[..i][1..];
        assert a[1..][i - 1] < b[1..][i - 1];
      }
    } else if a != "" && b != "" {
      assert a[..0] == b[..0];
      forall i | 0 < i <= |a| && i <= |b| ensures a[..i] != b[..i] { assert a[..i][0] != b[..i][0]; }
    }
  }

  /** The word null in any case is what the four capitals stand for. */
  lemma FoldsIff(s: string)
    ensures FoldsToNull(s) <==> Upper(s) == "NULL"
  {
    if |s| == 4 {
      var u := Upper(s);
      assert u == [u[0], u[1], u[2], u[3]];
      assert u == "NULL" <==> u[0] == 'N' && u[1] == 'U' && u[2] == 'L' && u[3] == 'L';
      UpperIs(s[0]);
      UpperIs(s[1]);
      UpperIs(s[2]);
      UpperIs(s[3]);
    }
  }

  lemma UpperIs(c: char)
    ensures Upper([c])[0] == 'N' <==> c in {'N', 'n'}
    ensures Upper([c])[0] == 'U' <==> c in {'U', 'u'}
    ensures Upper([c])[0] == 'L' <==> c in {'L', 'l'}
  {
  }

  /** White space by number. */
  lemma SpaceIff(c: char)
    ensures IsSpace(c) <==>
            var n := c as int;
            9 <= n <= 13 || n in {0x20, 0x85, 0xA0, 0x1680, 0x2028, 0x2029, 0x202F, 0x205F, 0x3000}
            || 0x2000 <= n <= 0x200A
  {
  }
}
