/** Reading the emitted SQL text back with the standard's doubled-quote rules (ISO/IEC 9075-2,
    sections 5.2 and 5.3): identifiers and strings come back whole, whatever characters they hold. Where
    backslashes escape, as they do in MySQL unless it is told otherwise, strings come back exactly when each
    of their backslashes stands before a wildcard. */
module SqlReader {
  import opened Options
  import opened Texts
  import opened Sql

  datatype Read<T> = Fail | Got(value: T, rest: string)

  /** A quoted token after its opening quote: a doubled quote stands for one, a single one ends it. */
  function Unquote(q: char, s: string): (r: Read<string>)
    ensures r.Got? ==> |r.rest| < |s|
  {
    if s == [] then Fail
    else if s[0] != q then
      match Unquote(q, s[1..])
      case Fail => Fail
      case Got(x, rest) => Got([s[0]] + x, rest)
    else if |s| > 1 && s[1] == q then
      match Unquote(q, s[2..])
      case Fail => Fail
      case Got(x, rest) => Got([q] + x, rest)
    else Got([], s[1..])
  }

  function ReadQuoted(q: char, s: string): Read<string> {
    if s == [] || s[0] != q then Fail else Unquote(q, s[1..])
  }

  /** What MySQL takes an escaped character for. */
  function Escaped(c: char): string {
    if c == '0' then ['\0']
    else if c == 'b' then ['\U{0008}']
    else if c == 'n' then ['\n']
    else if c == 'r' then ['\r']
    else if c == 't' then ['\t']
    else if c == 'Z' then ['\U{001A}']
    else if c == '%' || c == '_' then ['\\', c]
    else [c]
  }

  /** A string after its opening quote, where backslashes may escape. */
  function UnquoteText(esc: bool, s: string): (r: Read<string>)
    ensures r.Got? ==> |r.rest| < |s|
  {
    if s == [] then Fail
    else if esc && s[0] == '\\' then
      if |s| < 2 then Fail else Prefixed(Escaped(s[1]), UnquoteText(esc, s[2..]))
    else if s[0] != '\'' then Prefixed([s[0]], UnquoteText(esc, s[1..]))
    else if |s| > 1 && s[1] == '\'' then Prefixed("'", UnquoteText(esc, s[2..]))
    else Got([], s[1..])
  }

  function Prefixed(x: string, r: Read<string>): Read<string> {
    match r
    case Fail => Fail
    case Got(y, rest) => Got(x + y, rest)
  }

  /** Characters of numbers and names. */
  predicate WordChar(c: char) {
    'a' <= c <= 'z' || 'A' <= c <= 'Z' || '0' <= c <= '9' || c in {'_', '.', '+', '-'}
  }

  function Word(s: string): (w: string)
    ensures w <= s
  {
    if s == [] || !WordChar(s[0]) then [] else [s[0]] + Word(s[1..])
  }

  const HEX_OPEN := "encode('"
  const HEX_CLOSE := "'::bytea, 'hex')"

  /** A null, a string, or an expression in one of the forms the decoders mark: a number, a binary
      string, or hexadecimal bytes to be encoded. */
  function ReadLit(esc: bool, s: string): Read<Lit> {
    if s != [] && s[0] == '\'' then
      match UnquoteText(esc, s[1..])
      case Fail => Fail
      case Got(x, rest) => Got(Text(x), rest)
    else if HEX_OPEN <= s then
      match Unquote('\'', s[8..])
      case Fail => Fail
      case Got(x, rest) =>
        if !(HEX_CLOSE[1..] <= rest) then Fail else Got(Raw(HEX_OPEN + x + HEX_CLOSE), rest[15..])
    else
      var w := Word(s);
      if w == "NULL" then Got(Null, s[4..])
      else if w == "_binary" && " " <= s[7..] then
        var bits := Word(s[8..]);
        Got(Raw("_binary " + bits), s[8 + |bits|..])
      else if w == "" then Fail
      else Got(Raw(w), s[|w|..])
  }

  function ReadAssign(q: char, esc: bool, s: string): Read<Assign> {
    match ReadQuoted(q, s)
    case Fail => Fail
    case Got(col, rest) =>
      if !(" = " <= rest) then Fail
      else
        match ReadLit(esc, rest[3..])
        case Fail => Fail
        case Got(lit, rest') => Got(Assign(col, lit), rest')
  }

  function ReadCond(q: char, esc: bool, s: string): Read<Cond> {
    if "ctid = " <= s then
      match ReadQuoted('\'', s[7..])
      case Fail => Fail
      case Got(place, rest) => Got(CtidIs(place), rest)
    else
      match ReadQuoted(q, s)
      case Fail => Fail
      case Got(col, rest) =>
        if " IS NULL" <= rest then Got(IsNull(col), rest[8..])
        else if !(" = " <= rest) then Fail
        else
          match ReadLit(esc, rest[3..])
          case Fail => Fail
          case Got(lit, rest') => Got(Equals(col, lit), rest')
  }

  function ReadList<T>(item: string -> Read<T>, sep: string, s: string): Read<seq<T>>
    decreases |s|
  {
    match item(s)
    case Fail => Fail
    case Got(x, rest) =>
      if sep == [] || |rest| > |s| || !(sep <= rest) then Got([x], rest)
      else
        match ReadList(item, sep, rest[|sep|..])
        case Fail => Fail
        case Got(xs, rest') => Got([x] + xs, rest')
  }

  function ReadTarget(q: char, s: string): Read<Target> {
    match ReadQuoted(q, s)
    case Fail => Fail
    case Got(x, rest) =>
      if !("." <= rest) then Got(Target(None, x), rest)
      else
        match ReadQuoted(q, rest[1..])
        case Fail => Fail
        case Got(y, rest') => Got(Target(Some(x), y), rest')
  }

  /** The text between `open` and what is read next. */
  function After(open: string, s: string): Option<string> {
    if open <= s then Some(s[|open|..]) else None
  }

  function Pairs(cols: seq<string>, lits: seq<Lit>): seq<Assign>
    requires |cols| == |lits|
  {
    if cols == [] then [] else [Assign(cols[0], lits[0])] + Pairs(cols[1..], lits[1..])
  }

  function ReadInsert(q: char, esc: bool, s: string): Option<Statement> {
    var t := ReadTarget(q, s);
    if t.Fail? || !(" (" <= t.rest) then None
    else
      var cols := ReadList(x => ReadQuoted(q, x), ", ", t.rest[2..]);
      if cols.Fail? || !(") VALUES (" <= cols.rest) then None
      else
        var lits := ReadList(x => ReadLit(esc, x), ", ", cols.rest[10..]);
        if lits.Fail? || lits.rest != ");" || |cols.value| != |lits.value| then None
        else Some(InsertInto(t.value, Pairs(cols.value, lits.value)))
  }

  function ReadDelete(q: char, esc: bool, s: string): Option<Statement> {
    var t := ReadTarget(q, s);
    if t.Fail? || !(" WHERE " <= t.rest) then None
    else
      var where := ReadList(x => ReadCond(q, esc, x), " AND ", t.rest[7..]);
      if where.Fail? || where.rest != ";" then None else Some(DeleteFrom(t.value, where.value))
  }

  function ReadUpdate(q: char, esc: bool, s: string): Option<Statement> {
    var t := ReadTarget(q, s);
    if t.Fail? || !(" SET " <= t.rest) then None
    else
      var xs := ReadList(x => ReadAssign(q, esc, x), ", ", t.rest[5..]);
      if xs.Fail? || !(" WHERE " <= xs.rest) then None
      else
        var where := ReadList(x => ReadCond(q, esc, x), " AND ", xs.rest[7..]);
        if where.Fail? || where.rest != ";" then None else Some(UpdateSet(t.value, xs.value, where.value))
  }

  function ReadStatement(s: string, mysql: bool, esc: bool): Option<Statement> {
    var q := if mysql then '`' else '"';
    if "INSERT INTO " <= s then ReadInsert(q, esc, s[12..])
    else if "DELETE FROM " <= s then ReadDelete(q, esc, s[12..])
    else if "UPDATE " <= s then ReadUpdate(q, esc, s[7..])
    else None
  }

  // ---- Tokens ----

  /** What may follow a token: anything that is not a quote. */
  predicate Ends(rest: string) {
    rest == [] || rest[0] !in {'"', '`', '\''}
  }

  /** What may follow a literal. */
  predicate Stops(rest: string) {
    Ends(rest) && (rest == [] || !WordChar(rest[0]))
  }

  predicate IsQuote(q: char) {
    q in {'"', '`', '\''}
  }

  lemma {:induction false} UnquoteDoubled(x: string, q: char, rest: string)
    requires rest == [] || rest[0] != q
    ensures Unquote(q, Double(x, q) + ([q] + rest)) == Got(x, rest)
    decreases |x|
  {
    var s := Double(x, q) + ([q] + rest);
    if x == [] {
      assert s == [q] + rest && s[1..] == rest;
    } else {
      var tail := Double(x[1..], q) + ([q] + rest);
      UnquoteDoubled(x[1..], q, rest);
      assert x == [x[0]] + x[1..];
      if x[0] == q {
        assert s == [q, q] + tail && s[2..] == tail;
      } else {
        assert s == [x[0]] + tail && s[1..] == tail;
      }
    }
  }

  lemma QuotedRead(x: string, q: char, rest: string)
    requires Ends(rest) && IsQuote(q)
    ensures ReadQuoted(q, Quoted(x, q) + rest) == Got(x, rest)
  {
    UnquoteDoubled(x, q, rest);
    var s := Quoted(x, q) + rest;
    assert s[1..] == Double(x, q) + ([q] + rest);
  }

  predicate Wildcard(c: char) {
    c == '%' || c == '_'
  }

  /** Each backslash stands directly before a wildcard, which it leaves as it is. */
  predicate BeforeWildcards(x: string) {
    forall i :: 0 <= i < |x| && x[i] == '\\' ==> i + 1 < |x| && Wildcard(x[i + 1])
  }

  /** A string that is read as it was printed. */
  predicate TextOk(x: string, esc: bool) {
    esc ==> BeforeWildcards(x)
  }

  predicate NoQuotes(s: string) {
    forall i :: 0 <= i < |s| ==> s[i] != '\''
  }

  lemma PlainStep(esc: bool, c: char, tail: string)
    requires c != '\'' && (esc ==> c != '\\')
    ensures UnquoteText(esc, [c] + tail) == Prefixed([c], UnquoteText(esc, tail))
  {
    hide Escaped;
    assert ([c] + tail)[1..] == tail;
  }

  lemma QuoteStep(esc: bool, tail: string)
    ensures UnquoteText(esc, ['\'', '\''] + tail) == Prefixed("'", UnquoteText(esc, tail))
  {
    hide Escaped;
    assert (['\'', '\''] + tail)[2..] == tail;
  }

  lemma QuoteEnds(esc: bool, rest: string)
    requires rest == [] || rest[0] != '\''
    ensures UnquoteText(esc, Double([], '\'') + (['\''] + rest)) == Got([], rest)
  {
    hide Escaped;
    var s := ['\''] + rest;
    assert Double([], '\'') + s == s && s[1..] == rest;
  }

  lemma DoubleFirst(x: string, end: string)
    requires x != []
    ensures Double(x, '\'') + end == (if x[0] == '\'' then ['\'', '\''] else [x[0]]) + (Double(x[1..], '\'') + end)
  {
  }

  lemma WildcardStep(c: char, tail: string)
    requires Wildcard(c)
    ensures UnquoteText(true, ['\\', c] + tail) == Prefixed(['\\', c], UnquoteText(true, tail))
  {
    assert (['\\', c] + tail)[2..] == tail;
  }

  lemma WildcardFirst(x: string, end: string)
    requires |x| >= 2 && x[0] == '\\' && x[1] != '\''
    ensures Double(x, '\'') + end == [x[0], x[1]] + (Double(x[2..], '\'') + end)
    ensures x == [x[0], x[1]] + x[2..]
  {
    hide Double;
    DoubleFirst(x, end);
    DoubleFirst(x[1..], end);
    assert x[1..][1..] == x[2..];
  }

  lemma {:induction false} TextRead(esc: bool, x: string, rest: string)
    requires TextOk(x, esc) && (rest == [] || rest[0] != '\'')
    ensures UnquoteText(esc, Double(x, '\'') + (['\''] + rest)) == Got(x, rest)
    decreases |x|
  {
    hide UnquoteText, Double;
    var end := ['\''] + rest;
    if x == [] {
      QuoteEnds(esc, rest);
    } else if esc && x[0] == '\\' {
      TextRead(esc, x[2..], rest);
      WildcardFirst(x, end);
      WildcardStep(x[1], Double(x[2..], '\'') + end);
    } else {
      var tail := Double(x[1..], '\'') + end;
      TextRead(esc, x[1..], rest);
      DoubleFirst(x, end);
      assert x == [x[0]] + x[1..];
      if x[0] == '\'' { QuoteStep(esc, tail); } else { PlainStep(esc, x[0], tail); }
    }
  }

  // ---- Which strings are lost where backslashes escape ----

  function Backslashes(x: string): nat {
    multiset(x)['\\']
  }

  lemma BackslashesAdd(a: string, b: string)
    ensures Backslashes(a + b) == Backslashes(a) + Backslashes(b)
  {
  }

  lemma {:induction false} DoublingAddsNone(x: string)
    ensures Backslashes(Double(x, '\'')) == Backslashes(x)
    decreases |x|
  {
    hide Backslashes;
    if x != [] {
      DoublingAddsNone(x[1..]);
      assert x == [x[0]] + x[1..];
      BackslashesAdd([x[0]], x[1..]);
      BackslashesAdd(if x[0] == '\'' then ['\'', '\''] else [x[0]], Double(x[1..], '\''));
      NoneInQuotes();
    }
  }

  lemma NoneInQuotes()
    ensures Backslashes("'") == 0 && Backslashes(['\'', '\'']) == 0 && Backslashes("") == 0
  {
  }

  /** An escape leaves a backslash less, but for a wildcard. */
  lemma EscapeTakesOne(c: char)
    ensures Backslashes(['\\', c]) == Backslashes(Escaped(c)) + if Wildcard(c) then 0 else 1
  {
  }

  /** Reading adds no backslash. */
  lemma {:induction false} ReadingAddsNone(s: string)
    ensures var r := UnquoteText(true, s); r.Got? ==> Backslashes(r.value) + Backslashes(r.rest) <= Backslashes(s)
    decreases |s|
  {
    hide Escaped, Backslashes;
    NoneInQuotes();
    if s != [] && s[0] == '\\' {
      if |s| >= 2 {
        ReadingAddsNone(s[2..]);
        assert s == [s[0], s[1]] + s[2..];
        BackslashesAdd([s[0], s[1]], s[2..]);
        EscapeTakesOne(s[1]);
        PrefixAdds(Escaped(s[1]), UnquoteText(true, s[2..]));
      }
    } else if s != [] {
      assert s == [s[0]] + s[1..];
      BackslashesAdd([s[0]], s[1..]);
      if s[0] != '\'' {
        ReadingAddsNone(s[1..]);
        PrefixAdds([s[0]], UnquoteText(true, s[1..]));
      } else if |s| > 1 && s[1] == '\'' {
        ReadingAddsNone(s[2..]);
        assert s[1..] == [s[1]] + s[2..];
        BackslashesAdd([s[1]], s[2..]);
        PrefixAdds("'", UnquoteText(true, s[2..]));
      }
    }
  }

  lemma PrefixAdds(x: string, r: Read<string>)
    ensures r.Got? ==> Backslashes(Prefixed(x, r).value) == Backslashes(x) + Backslashes(r.value)
  {
    hide Backslashes;
    if r.Got? { BackslashesAdd(x, r.value); }
  }

  /** A backslash that escapes anything but a wildcard is missed at the end. */
  lemma FirstIsLost(x: string, rest: string)
    requires x != [] && x[0] == '\\' && (|x| == 1 || !Wildcard(x[1]))
    ensures UnquoteText(true, Double(x, '\'') + (['\''] + rest)) != Got(x, rest)
  {
    hide Escaped, Backslashes, Double;
    var end := ['\''] + rest;
    var s := Double(x, '\'') + end;
    DoubleFirst(x, end);
    var tail := Double(x[1..], '\'') + end;
    assert s == ['\\'] + tail && tail != [];
    assert s[1] == tail[0] && s[2..] == tail[1..] && s == [s[0], s[1]] + s[2..];
    DoublingAddsNone(x);
    BackslashesAdd(Double(x, '\''), end);
    BackslashesAdd(['\''], rest);
    NoneInQuotes();
    BackslashesAdd([s[0], s[1]], s[2..]);
    EscapeTakesOne(s[1]);
    EscapedFirst(x, end);
    var r := UnquoteText(true, s[2..]);
    ReadingAddsNone(s[2..]);
    PrefixAdds(Escaped(s[1]), r);
  }

  /** What follows the first character is escaped; a quote, the closing one included, is no wildcard. */
  lemma EscapedFirst(x: string, end: string)
    requires x != [] && x[0] == '\\' && (|x| == 1 || !Wildcard(x[1])) && end != [] && end[0] == '\''
    ensures var tail := Double(x[1..], '\'') + end; !Wildcard(tail[0])
  {
  }

  lemma {:induction false} LostUnless(x: string, rest: string)
    requires UnquoteText(true, Double(x, '\'') + (['\''] + rest)) == Got(x, rest)
    ensures BeforeWildcards(x)
    decreases |x|
  {
    hide UnquoteText, Double, Wildcard;
    var end := ['\''] + rest;
    if x != [] && x[0] == '\\' {
      if |x| == 1 || !Wildcard(x[1]) {
        FirstIsLost(x, rest);
      } else {
        WildcardIsNoQuote(x[1]);
        WildcardFirst(x, end);
        WildcardStep(x[1], Double(x[2..], '\'') + end);
        PrefixedBy([x[0], x[1]], x[2..], UnquoteText(true, Double(x[2..], '\'') + end), rest);
        LostUnless(x[2..], rest);
        WildcardsBehind(x);
      }
    } else if x != [] {
      var tail := Double(x[1..], '\'') + end;
      DoubleFirst(x, end);
      assert x == [x[0]] + x[1..];
      if x[0] == '\'' { QuoteStep(true, tail); } else { PlainStep(true, x[0], tail); }
      PrefixedBy([x[0]], x[1..], UnquoteText(true, tail), rest);
      LostUnless(x[1..], rest);
      forall i | 0 <= i < |x| && x[i] == '\\' ensures i + 1 < |x| && Wildcard(x[i + 1]) {
        assert x[1..][i - 1] == x[i];
      }
    }
  }

  lemma WildcardIsNoQuote(c: char)
    requires Wildcard(c)
    ensures c != '\'' && c != '\\'
  {
  }

  lemma WildcardsBehind(x: string)
    requires |x| >= 2 && x[0] == '\\' && Wildcard(x[1]) && BeforeWildcards(x[2..])
    ensures BeforeWildcards(x)
  {
    forall i | 0 <= i < |x| && x[i] == '\\' ensures i + 1 < |x| && Wildcard(x[i + 1]) {
      if i >= 2 { assert x[2..][i - 2] == x[i]; }
    }
  }

  lemma PrefixedBy(a: string, b: string, r: Read<string>, rest: string)
    requires Prefixed(a, r) == Got(a + b, rest)
    ensures r == Got(b, rest)
  {
    assert (a + r.value)[|a|..] == r.value && (a + b)[|a|..] == b;
  }

  /** A printed string is read as it was if and only if, where backslashes escape, each of its backslashes
      stands before a wildcard. */
  lemma TextReadIff(esc: bool, x: string, rest: string)
    requires rest == [] || rest[0] != '\''
    ensures UnquoteText(esc, Double(x, '\'') + (['\''] + rest)) == Got(x, rest) <==> TextOk(x, esc)
  {
    hide UnquoteText, Double, BeforeWildcards;
    if TextOk(x, esc) {
      TextRead(esc, x, rest);
    } else if UnquoteText(esc, Double(x, '\'') + (['\''] + rest)) == Got(x, rest) {
      LostUnless(x, rest);
    }
  }

  predicate IsWord(w: string) {
    forall i :: 0 <= i < |w| ==> WordChar(w[i])
  }

  lemma {:induction false} WordRead(w: string, rest: string)
    requires IsWord(w) && (rest == [] || !WordChar(rest[0]))
    ensures Word(w + rest) == w
    decreases |w|
  {
    hide WordChar;
    if w == [] {
      assert w + rest == rest;
    } else {
      WordRead(w[1..], rest);
      assert (w + rest)[0] == w[0] && (w + rest)[1..] == w[1..] + rest;
    }
  }

  /** The forms of marked expressions: numbers, binary strings, bytes to be encoded. */
  predicate PlainWord(e: string) {
    e != "" && IsWord(e) && e !in {"NULL", "_binary", "encode"}
  }

  predicate BinaryForm(e: string) {
    "_binary " <= e && IsWord(e[8..])
  }

  predicate HexForm(e: string) {
    HEX_OPEN <= e && |e| >= 24 && e[|e| - 16..] == HEX_CLOSE && NoQuotes(e[8..|e| - 16])
  }

  predicate Marked(e: string) {
    PlainWord(e) || BinaryForm(e) || HexForm(e)
  }

  predicate LitOk(l: Lit, esc: bool) {
    match l
    case Null => true
    case Text(x) => TextOk(x, esc)
    case Raw(e) => Marked(e)
  }

  lemma PlainWordRead(e: string, esc: bool, rest: string)
    requires PlainWord(e) && Stops(rest)
    ensures ReadLit(esc, e + rest) == Got(Raw(e), rest)
  {
    hide UnquoteText, Unquote;
    var s := e + rest;
    WordRead(e, rest);
    assert WordChar(e[0]) && s[0] == e[0];
    if HEX_OPEN <= s { NotAWord(e, rest); }
    assert s[|e|..] == rest;
  }

  lemma NotAWord(e: string, rest: string)
    requires IsWord(e) && Stops(rest) && Word(e + rest) == e && HEX_OPEN <= e + rest
    ensures e == "encode"
  {
    var s := e + rest;
    assert s[..6] == "encode" && s[6] == '(';
    assert s == "encode" + s[6..];
    assert IsWord("encode");
    WordRead("encode", s[6..]);
  }

  lemma BinaryRead(e: string, esc: bool, rest: string)
    requires BinaryForm(e) && Stops(rest)
    ensures ReadLit(esc, e + rest) == Got(Raw(e), rest)
  {
    hide UnquoteText, Unquote;
    var s, bits := e + rest, e[8..];
    assert e == "_binary " + bits;
    assert s == "_binary" + (" " + (bits + rest)) && s[8..] == bits + rest && s[7..] == " " + (bits + rest);
    assert IsWord("_binary");
    WordRead("_binary", " " + (bits + rest));
    WordRead(bits, rest);
    assert s[8 + |bits|..] == rest;
  }

  lemma {:induction false} UnquotePlain(x: string, rest: string)
    requires NoQuotes(x) && (rest == [] || rest[0] != '\'')
    ensures Unquote('\'', x + (['\''] + rest)) == Got(x, rest)
    decreases |x|
  {
    var s := x + (['\''] + rest);
    if x == [] {
      assert s == ['\''] + rest && s[1..] == rest;
    } else {
      UnquotePlain(x[1..], rest);
      assert x == [x[0]] + x[1..] && s[1..] == x[1..] + (['\''] + rest);
    }
  }

  lemma HexParts(e: string)
    requires HexForm(e)
    ensures e == HEX_OPEN + e[8..|e| - 16] + HEX_CLOSE && HEX_CLOSE == ['\''] + HEX_CLOSE[1..]
  {
    var x := e[8..|e| - 16];
    assert e == e[..8] + x + e[|e| - 16..];
  }

  lemma HexBody(x: string, esc: bool, rest: string)
    requires NoQuotes(x) && Stops(rest)
    ensures ReadLit(esc, HEX_OPEN + (x + (['\''] + (HEX_CLOSE[1..] + rest))))
            == Got(Raw(HEX_OPEN + x + HEX_CLOSE), rest)
  {
    hide UnquoteText, Unquote, Word;
    var tail := HEX_CLOSE[1..] + rest;
    var body := x + (['\''] + tail);
    UnquotePlain(x, tail);
    assert tail[15..] == rest;
    assert (HEX_OPEN + body)[8..] == body && (HEX_OPEN + body)[0] == 'e';
  }

  lemma Chain(a: string, b: string, c: string, d: string, e: string)
    ensures a + b + (c + d) + e == a + (b + (c + (d + e)))
  {
  }

  lemma HexRead(e: string, esc: bool, rest: string)
    requires HexForm(e) && Stops(rest)
    ensures ReadLit(esc, e + rest) == Got(Raw(e), rest)
  {
    hide ReadLit, Stops, NoQuotes;
    var x := e[8..|e| - 16];
    HexParts(e);
    HexBody(x, esc, rest);
    Chain(HEX_OPEN, x, ['\''], HEX_CLOSE[1..], rest);
  }

  lemma NullRead(esc: bool, rest: string)
    requires Stops(rest)
    ensures ReadLit(esc, "NULL" + rest) == Got(Null, rest)
  {
    hide UnquoteText, Unquote;
    var s := "NULL" + rest;
    assert IsWord("NULL");
    WordRead("NULL", rest);
    assert s[0] == 'N' && s[4..] == rest;
  }

  lemma LitRead(l: Lit, esc: bool, rest: string)
    requires LitOk(l, esc) && Stops(rest)
    ensures ReadLit(esc, LitText(l) + rest) == Got(l, rest)
  {
    hide Word, Unquote, HexForm, BinaryForm, PlainWord, Double;
    match l {
      case Null => NullRead(esc, rest);
      case Text(x) =>
        var s := Quoted(x, '\'') + rest;
        TextRead(esc, x, rest);
        assert s[1..] == Double(x, '\'') + (['\''] + rest);
      case Raw(e) =>
        if PlainWord(e) { PlainWordRead(e, esc, rest); }
        else if BinaryForm(e) { BinaryRead(e, esc, rest); }
        else { HexRead(e, esc, rest); }
    }
  }

  /** A string literal comes back under just that condition. */
  lemma TextLitIff(x: string, esc: bool, rest: string)
    requires Stops(rest)
    ensures ReadLit(esc, LitText(Text(x)) + rest) == Got(Text(x), rest) <==> LitOk(Text(x), esc)
  {
    hide UnquoteText, Double, Unquote, Word, TextOk;
    var s := Quoted(x, '\'') + rest;
    TextReadIff(esc, x, rest);
    assert s[1..] == Double(x, '\'') + (['\''] + rest) && s[0] == '\'';
  }

  /** As when the string is a backslash and a letter that it escapes. */
  lemma BackslashIsLost()
    ensures ReadLit(true, LitText(Text("\\n")) + ")") == Got(Text("\n"), ")")
  {
    var x := "\\n";
    assert x[1..] == "n" && "n"[1..] == "";
    assert Double("n", '\'') == "n" && Double(x, '\'') == x;
    var s := x + "')";
    assert LitText(Text(x)) + ")" == "'" + s && ("'" + s)[1..] == s;
    var end := "')";
    assert s[2..] == end && end[1..] == ")";
    assert UnquoteText(true, end) == Got("", ")");
    assert s[0] == '\\' && s[1] == 'n';
    assert UnquoteText(true, s) == Prefixed(['\n'], Got("", ")"));
    assert ['\n'] + "" == "\n";
  }

  lemma AssignRead(a: Assign, q: char, esc: bool, rest: string)
    requires LitOk(a.lit, esc) && Stops(rest) && IsQuote(q)
    ensures ReadAssign(q, esc, AssignText(a, q) + rest) == Got(a, rest)
  {
    hide LitText, Quoted, ReadQuoted, ReadLit;
    var tail := " = " + (LitText(a.lit) + rest);
    assert AssignText(a, q) + rest == Quoted(a.col, q) + tail;
    QuotedRead(a.col, q, tail);
    assert tail[3..] == LitText(a.lit) + rest;
    LitRead(a.lit, esc, rest);
  }

  predicate Plain(place: string) {
    Double(place, '\'') == place
  }

  predicate CondOk(c: Cond, esc: bool) {
    (c.Equals? ==> LitOk(c.lit, esc)) && (c.CtidIs? ==> Plain(c.place))
  }

  lemma QuotedStarts(x: string, q: char, tail: string)
    ensures Quoted(x, q) != [] && (Quoted(x, q) + tail)[0] == q
  {
  }

  lemma EqualsRead(col: string, lit: Lit, q: char, esc: bool, rest: string)
    requires LitOk(lit, esc) && Stops(rest) && IsQuote(q)
    ensures ReadCond(q, esc, CondText(Equals(col, lit), q) + rest) == Got(Equals(col, lit), rest)
  {
    hide LitText, ReadQuoted, ReadLit, Quoted;
    var s, tail := CondText(Equals(col, lit), q) + rest, " = " + (LitText(lit) + rest);
    assert s == Quoted(col, q) + tail;
    QuotedStarts(col, q, tail);
    QuotedRead(col, q, tail);
    assert tail[3..] == LitText(lit) + rest && tail[1] == '=';
    LitRead(lit, esc, rest);
  }

  lemma IsNullRead(col: string, q: char, esc: bool, rest: string)
    requires Ends(rest) && IsQuote(q)
    ensures ReadCond(q, esc, CondText(IsNull(col), q) + rest) == Got(IsNull(col), rest)
  {
    hide ReadQuoted, Quoted;
    var s, tail := CondText(IsNull(col), q) + rest, " IS NULL" + rest;
    assert s == Quoted(col, q) + tail;
    QuotedStarts(col, q, tail);
    QuotedRead(col, q, tail);
    assert tail[8..] == rest;
  }

  lemma CtidRead(place: string, q: char, esc: bool, rest: string)
    requires Plain(place) && Ends(rest)
    ensures ReadCond(q, esc, CondText(CtidIs(place), q) + rest) == Got(CtidIs(place), rest)
  {
    hide ReadQuoted, Double;
    var s := CondText(CtidIs(place), q) + rest;
    assert Quoted(place, '\'') == ['\''] + place + ['\''];
    assert s[7..] == Quoted(place, '\'') + rest;
    QuotedRead(place, '\'', rest);
  }

  lemma CondRead(c: Cond, q: char, esc: bool, rest: string)
    requires CondOk(c, esc) && Stops(rest) && IsQuote(q)
    ensures ReadCond(q, esc, CondText(c, q) + rest) == Got(c, rest)
  {
    hide CondText, ReadCond, Plain;
    match c
    case Equals(col, lit) => EqualsRead(col, lit, q, esc, rest);
    case IsNull(col) => IsNullRead(col, q, esc, rest);
    case CtidIs(place) => CtidRead(place, q, esc, rest);
  }

  lemma TargetRead(t: Target, q: char, rest: string)
    requires Ends(rest) && IsQuote(q) && !("." <= rest)
    ensures ReadTarget(q, TargetText(t, q) + rest) == Got(t, rest)
  {
    hide Quoted, ReadQuoted;
    if t.schema.None? {
      assert TargetText(t, q) + rest == Quoted(t.table, q) + rest by {
        assert "" + Quoted(t.table, q) == Quoted(t.table, q);
      }
      QuotedRead(t.table, q, rest);
    } else {
      var tail := "." + (Quoted(t.table, q) + rest);
      assert TargetText(t, q) + rest == Quoted(t.schema.value, q) + tail;
      QuotedRead(t.schema.value, q, tail);
      assert tail[1..] == Quoted(t.table, q) + rest;
      QuotedRead(t.table, q, rest);
    }
  }

  // ---- Lists ----

  ghost predicate Reads<T>(item: string -> Read<T>, text: string, x: T) {
    text != [] && forall rest: string :: Stops(rest) ==> item(text + rest) == Got(x, rest)
  }

  ghost predicate ReadsAll<T>(item: string -> Read<T>, texts: seq<string>, xs: seq<T>) {
    |texts| == |xs| && forall i :: 0 <= i < |xs| ==> Reads(item, texts[i], xs[i])
  }

  lemma {:induction false} ListRead<T>(item: string -> Read<T>, sep: string, texts: seq<string>, xs: seq<T>,
        rest: string)
    requires ReadsAll(item, texts, xs) && xs != [] && sep != [] && Stops(sep) && Stops(rest) && !(sep <= rest)
    ensures ReadList(item, sep, Join(texts, sep) + rest) == Got(xs, rest)
    decreases |xs|
  {
    assert Reads(item, texts[0], xs[0]);
    if |xs| == 1 {
      assert xs == [xs[0]];
    } else {
      var tail := Join(texts[1..], sep) + rest;
      var s := Join(texts, sep) + rest;
      assert s == texts[0] + (sep + tail);
      assert Stops(sep + tail);
      assert (sep + tail)[|sep|..] == tail;
      assert ReadsAll(item, texts[1..], xs[1..]);
      hide Reads, Join;
      ListRead(item, sep, texts[1..], xs[1..], rest);
      assert xs == [xs[0]] + xs[1..];
    }
  }

  // ---- Statements ----

  lemma {:induction false} CondTextAt(cs: seq<Cond>, q: char, i: nat)
    requires i < |cs|
    ensures CondTexts(cs, q)[i] == CondText(cs[i], q)
    decreases |cs|
  {
    if i < |cs| - 1 {
      CondTextAt(cs[..|cs| - 1], q, i);
    }
  }

  lemma {:induction false} AssignTextAt(xs: seq<Assign>, q: char, i: nat)
    requires i < |xs|
    ensures AssignTexts(xs, q)[i] == AssignText(xs[i], q)
    ensures ColTexts(xs, q)[i] == Quoted(xs[i].col, q) && LitTexts(xs)[i] == LitText(xs[i].lit)
    decreases |xs|
  {
    if i < |xs| - 1 {
      AssignTextAt(xs[..|xs| - 1], q, i);
    }
  }

  predicate CondsOk(where: seq<Cond>, esc: bool) {
    where != [] && forall i :: 0 <= i < |where| ==> CondOk(where[i], esc)
  }

  predicate AssignsOk(xs: seq<Assign>, esc: bool) {
    xs != [] && forall i :: 0 <= i < |xs| ==> LitOk(xs[i].lit, esc)
  }

  lemma CondsRead(where: seq<Cond>, q: char, esc: bool, rest: string)
    requires CondsOk(where, esc) && IsQuote(q) && Stops(rest) && !(" AND " <= rest)
    ensures ReadList(x => ReadCond(q, esc, x), " AND ", Join(CondTexts(where, q), " AND ") + rest) == Got(where, rest)
  {
    hide CondText, ReadCond, CondTexts, Join, CondOk;
    var item := x => ReadCond(q, esc, x);
    forall i | 0 <= i < |where|
      ensures Reads(item, CondTexts(where, q)[i], where[i])
    {
      CondTextAt(where, q, i);
      CondNotEmpty(where[i], q);
      forall r: string | Stops(r)
        ensures item(CondText(where[i], q) + r) == Got(where[i], r)
      {
        CondRead(where[i], q, esc, r);
      }
    }
    ListRead(item, " AND ", CondTexts(where, q), where, rest);
  }

  lemma CondNotEmpty(c: Cond, q: char)
    ensures CondText(c, q) != []
  {
  }

  lemma AssignsRead(xs: seq<Assign>, q: char, esc: bool, rest: string)
    requires AssignsOk(xs, esc) && IsQuote(q) && Stops(rest) && !(", " <= rest)
    ensures ReadList(x => ReadAssign(q, esc, x), ", ", Join(AssignTexts(xs, q), ", ") + rest) == Got(xs, rest)
  {
    hide ReadAssign, AssignTexts, Join, ColTexts, LitTexts;
    var item := x => ReadAssign(q, esc, x);
    forall i | 0 <= i < |xs|
      ensures Reads(item, AssignTexts(xs, q)[i], xs[i])
    {
      AssignTextAt(xs, q, i);
      forall r: string | Stops(r)
        ensures item(AssignText(xs[i], q) + r) == Got(xs[i], r)
      {
        AssignRead(xs[i], q, esc, r);
      }
    }
    ListRead(item, ", ", AssignTexts(xs, q), xs, rest);
  }

  function Cols(xs: seq<Assign>): (cs: seq<string>)
    ensures |cs| == |xs| && forall i :: 0 <= i < |xs| ==> cs[i] == xs[i].col
  {
    if xs == [] then [] else [xs[0].col] + Cols(xs[1..])
  }

  function Lits(xs: seq<Assign>): (ls: seq<Lit>)
    ensures |ls| == |xs| && forall i :: 0 <= i < |xs| ==> ls[i] == xs[i].lit
  {
    if xs == [] then [] else [xs[0].lit] + Lits(xs[1..])
  }

  lemma {:induction false} PairsOf(xs: seq<Assign>)
    ensures Pairs(Cols(xs), Lits(xs)) == xs
    decreases |xs|
  {
    if xs != [] {
      PairsOf(xs[1..]);
    }
  }

  lemma ColsRead(xs: seq<Assign>, q: char, rest: string)
    requires xs != [] && IsQuote(q) && Stops(rest) && !(", " <= rest)
    ensures ReadList(x => ReadQuoted(q, x), ", ", Join(ColTexts(xs, q), ", ") + rest) == Got(Cols(xs), rest)
  {
    hide ReadQuoted, AssignTexts, Join, ColTexts, LitTexts, Cols, Quoted;
    var item := x => ReadQuoted(q, x);
    forall i | 0 <= i < |xs|
      ensures Reads(item, ColTexts(xs, q)[i], Cols(xs)[i])
    {
      AssignTextAt(xs, q, i);
      QuotedStarts(xs[i].col, q, []);
      forall r: string | Stops(r)
        ensures item(Quoted(xs[i].col, q) + r) == Got(xs[i].col, r)
      {
        QuotedRead(xs[i].col, q, r);
      }
    }
    ListRead(item, ", ", ColTexts(xs, q), Cols(xs), rest);
  }

  lemma LitsRead(xs: seq<Assign>, esc: bool, rest: string)
    requires AssignsOk(xs, esc) && Stops(rest) && !(", " <= rest)
    ensures ReadList(x => ReadLit(esc, x), ", ", Join(LitTexts(xs), ", ") + rest) == Got(Lits(xs), rest)
  {
    hide ReadLit, AssignTexts, Join, ColTexts, LitTexts, Lits, LitText, LitOk;
    var item := x => ReadLit(esc, x);
    forall i | 0 <= i < |xs|
      ensures Reads(item, LitTexts(xs)[i], Lits(xs)[i])
    {
      AssignTextAt(xs, '"', i);
      LitNotEmpty(xs[i].lit, esc);
      forall r: string | Stops(r)
        ensures item(LitText(xs[i].lit) + r) == Got(xs[i].lit, r)
      {
        LitRead(xs[i].lit, esc, r);
      }
    }
    ListRead(item, ", ", LitTexts(xs), Lits(xs), rest);
  }

  lemma LitNotEmpty(l: Lit, esc: bool)
    requires LitOk(l, esc)
    ensures LitText(l) != []
  {
  }

  lemma InsertRead(t: Target, xs: seq<Assign>, q: char, esc: bool)
    requires AssignsOk(xs, esc) && IsQuote(q)
    ensures
      ReadInsert(q, esc, TargetText(t, q)
        + (" (" + (Join(ColTexts(xs, q), ", ") + (") VALUES (" + (Join(LitTexts(xs), ", ") + ");")))))
      == Some(InsertInto(t, xs))
  {
    hide ReadTarget, ReadList, TargetText, Join, ColTexts, LitTexts, ReadQuoted, ReadLit, Pairs, Cols, Lits;
    var lits := Join(LitTexts(xs), ", ") + ");";
    var values := ") VALUES (" + lits;
    var cols := Join(ColTexts(xs, q), ", ") + values;
    TargetRead(t, q, " (" + cols);
    assert (" (" + cols)[2..] == cols && values[10..] == lits;
    ColsRead(xs, q, values);
    LitsRead(xs, esc, ");");
    PairsOf(xs);
  }

  lemma DeleteRead(t: Target, where: seq<Cond>, q: char, esc: bool)
    requires CondsOk(where, esc) && IsQuote(q)
    ensures ReadDelete(q, esc, TargetText(t, q) + (" WHERE " + (Join(CondTexts(where, q), " AND ") + ";")))
            == Some(DeleteFrom(t, where))
  {
    hide ReadTarget, ReadList, TargetText, Join, CondTexts, ReadCond;
    var conds := Join(CondTexts(where, q), " AND ") + ";";
    TargetRead(t, q, " WHERE " + conds);
    assert (" WHERE " + conds)[7..] == conds;
    CondsRead(where, q, esc, ";");
  }

  lemma UpdateRead(t: Target, xs: seq<Assign>, where: seq<Cond>, q: char, esc: bool)
    requires AssignsOk(xs, esc) && CondsOk(where, esc) && IsQuote(q)
    ensures
      ReadUpdate(q, esc, TargetText(t, q)
        + (" SET " + (Join(AssignTexts(xs, q), ", ") + (" WHERE " + (Join(CondTexts(where, q), " AND ") + ";")))))
      == Some(UpdateSet(t, xs, where))
  {
    hide ReadTarget, ReadList, TargetText, Join, AssignTexts, CondTexts, ReadCond, ReadAssign;
    var conds := Join(CondTexts(where, q), " AND ") + ";";
    var tail := " WHERE " + conds;
    var assigns := Join(AssignTexts(xs, q), ", ") + tail;
    TargetRead(t, q, " SET " + assigns);
    assert (" SET " + assigns)[5..] == assigns && tail[7..] == conds;
    AssignsRead(xs, q, esc, tail);
    CondsRead(where, q, esc, ";");
  }

  /** A statement with something to say, whose marked expressions have the decoders' forms and whose strings
      come back. */
  predicate Readable(st: Statement, esc: bool) {
    match st
    case InsertInto(_, xs) => AssignsOk(xs, esc)
    case DeleteFrom(_, where) => CondsOk(where, esc)
    case UpdateSet(_, xs, where) => AssignsOk(xs, esc) && CondsOk(where, esc)
    case Verbatim(_) => false
    case NoStatement => false
  }

  lemma Assoc6(a: string, b: string, c: string, d: string, e: string, f: string, g: string)
    ensures a + b + c + d + e + f + g == a + (b + (c + (d + (e + (f + g)))))
  {
  }

  /** Printing and reading back gives the same table, columns and values. */
  lemma PrintedIsRead(st: Statement, mysql: bool, esc: bool)
    requires Readable(st, esc)
    ensures ReadStatement(Print(st, mysql), mysql, esc) == Some(st)
  {
    hide ReadInsert, ReadDelete, ReadUpdate, TargetText, Join, ColTexts, LitTexts, AssignTexts, CondTexts, AssignsOk,
         CondsOk;
    var q := IdentQuote(mysql);
    var s := Print(st, mysql);
    match st
    case InsertInto(t, xs) =>
      var tail := TargetText(t, q)
        + (" (" + (Join(ColTexts(xs, q), ", ") + (") VALUES (" + (Join(LitTexts(xs), ", ") + ");"))));
      Assoc6("INSERT INTO ", TargetText(t, q), " (", Join(ColTexts(xs, q), ", "), ") VALUES (",
        Join(LitTexts(xs), ", "), ");");
      assert s == "INSERT INTO " + tail && s[12..] == tail;
      InsertRead(t, xs, q, esc);
    case DeleteFrom(t, where) =>
      var tail := TargetText(t, q) + (" WHERE " + (Join(CondTexts(where, q), " AND ") + ";"));
      assert s == "DELETE FROM " + tail && s[12..] == tail && s[0] == 'D';
      DeleteRead(t, where, q, esc);
    case UpdateSet(t, xs, where) =>
      var tail := TargetText(t, q)
        + (" SET " + (Join(AssignTexts(xs, q), ", ") + (" WHERE " + (Join(CondTexts(where, q), " AND ") + ";"))));
      Assoc6("UPDATE ", TargetText(t, q), " SET ", Join(AssignTexts(xs, q), ", "), " WHERE ",
        Join(CondTexts(where, q), " AND "), ";");
      assert s == "UPDATE " + tail && s[7..] == tail && s[0] == 'U';
      UpdateRead(t, xs, where, q, esc);
  }
}
