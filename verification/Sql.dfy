/** The undo and redo statements made from a change (flashback_sql.go): which statement, and its text. */
module Sql {
  import opened Options
  import opened Texts
  import opened Changes

  // ---- Statements ----

  /** A value in a statement. */
  datatype Lit = Null | Text(s: string) | Raw(expr: string)

  /** How a decoded value is written: the null marker and the word NULL in any case are null, a
      marked expression is left as it is, anything else is a string. */
  function Literal(v: string): Lit {
    if v == "\\N" || FoldsToNull(v) then Null
    else if "\\RAW:" <= v then Raw(v[5..])
    else Text(v)
  }

  /** The values that `Literal` takes for something other than themselves. */
  predicate Reserved(v: string) {
    v == "\\N" || FoldsToNull(v) || "\\RAW:" <= v
  }

  datatype Cond = Equals(col: string, lit: Lit) | IsNull(col: string) | CtidIs(place: string)

  datatype Assign = Assign(col: string, lit: Lit)

  datatype Target = Target(schema: Option<string>, table: string)

  datatype Statement =
    | InsertInto(target: Target, vals: seq<Assign>)
    | DeleteFrom(target: Target, where: seq<Cond>)
    | UpdateSet(target: Target, assigns: seq<Assign>, where: seq<Cond>)
    | Verbatim(text: string)
    | NoStatement

  predicate DroppedCol(name: string) {
    Contains(name, "pg.dropped")
  }

  function Condition(col: string, vals: Row): Cond {
    if col !in vals || Literal(vals[col]) == Null then IsNull(col) else Equals(col, Literal(vals[col]))
  }

  function ConditionsOn(cols: seq<string>, vals: Row): seq<Cond> {
    if cols == [] then []
    else
      var front, col := ConditionsOn(cols[..|cols| - 1], vals), cols[|cols| - 1];
      if DroppedCol(col) then front else front + [Condition(col, vals)]
  }

  /** The WHERE parts: the given columns, or all of them when none are given. */
  function Conditions(cols: seq<string>, vals: Row): seq<Cond> {
    ConditionsOn(if cols == [] then Sorted(vals.Keys) else cols, vals)
  }

  function AssignmentsOn(cols: seq<string>, vals: Row): seq<Assign>
    requires forall c :: c in cols ==> c in vals
  {
    if cols == [] then []
    else
      var front, col := AssignmentsOn(cols[..|cols| - 1], vals), cols[|cols| - 1];
      if DroppedCol(col) then front else front + [Assign(col, Literal(vals[col]))]
  }

  function Assignments(vals: Row): seq<Assign> {
    SortedLists(vals.Keys);
    AssignmentsOn(Sorted(vals.Keys), vals)
  }

  function Place(block: nat, off: nat): string {
    if off == 0 then "" else "(" + Decimal(block) + "," + Decimal(off) + ")"
  }

  /** A change of a table without a primary key is also pinned to its row's place in the file. */
  function Pinned(where: seq<Cond>, ch: Change, newSide: bool): seq<Cond> {
    var here := Place(ch.block, ch.offnum);
    var place := if newSide && ch.newOff != 0 then Place(ch.newBlock, ch.newOff) else here;
    if ch.mysql || !ch.noPK || place == "" || where == [] then where else where + [CtidIs(place)]
  }

  function TargetOf(ch: Change): Target {
    if !Blank(ch.schema) then Target(Some(ch.schema), ch.table)
    else if ch.mysql then Target(None, ch.table)
    else Target(Some("public"), ch.table)
  }

  function Undo(ch: Change): Statement {
    match ch.op
    case Insert =>
      var where := Conditions(ch.pkCols, ch.after);
      if where == [] then NoStatement else DeleteFrom(TargetOf(ch), Pinned(where, ch, true))
    case Delete =>
      if ch.before == map[] then NoStatement else InsertInto(TargetOf(ch), Assignments(ch.before))
    case Update =>
      if ch.before == map[] then NoStatement
      else
        var src := if ch.after == map[] then ch.before else ch.after;
        var where, assigns := Conditions(ch.pkCols, src), Assignments(ch.before);
        if assigns == [] || where == [] then NoStatement else UpdateSet(TargetOf(ch), assigns, Pinned(where, ch, true))
    case Ddl(_) => Verbatim(ch.ddlUndo)
    case Unknown(_) => NoStatement
  }

  function Redo(ch: Change): Statement {
    match ch.op
    case Insert =>
      if ch.after == map[] then NoStatement else InsertInto(TargetOf(ch), Assignments(ch.after))
    case Delete =>
      var where := Conditions(ch.pkCols, ch.before);
      if where == [] then NoStatement else DeleteFrom(TargetOf(ch), Pinned(where, ch, false))
    case Update =>
      if ch.after == map[] then NoStatement
      else
        var src := if ch.before == map[] then ch.after else ch.before;
        UpdateSet(TargetOf(ch), Assignments(ch.after), Pinned(Conditions(ch.pkCols, src), ch, false))
    case Ddl(_) => Verbatim(ch.ddlRedo)
    case Unknown(_) => NoStatement
  }

  // ---- Text ----

  function Double(s: string, q: char): string {
    if s == [] then [] else (if s[0] == q then [q, q] else [s[0]]) + Double(s[1..], q)
  }

  function Quoted(s: string, q: char): string {
    [q] + Double(s, q) + [q]
  }

  /** The identifier quote of each system. */
  function IdentQuote(mysql: bool): char {
    if mysql then '`' else '"'
  }

  function LitText(l: Lit): string {
    match l
    case Null => "NULL"
    case Text(s) => Quoted(s, '\'')
    case Raw(e) => e
  }

  function CondText(c: Cond, q: char): string {
    match c
    case Equals(col, lit) => Quoted(col, q) + " = " + LitText(lit)
    case IsNull(col) => Quoted(col, q) + " IS NULL"
    case CtidIs(place) => "ctid = '" + place + "'"
  }

  function CondTexts(cs: seq<Cond>, q: char): (ts: seq<string>)
    ensures |ts| == |cs|
  {
    if cs == [] then [] else CondTexts(cs[..|cs| - 1], q) + [CondText(cs[|cs| - 1], q)]
  }

  function AssignText(a: Assign, q: char): string {
    Quoted(a.col, q) + " = " + LitText(a.lit)
  }

  function AssignTexts(xs: seq<Assign>, q: char): (ts: seq<string>)
    ensures |ts| == |xs|
  {
    if xs == [] then [] else AssignTexts(xs[..|xs| - 1], q) + [AssignText(xs[|xs| - 1], q)]
  }

  function ColTexts(xs: seq<Assign>, q: char): (ts: seq<string>)
    ensures |ts| == |xs|
  {
    if xs == [] then [] else ColTexts(xs[..|xs| - 1], q) + [Quoted(xs[|xs| - 1].col, q)]
  }

  function LitTexts(xs: seq<Assign>): (ts: seq<string>)
    ensures |ts| == |xs|
  {
    if xs == [] then [] else LitTexts(xs[..|xs| - 1]) + [LitText(xs[|xs| - 1].lit)]
  }

  function TargetText(t: Target, q: char): string {
    (if t.schema.Some? then Quoted(t.schema.value, q) + "." else "") + Quoted(t.table, q)
  }

  function Print(s: Statement, mysql: bool): string {
    var q := IdentQuote(mysql);
    match s
    case InsertInto(t, vals) =>
      "INSERT INTO " + TargetText(t, q) + " (" + Join(ColTexts(vals, q), ", ") + ") VALUES ("
      + Join(LitTexts(vals), ", ") + ");"
    case DeleteFrom(t, where) =>
      "DELETE FROM " + TargetText(t, q) + " WHERE " + Join(CondTexts(where, q), " AND ") + ";"
    case UpdateSet(t, assigns, where) =>
      "UPDATE " + TargetText(t, q) + " SET " + Join(AssignTexts(assigns, q), ", ")
      + " WHERE " + Join(CondTexts(where, q), " AND ") + ";"
    case Verbatim(text) => text
    case NoStatement => ""
  }

  // ---- The builders as they run ----

  lemma {:induction false} JoinMore(parts: seq<string>, last: string, sep: string)
    requires parts != []
    ensures Join(parts + [last], sep) == Join(parts, sep) + sep + last
    decreases |parts|
  {
    var all := parts + [last];
    if |parts| == 1 {
      assert all[1..] == [last];
    } else {
      assert all[1..] == parts[1..] + [last];
      JoinMore(parts[1..], last, sep);
      assert parts[0] + sep + (Join(parts[1..], sep) + sep + last)
        == (parts[0] + sep + Join(parts[1..], sep)) + sep + last;
    }
  }

  lemma WhereIsEmpty(conds: seq<Cond>, q: char)
    ensures Join(CondTexts(conds, q), " AND ") == "" <==> conds == []
  {
    if |conds| > 1 {
      JoinMore(CondTexts(conds[..|conds| - 1], q), CondText(conds[|conds| - 1], q), " AND ");
    }
  }

  method WhereText(given: seq<string>, vals: Row, q: char) returns (text: string)
    ensures text == Join(CondTexts(Conditions(given, vals), q), " AND ")
    ensures text == "" <==> Conditions(given, vals) == []
  {
    var parts := WhereParts(given, vals, q);
    WhereIsEmpty(Conditions(given, vals), q);
    text := Join(parts, " AND ");
  }

  method WhereParts(given: seq<string>, vals: Row, q: char) returns (parts: seq<string>)
    ensures parts == CondTexts(Conditions(given, vals), q)
  {
    hide CondText, Literal, DroppedCol;
    var cols := given;
    if |cols| == 0 { cols := Sorted(vals.Keys); }
    parts := [];
    for i := 0 to |cols|
      invariant parts == CondTexts(ConditionsOn(cols[..i], vals), q)
    {
      assert cols[..i + 1][..i] == cols[..i];
      var c := cols[i];
      if DroppedCol(c) { continue; }
      ghost var conds := ConditionsOn(cols[..i], vals) + [Condition(c, vals)];
      assert conds[..|conds| - 1] == ConditionsOn(cols[..i], vals);
      if c !in vals || Literal(vals[c]) == Null {
        parts := parts + [CondText(IsNull(c), q)];
      } else {
        parts := parts + [CondText(Equals(c, Literal(vals[c])), q)];
      }
    }
    assert cols[..|cols|] == cols;
  }

  method SetTexts(vals: Row, q: char) returns (parts: seq<string>)
    ensures parts == AssignTexts(Assignments(vals), q)
  {
    hide AssignText, Literal, DroppedCol;
    var cols := Sorted(vals.Keys);
    SortedLists(vals.Keys);
    parts := [];
    for i := 0 to |cols|
      invariant forall c :: c in cols[..i] ==> c in vals
      invariant parts == AssignTexts(AssignmentsOn(cols[..i], vals), q)
    {
      assert cols[..i + 1][..i] == cols[..i];
      var c := cols[i];
      if DroppedCol(c) { continue; }
      var a := Assign(c, Literal(vals[c]));
      ghost var xs := AssignmentsOn(cols[..i], vals) + [a];
      assert xs[..|xs| - 1] == AssignmentsOn(cols[..i], vals);
      parts := parts + [AssignText(a, q)];
    }
    assert cols[..|cols|] == cols;
  }

  method InsertTexts(vals: Row, q: char) returns (cols: seq<string>, lits: seq<string>)
    ensures cols == ColTexts(Assignments(vals), q) && lits == LitTexts(Assignments(vals))
  {
    hide LitText, Quoted, Literal, DroppedCol;
    var keys := Sorted(vals.Keys);
    SortedLists(vals.Keys);
    cols, lits := [], [];
    for i := 0 to |keys|
      invariant forall c :: c in keys[..i] ==> c in vals
      invariant cols == ColTexts(AssignmentsOn(keys[..i], vals), q)
      invariant lits == LitTexts(AssignmentsOn(keys[..i], vals))
    {
      assert keys[..i + 1][..i] == keys[..i];
      var k := keys[i];
      if DroppedCol(k) { continue; }
      var a := Assign(k, Literal(vals[k]));
      ghost var xs := AssignmentsOn(keys[..i], vals) + [a];
      assert xs[..|xs| - 1] == AssignmentsOn(keys[..i], vals);
      cols := cols + [Quoted(k, q)];
      lits := lits + [LitText(a.lit)];
    }
    assert keys[..|keys|] == keys;
  }

  lemma CtidAppended(conds: seq<Cond>, place: string, q: char)
    requires conds != []
    ensures
      Join(CondTexts(conds + [CtidIs(place)], q), " AND ")
        == Join(CondTexts(conds, q), " AND ") + " AND ctid = '" + place + "'"
  {
    var all, where := conds + [CtidIs(place)], Join(CondTexts(conds, q), " AND ");
    assert all[..|all| - 1] == conds;
    JoinMore(CondTexts(conds, q), CondText(CtidIs(place), q), " AND ");
    hide CondTexts, Join;
    assert " AND " + "ctid = '" == " AND ctid = '";
    assert where + " AND " + ("ctid = '" + place + "'") == where + (" AND " + "ctid = '") + place + "'";
  }

  lemma NoPlace(block: nat, off: nat)
    ensures Place(block, off) == "" <==> off == 0
  {
  }

  method AppendCtid(where: string, ch: Change, newSide: bool, ghost conds: seq<Cond>, q: char) returns (text: string)
    requires where == Join(CondTexts(conds, q), " AND ") && (where == "" <==> conds == [])
    ensures text == Join(CondTexts(Pinned(conds, ch, newSide), q), " AND ")
    ensures text == "" <==> conds == []
  {
    hide Place, Join, CondTexts;
    if ch.mysql || !ch.noPK { return where; }
    NoPlace(ch.block, ch.offnum);
    NoPlace(ch.newBlock, ch.newOff);
    var lit := Place(ch.block, ch.offnum);
    if newSide {
      lit := Place(ch.newBlock, ch.newOff);
      if lit == "" { lit := Place(ch.block, ch.offnum); }
    }
    if lit == "" || where == "" { return where; }
    CtidAppended(conds, lit, q);
    text := where + " AND ctid = '" + lit + "'";
  }

  method InsertSql(ch: Change, vals: Row) returns (text: string)
    ensures text == Print(InsertInto(TargetOf(ch), Assignments(vals)), ch.mysql)
  {
    var cols, lits := InsertTexts(vals, IdentQuote(ch.mysql));
    text := "INSERT INTO " + TargetText(TargetOf(ch), IdentQuote(ch.mysql)) + " (" + Join(cols, ", ") + ") VALUES ("
            + Join(lits, ", ") + ");";
  }

  /** The undo statement's text. */
  method UndoSql(ch: Change) returns (text: string)
    ensures text == Print(Undo(ch), ch.mysql)
  {
    hide Conditions, Assignments, Pinned, CondText, AssignText, TargetText, TargetOf;
    var q := IdentQuote(ch.mysql);
    match ch.op
    case Insert =>
      var where := WhereText(ch.pkCols, ch.after, q);
      if where == "" { return ""; }
      where := AppendCtid(where, ch, true, Conditions(ch.pkCols, ch.after), q);
      return "DELETE FROM " + TargetText(TargetOf(ch), q) + " WHERE " + where + ";";
    case Delete =>
      if |ch.before| == 0 { return ""; }
      text := InsertSql(ch, ch.before);
    case Update =>
      if |ch.before| == 0 { return ""; }
      var src := ch.after;
      if |src| == 0 { src := ch.before; }
      var where := WhereText(ch.pkCols, src, q);
      where := AppendCtid(where, ch, true, Conditions(ch.pkCols, src), q);
      var parts := SetTexts(ch.before, q);
      AssignsEmpty(Assignments(ch.before), q);
      if Join(parts, ", ") == "" || where == "" { return ""; }
      return "UPDATE " + TargetText(TargetOf(ch), q) + " SET " + Join(parts, ", ") + " WHERE " + where + ";";
    case Ddl(_) => return ch.ddlUndo;
    case Unknown(_) => return "";
  }

  /** The redo statement's text. */
  method RedoSql(ch: Change) returns (text: string)
    ensures text == Print(Redo(ch), ch.mysql)
  {
    hide Conditions, Assignments, Pinned, CondText, AssignText, TargetText, TargetOf;
    var q := IdentQuote(ch.mysql);
    match ch.op
    case Insert =>
      if |ch.after| == 0 { return ""; }
      text := InsertSql(ch, ch.after);
    case Delete =>
      var where := WhereText(ch.pkCols, ch.before, q);
      if where == "" { return ""; }
      where := AppendCtid(where, ch, false, Conditions(ch.pkCols, ch.before), q);
      return "DELETE FROM " + TargetText(TargetOf(ch), q) + " WHERE " + where + ";";
    case Update =>
      if |ch.after| == 0 { return ""; }
      var src := ch.before;
      if |src| == 0 { src := ch.after; }
      var where := WhereText(ch.pkCols, src, q);
      where := AppendCtid(where, ch, false, Conditions(ch.pkCols, src), q);
      var parts := SetTexts(ch.after, q);
      return "UPDATE " + TargetText(TargetOf(ch), q) + " SET " + Join(parts, ", ") + " WHERE " + where + ";";
    case Ddl(_) => return ch.ddlRedo;
    case Unknown(_) => return "";
  }

  lemma AssignsEmpty(xs: seq<Assign>, q: char)
    ensures Join(AssignTexts(xs, q), ", ") == "" <==> xs == []
  {
    if |xs| > 1 {
      JoinMore(AssignTexts(xs[..|xs| - 1], q), AssignText(xs[|xs| - 1], q), ", ");
    }
  }
}
