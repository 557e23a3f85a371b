/** What a column holds, how the decoders write it into a row image, and what the database makes of it
    when a statement brings it back (flashback_sql.go; decoders in flashback_datum.go and
    flashback_mysql_dump.go). */
module Values {
  import opened Texts
  import opened Changes
  import opened Sql

  /** Null, the text of a text column (JSON and XML are written as their text as well), or a value of
      any other type, told apart by a number. */
  datatype Value = Nil | Str(s: string) | Other(n: int)

  /** What lies outside: how a null and a value that is no text are written into an image, and what the
      database makes of a quoted string in a column that is no text and of a marked expression. */
  datatype System = System(nil: string, show: (string, int) -> string, parse: (string, string) -> Value,
                           compute: (string, string) -> Value)

  type SqlRow = map<string, Value>

  /** Column names, which of them are text, the primary key, and the system the table lives in. */
  datatype Schema = Schema(cols: set<string>, texts: set<string>, pk: seq<string>, sys: System) {
    ghost predicate Valid() {
      pk != [] && (forall c :: c in pk ==> c in cols) && (forall c :: c in cols ==> !DroppedCol(c)) && Sound()
    }

    /** Nulls and values that are no text come back from their images. */
    ghost predicate Sound() {
      Literal(sys.nil).Null?
      && forall c, n :: c in cols && c !in texts ==> Meaning(c, Literal(sys.show(c, n))) == Other(n)
    }

    /** What a literal is worth in a column. */
    function Meaning(c: string, l: Lit): Value {
      match l
      case Null => Nil
      case Text(t) => if c in texts then Str(t) else sys.parse(c, t)
      case Raw(e) => sys.compute(c, e)
    }

    /** What the decoders write for a value. */
    function Shown(c: string, v: Value): string {
      match v
      case Nil => sys.nil
      case Str(t) => t
      case Other(n) => sys.show(c, n)
    }

    /** What is in a column after its value went into an image and back through a statement. */
    function Back(c: string, v: Value): Value {
      Meaning(c, Literal(Shown(c, v)))
    }

    /** A value the column can hold. */
    predicate Typed(c: string, v: Value) {
      v.Nil? || if c in texts then v.Str? else v.Other?
    }

    /** A text that is written as itself, or as an expression that happens to compute it. */
    predicate Writable(c: string, v: Value) {
      v.Str? ==> !Reserved(v.s) || ("\\RAW:" <= v.s && sys.compute(c, v.s[5..]) == v)
    }

    function ImageOf(r: SqlRow): Row {
      map c | c in r :: Shown(c, r[c])
    }

    function BackRow(r: SqlRow): SqlRow {
      map c | c in r :: Back(c, r[c])
    }

    /** A row of the table: all columns with values they can hold, the key ones not null. */
    predicate RowOk(r: SqlRow) {
      r.Keys == cols && (forall c :: c in r ==> Typed(c, r[c])) && forall c :: c in pk && c in cols ==> r[c] != Nil
    }

    /** Every value of the row comes back. */
    predicate Survives(r: SqlRow) {
      forall c :: c in r ==> Back(c, r[c]) == r[c]
    }

    predicate KeySurvives(r: SqlRow) {
      forall c :: c in pk && c in r ==> Back(c, r[c]) == r[c]
    }
  }

  lemma NilOrRaw(v: string)
    ensures "\\RAW:" <= v ==> v != "\\N" && !FoldsToNull(v)
  {
  }

  /** A value comes back exactly when it is no reserved text, but for an expression that computes itself. */
  lemma ComesBackIff(s: Schema, c: string, v: Value)
    requires s.Sound() && c in s.cols && s.Typed(c, v)
    ensures s.Back(c, v) == v <==> s.Writable(c, v)
  {
    hide FoldsToNull;
    if v.Str? { NilOrRaw(v.s); }
  }

  lemma RowComesBackIff(s: Schema, r: SqlRow)
    requires s.Sound() && s.RowOk(r)
    ensures s.Survives(r) <==> forall c :: c in r ==> s.Writable(c, r[c])
  {
    hide Reserved, Literal;
    forall c | c in r ensures s.Back(c, r[c]) == r[c] <==> s.Writable(c, r[c]) { ComesBackIff(s, c, r[c]); }
  }

  lemma SurvivingRow(s: Schema, r: SqlRow)
    ensures s.Survives(r) <==> s.BackRow(r) == r
    ensures s.Survives(r) ==> s.KeySurvives(r)
  {
    hide Schema.Back;
  }
}
