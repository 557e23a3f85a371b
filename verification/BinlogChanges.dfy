/** What single events become: the changes of a rows event and of a DDL statement field by field, and which
    statements end a transaction (flashback_mysql_dump.go). */
module BinlogChanges {
  import opened Bytes
  import opened Options
  import opened Texts
  import opened Changes
  import opened Binlog

  // ---- Rows ----

  /** What every change of a row of table `name` carries: the event's second in nanoseconds, the table and its
      key columns, and no transaction id, place or statement. */
  predicate OfTable(ch: Change, ts: U32, name: Name, pk: seq<string>) {
    && ch.ts == Some(1_000_000_000 * ts) && ch.schema == name.schema && ch.table == name.table
    && ch.pkCols == pk && (ch.noPK <==> |pk| == 0) && ch.mysql
    && ch.xid == 0 && ch.xid64 == 0 && ch.block == 0 && ch.offnum == 0 && ch.newBlock == 0 && ch.newOff == 0
    && ch.ddlRedo == "" && ch.ddlUndo == "" && ch.ddlRisk == ""
  }

  /** The images of an insert are the rows after it, those of a delete the rows before it; an update has them
      in pairs, and an odd last one counts for nothing. */
  predicate OfImages(ch: Change, op: RowOp, images: seq<Row>, i: nat)
    requires if op.Updated? then 2 * i + 1 < |images| else i < |images|
  {
    match op
    case Inserted => ch.op == Insert && ch.before == map[] && ch.after == images[i]
    case Deleted => ch.op == Delete && ch.before == images[i] && ch.after == map[]
    case Updated => ch.op == Update && ch.before == images[2 * i] && ch.after == images[2 * i + 1]
  }

  lemma {:induction false} ImagesTold(t: Change, op: RowOp, images: seq<Row>, ts: U32, name: Name, pk: seq<string>)
    requires OfTable(t, ts, name, pk) && t.before == map[] && t.after == map[]
    ensures var chs := RowChanges(t, op, images);
            && |chs| == (if op.Updated? then |images| / 2 else |images|)
            && forall i :: 0 <= i < |chs| ==> OfTable(chs[i], ts, name, pk) && OfImages(chs[i], op, images, i)
    decreases |images|
  {
    var chs, n := RowChanges(t, op, images), if op.Updated? then 2 else 1;
    if |images| >= n {
      var rest := images[n..];
      ImagesTold(t, op, rest, ts, name, pk);
      assert chs[1..] == RowChanges(t, op, rest);
      forall i | 0 <= i < |chs| ensures OfTable(chs[i], ts, name, pk) && OfImages(chs[i], op, images, i) {
        if i > 0 { assert chs[i] == chs[1..][i - 1]; }
      }
    }
  }

  /** A rows event of a wanted table gives one change a row, each with its images and its table; any other
      gives none. */
  lemma RowsTold(env: Env, ev: Event, name: Option<Name>)
    requires ev.body.Rows?
    ensures name.None? || env.dict(name.value).None? ==> Wanted(env, ev, name) == []
    ensures name.Some? && env.dict(name.value).Some? ==>
              var chs, op, images := Wanted(env, ev, name), ev.body.op, ev.body.images;
              && |chs| == (if op.Updated? then |images| / 2 else |images|)
              && forall i :: 0 <= i < |chs| ==>
                   OfTable(chs[i], ev.ts, name.value, env.dict(name.value).value) && OfImages(chs[i], op, images, i)
  {
    hide RowChanges;
    if name.Some? && env.dict(name.value).Some? {
      var pk := env.dict(name.value).value;
      ImagesTold(Template(ev.ts, name.value, pk), ev.body.op, ev.body.images, ev.ts, name.value, pk);
    }
  }

  // ---- Statements ----

  /** A statement ends the rows before it if, blanks aside and in any case, it starts with one of these. */
  lemma BoundaryIff(q: string)
    ensures var u := Upper(Trim(q));
            && (TxnBoundary(q) == Begin <==> Starts(u, "BEGIN") || Starts(u, "START TRANSACTION"))
            && (TxnBoundary(q) == Commit <==> Starts(u, "COMMIT"))
            && (TxnBoundary(q) == Rollback <==> Starts(u, "ROLLBACK"))
  {
    var u := Upper(Trim(q));
    assert "BEGIN"[0] == 'B' && "START TRANSACTION"[0] == 'S' && "COMMIT"[0] == 'C' && "ROLLBACK"[0] == 'R';
    StartsIff(u, "BEGIN");
    StartsIff(u, "START TRANSACTION");
    StartsIff(u, "COMMIT");
    StartsIff(u, "ROLLBACK");
  }

  ghost predicate Starts(s: string, w: string) {
    exists rest :: s == w + rest
  }

  lemma StartsIff(s: string, w: string)
    ensures Starts(s, w) <==> w <= s
  {
    if w <= s { assert s == w + s[|w|..]; }
  }

  /** A DDL statement: its first word, up to a blank, in any case. */
  lemma KindIs(word: string, rest: string)
    requires word != "" && (forall i :: 0 <= i < |word| ==> !IsSpace(word[i]))
    requires rest == "" || IsSpace(rest[0])
    requires Trim(word + rest) == word + rest && TxnBoundary(word + rest) == NoBoundary
    ensures DdlOp(word + rest)
            == if Upper(word) == "RENAME" then "ALTER"
               else if Upper(word) in {"CREATE", "ALTER", "DROP", "TRUNCATE"} then Upper(word) else ""
  {
    hide Trim, Upper, IsSpace, TxnBoundary;
    FirstWordIs(word, rest);
    assert "RENAME" !in {"CREATE", "ALTER", "DROP", "TRUNCATE"} by { assert "RENAME"[0] == 'R'; }
  }

  lemma {:induction false} FirstWordIs(word: string, rest: string)
    requires (forall i :: 0 <= i < |word| ==> !IsSpace(word[i])) && (rest == "" || IsSpace(rest[0]))
    ensures FirstWord(word + rest) == word
    decreases |word|
  {
    hide IsSpace;
    if word == "" {
      assert word + rest == rest;
    } else {
      assert (word + rest)[0] == word[0] && (word + rest)[1..] == word[1..] + rest;
      FirstWordIs(word[1..], rest);
    }
  }

  /** A DDL change carries its second, the session's schema, its kind and the statement, with one semicolon
      at the end however many it had. */
  lemma DdlTold(ts: U32, schema: string, core: string, n: nat)
    requires core != "" && !IsSpace(core[0]) && !IsSpace(core[|core| - 1]) && core[|core| - 1] != ';'
    ensures var q := core + Semicolons(n);
            var ch := DdlChange(ts, schema, q);
            && ch.ts == Some(1_000_000_000 * ts) && ch.schema == schema && ch.op == Ddl(DdlOp(q)) && ch.mysql
            && ch.ddlRedo == core + ";" && ch.table == "" && ch.xid64 == 0 && ch.ddlUndo == ""
  {
    hide IsSpace;
    assert !IsSpace(';') by { NoBlank(); }
    var q := core + Semicolons(n);
    assert q[0] == core[0];
    assert q[|q| - 1] == if n == 0 then core[|core| - 1] else ';';
    assert Trim(q) == q;
    SemicolonsGone(core, n);
  }

  lemma NoBlank()
    ensures !IsSpace(';')
  {
  }

  function Semicolons(n: nat): (s: string)
    ensures |s| == n && forall i :: 0 <= i < n ==> s[i] == ';'
  {
    seq(n, _ => ';')
  }

  lemma {:induction false} SemicolonsGone(core: string, n: nat)
    requires core != "" && core[|core| - 1] != ';'
    ensures WithoutSemicolons(core + Semicolons(n)) == core
    decreases n
  {
    var q := core + Semicolons(n);
    if n == 0 {
      assert q == core;
    } else {
      assert q[..|q| - 1] == core + Semicolons(n - 1);
      SemicolonsGone(core, n - 1);
    }
  }
}
