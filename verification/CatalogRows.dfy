/** Rows of pg_class and pg_attribute as they are printed, with all their columns or some, and what the catalog
    holds after reading one (flashback_catalog.go:333-433, 513-545). */
module CatalogRows {
  import opened Bytes
  import opened Options
  import opened Changes
  import opened Numerals
  import opened Texts
  import opened Catalog

  // ---- Printed values ----

  function Signed(n: int): string {
    if n < 0 then "-" + Decimal(-n) else Decimal(n)
  }

  function Flag(b: bool): string {
    if b then "t" else "f"
  }

  /** Text without a blank at either end. */
  predicate Word(s: string) {
    s != "" && !IsSpace(s[0]) && !IsSpace(s[|s| - 1])
  }

  lemma NumberRead(n: U32)
    ensures ParseU32(Decimal(n)) == n && Decimal(n) != ""
  {
    NumbersAreRead(n);
    DecimalDigits(n, n);
  }

  lemma SignedDigits(n: int)
    requires -0x8000_0000_0000_0000 <= n < 0x8000_0000_0000_0000
    ensures var s, m := Signed(n), if n < 0 then -n else n;
            && s != "" && (n < 0 <==> s[0] == '-') && s[0] != '+' && s != "\\N"
            && (if s[0] in {'-', '+'} then s[1..] else s) == Decimal(m)
            && !IsSpace(s[0]) && !IsSpace(s[|s| - 1])
  {
    hide Decimal, Digits, IsSpace;
    var m := if n < 0 then -n else n;
    DecimalDigits(m, m);
    DigitsNoSpace();
    var s := Signed(n);
    if n < 0 { assert s[1..] == Decimal(m) && s[|s| - 1] == Decimal(m)[|Decimal(m)| - 1]; }
  }

  lemma DigitsNoSpace()
    ensures forall c :: '0' <= c <= '9' || c == '-' ==> !IsSpace(c)
  {
  }

  lemma SignedRead(n: int)
    requires -0x8000_0000_0000_0000 <= n < 0x8000_0000_0000_0000
    ensures ParseInt(Signed(n)) == n && Signed(n) != ""
  {
    hide Decimal, Digits, IsSpace, Signed;
    SignedDigits(n);
    NothingToTrim(Signed(n));
    DecimalDigits(if n < 0 then -n else n, 0xFFFF_FFFF_FFFF_FFFF);
  }

  lemma FlagRead(b: bool)
    ensures ParseBool(Flag(b)) == b
  {
    var s := Flag(b);
    assert Trim(s) == s by { FlagPlain(); }
    assert Upper("t") == "T" && Upper("f") == "F";
  }

  lemma FlagPlain()
    ensures Trim("t") == "t" && Trim("f") == "f"
  {
    assert !IsSpace('t') && !IsSpace('f');
  }

  // ---- Rows ----

  datatype AttrInfo = AttrInfo(relId: U32, num: int, name: string, typ: U32, len: int, align_: char, notNull: bool,
                               dropped: bool) {
    predicate Valid() {
      && relId != 0 && 0 < num < 0x8000_0000_0000_0000 && Word(name)
      && -0x8000_0000_0000_0000 <= len < 0x8000_0000_0000_0000 && !IsSpace(align_)
    }

    function Print(): Row {
      map["attrelid" := Decimal(relId), "attnum" := Signed(num), "attname" := name, "atttypid" := Decimal(typ),
          "attlen" := Signed(len), "attalign" := [align_], "attnotnull" := Flag(notNull),
          "attisdropped" := Flag(dropped)]
    }
  }

  datatype ClassInfo = ClassInfo(oid: U32, namespace: U32, relNode: U32, name: string, kind: char) {
    predicate Valid() {
      oid != 0 && Word(name) && !IsSpace(kind)
    }

    function Print(): Row {
      map["oid" := Decimal(oid), "relnamespace" := Decimal(namespace), "relfilenode" := Decimal(relNode),
          "relname" := name, "relkind" := [kind]]
    }
  }

  /** A row with some of its columns. */
  function Part(row: Row, known: set<string>): Row {
    map k | k in row && k in known :: row[k]
  }

  lemma TrimOne(c: char)
    requires !IsSpace(c)
    ensures Trim([c]) == [c]
  {
    hide IsSpace;
    NothingToTrim([c]);
  }

  /** The column told by a row, in place of `a`: what the row does not tell stays, but the two flags, which
      are false then; a known type gives its name, and what the row leaves open of length and alignment when
      the column had none. */
  lemma AttrTold(a: Attr, types: map<U32, TypeInfo>, x: AttrInfo, known: set<string>)
    requires x.Valid()
    ensures
      var b, typed := AttrFrom(a, types, Part(x.Print(), known)), "atttypid" in known && x.typ != 0;
      && b.relId == a.relId && b.attNum == a.attNum
      && b.name == (if "attname" in known then x.name else a.name)
      && b.typeOid == (if typed then x.typ else a.typeOid)
      && b.typeName == (if typed && x.typ in types then types[x.typ].name else a.typeName)
      && b.typlen == (if "attlen" in known then x.len
                      else if typed && x.typ in types && a.typlen == 0 then types[x.typ].typlen else a.typlen)
      && b.align_ == (if "attalign" in known then [x.align_]
                      else if typed && x.typ in types && a.align_ == "" then types[x.typ].align_ else a.align_)
      && (b.notNull <==> "attnotnull" in known && x.notNull)
      && (b.dropped <==> "attisdropped" in known && x.dropped)
  {
    hide ParseU32, ParseInt, ParseBool, Decimal, Signed, Flag, IsSpace, Trim;
    NumberRead(x.typ);
    SignedRead(x.len);
    NothingToTrim(x.name);
    TrimOne(x.align_);
    FlagRead(x.notNull);
    FlagRead(x.dropped);
    NothingTold();
  }

  lemma NothingTold()
    ensures Trim("") == "" && ParseU32("") == 0 && !ParseBool("")
  {
    assert Upper("") == "";
  }

  /** A printed column row stores that column of its table, or deletes it, and touches nothing else. */
  lemma AttrStored(s: State, types: map<U32, TypeInfo>, op: string, other: Row, x: AttrInfo, known: set<string>)
    requires x.Valid() && {"attrelid", "attnum"} <= known
    ensures
      var row := Part(x.Print(), known);
      var all := if x.relId in s.attrs then s.attrs[x.relId] else map[];
      var a := if x.num in all then all[x.num] else Attr(x.relId, x.num, "", 0, 0, "", false, false, "");
      && Applied(s, types, AttrEvent("DELETE", row, other)) == s.(attrs := s.attrs[x.relId := all - {x.num}])
      && (op != "DELETE" ==> Applied(s, types, AttrEvent(op, other, row))
                             == s.(attrs := s.attrs[x.relId := all[x.num := AttrFrom(a, types, row)]]))
  {
    hide ParseU32, ParseInt, Decimal, Signed, Flag, IsSpace, AttrFrom;
    NumberRead(x.relId);
    SignedRead(x.num);
  }

  /** A name that starts, in any case, like those of the system's own tables. */
  ghost predicate SystemName(name: string) {
    exists rest :: Upper(name) == "PG_TOAST" + rest || Upper(name) == "PG_TEMP" + rest
  }

  lemma SystemNameIs(name: string)
    requires Word(name)
    ensures IsCatalogRelName(name) <==> SystemName(name)
  {
    hide IsSpace, Upper;
    NothingToTrim(name);
    var u := Upper(name);
    if "PG_TOAST" <= u { assert u == "PG_TOAST" + u[8..]; }
    if "PG_TEMP" <= u { assert u == "PG_TEMP" + u[7..]; }
  }

  lemma NoName()
    ensures !IsCatalogRelName("") && !IsCatalogRelName(Trim(""))
  {
    assert Upper("") == "";
  }

  /** Neither kept: a row of another kind than plain and partitioned tables, or of a system table. */
  ghost predicate PassedOver(x: ClassInfo, known: set<string>) {
    ("relkind" in known && x.kind != 'r' && x.kind != 'p') || ("relname" in known && SystemName(x.name))
  }

  lemma ClassFields(x: ClassInfo, known: set<string>)
    requires x.Valid() && "oid" in known
    ensures
      var row := Part(x.Print(), known);
      && ParseU32(Field(row, "oid")) == x.oid
      && ParseU32(Field(row, "relnamespace")) == (if "relnamespace" in known then x.namespace else 0)
      && ParseU32(Field(row, "relfilenode")) == (if "relfilenode" in known then x.relNode else 0)
      && Trim(Field(row, "relname")) == (if "relname" in known then x.name else "")
      && Trim(Field(row, "relkind")) == (if "relkind" in known then [x.kind] else "")
      && (PassedOver(x, known) <==>
            (Trim(Field(row, "relkind")) != "" && !IsUserRelkind(Trim(Field(row, "relkind"))))
            || IsCatalogRelName(Trim(Field(row, "relname"))))
  {
    hide ParseU32, Decimal, IsSpace, Trim, IsCatalogRelName, SystemName;
    NumberRead(x.oid);
    NumberRead(x.namespace);
    NumberRead(x.relNode);
    NothingToTrim(x.name);
    TrimOne(x.kind);
    NothingTold();
    NoName();
    SystemNameIs(x.name);
  }

  /** A printed class row of a table stores what it tells, files the table under its node, or its oid where it
      has none, and takes it out of the node it had before; a row of anything else does nothing. */
  lemma ClassStored(s: State, types: map<U32, TypeInfo>, op: string, other: Row, x: ClassInfo, known: set<string>)
    requires x.Valid() && "oid" in known && op != "DELETE"
    ensures
      var t := Applied(s, types, ClassEvent(op, other, Part(x.Print(), known)));
      if PassedOver(x, known) then t == s
      else
        var before := if x.oid in s.classes then s.classes[x.oid] else Class(x.oid, 0, 0, "", "");
        var node := if "relfilenode" in known && x.relNode != 0 then x.relNode else x.oid;
        && t.classes == s.classes[x.oid := before.(
             name := if "relname" in known then x.name else before.name,
             namespace := if "relnamespace" in known && x.namespace != 0 then x.namespace else before.namespace,
             kind := if "relkind" in known then [x.kind] else before.kind, relNode := node)]
        && t.attrs == s.attrs && t.graveClasses == s.graveClasses && t.graveAttrs == s.graveAttrs
        && node in t.nodeToOid && t.nodeToOid[node] == x.oid
        && (before.relNode != 0 && before.relNode != node ==> before.relNode !in t.nodeToOid)
        && forall n :: n != node && n != before.relNode ==>
             (n in t.nodeToOid <==> n in s.nodeToOid) && (n in s.nodeToOid ==> t.nodeToOid[n] == s.nodeToOid[n])
  {
    hide ParseU32, Decimal, IsSpace, Trim, IsCatalogRelName, IsUserRelkind, PassedOver, Field, Part, ClassFrom,
         PutClass, ClassInfo.Print;
    var row := Part(x.Print(), known);
    var before := if x.oid in s.classes then s.classes[x.oid] else Class(x.oid, 0, 0, "", "");
    ClassFields(x, known);
    ClassTold(before, x, known);
    PutFiles(s, x.oid, row);
  }

  lemma ClassTold(before: Class, x: ClassInfo, known: set<string>)
    requires x.Valid() && "oid" in known
    ensures ClassFrom(before, x.oid, Part(x.Print(), known)) == before.(
              name := if "relname" in known then x.name else before.name,
              namespace := if "relnamespace" in known && x.namespace != 0 then x.namespace else before.namespace,
              kind := if "relkind" in known then [x.kind] else before.kind,
              relNode := if "relfilenode" in known && x.relNode != 0 then x.relNode else x.oid)
  {
    hide ParseU32, Decimal, IsSpace, Trim, IsCatalogRelName, IsUserRelkind, Field, Part, PassedOver, ClassInfo.Print;
    ClassFields(x, known);
  }

  /** Filing a class under its node. */
  lemma PutFiles(s: State, oid: U32, row: Row)
    ensures
      var t := PutClass(s, oid, row);
      var before := if oid in s.classes then s.classes[oid] else Class(oid, 0, 0, "", "");
      var cl := ClassFrom(before, oid, row);
      && t.classes == s.classes[oid := cl]
      && t.attrs == s.attrs && t.graveClasses == s.graveClasses && t.graveAttrs == s.graveAttrs
      && cl.relNode in t.nodeToOid && t.nodeToOid[cl.relNode] == oid
      && (before.relNode != 0 && before.relNode != cl.relNode ==> before.relNode !in t.nodeToOid)
      && forall n :: n != cl.relNode && n != before.relNode ==>
           (n in t.nodeToOid <==> n in s.nodeToOid) && (n in s.nodeToOid ==> t.nodeToOid[n] == s.nodeToOid[n])
  {
    hide ClassFrom;
  }

  /** A deleted class row takes the table, its columns and its entry in the index away, and keeps the first two
      for later. */
  lemma ClassDropped(s: State, types: map<U32, TypeInfo>, other: Row, x: ClassInfo, known: set<string>)
    requires x.Valid() && "oid" in known
    ensures
      var t := Applied(s, types, ClassEvent("DELETE", Part(x.Print(), known), other));
      && t.classes == s.classes - {x.oid} && t.attrs == s.attrs - {x.oid}
      && (if x.oid in s.classes then
            && t.graveClasses == s.graveClasses[x.oid := s.classes[x.oid]]
            && t.nodeToOid == s.nodeToOid - (if s.classes[x.oid].relNode != 0 then {s.classes[x.oid].relNode} else {})
          else t.graveClasses == s.graveClasses && t.nodeToOid == s.nodeToOid)
      && t.graveAttrs == (if x.oid in s.attrs then s.graveAttrs[x.oid := s.attrs[x.oid]] else s.graveAttrs)
  {
    hide ParseU32, Decimal, IsSpace, Trim, IsCatalogRelName, IsUserRelkind, Field, Part;
    ClassFields(x, known);
  }

  /** A column is given with what its type tells where it was stored without the type's name. */
  lemma ColumnTold(a: Attr, types: map<U32, TypeInfo>)
    ensures
      var c := Column(a, types);
      && c.relId == a.relId && c.attNum == a.attNum && c.name == a.name && c.typeOid == a.typeOid
      && c.notNull == a.notNull && c.dropped == a.dropped
      && (a.typeName != "" ==> c == a)
      && (a.typeName == "" && a.typeOid in types ==>
            c.typeName == types[a.typeOid].name
            && c.typlen == (if a.typlen != 0 then a.typlen else types[a.typeOid].typlen)
            && c.align_ == (if |a.align_| > 0 then a.align_ else types[a.typeOid].align_))
  {
  }

  // ---- Numbers out of range ----

  /** A number too large for its width is read as the largest there is. */
  lemma {:induction false} TooLarge(n: nat, max: nat)
    requires n > max
    ensures Unsigned(Decimal(n), max) == max
  {
    DecimalDigits(n, n);
    DigitsBelow(Decimal(n), 0, 0, n, max);
  }

  lemma {:induction false} DigitsBelow(s: string, i: nat, v: nat, n: nat, max: nat)
    requires i <= |s| && v <= max < n && Digits(s, i, v, n) == Number(n)
    ensures Digits(s, i, v, max) == Range
    decreases |s| - i
  {
    if i < |s| {
      var m := 10 * v + (s[i] as int - '0' as int);
      if m <= max { DigitsBelow(s, i + 1, m, n, max); }
    }
  }

  /** Signed numbers out of range are read as the largest and the smallest there are. */
  lemma SignedTooLarge(n: nat)
    requires n >= 0x8000_0000_0000_0000
    ensures ParseInt(Decimal(n)) == 0x7FFF_FFFF_FFFF_FFFF
    ensures ParseInt("-" + Decimal(n)) == -0x8000_0000_0000_0000
  {
    hide Decimal, Digits, IsSpace, Unsigned;
    DecimalDigits(n, n);
    DigitsNoSpace();
    var s, m := Decimal(n), "-" + Decimal(n);
    assert m[1..] == s && m[|m| - 1] == s[|s| - 1];
    NothingToTrim(s);
    NothingToTrim(m);
    LargeRead(n);
  }

  lemma LargeRead(n: nat)
    ensures Unsigned(Decimal(n), 0xFFFF_FFFF_FFFF_FFFF)
            == if n <= 0xFFFF_FFFF_FFFF_FFFF then n else 0xFFFF_FFFF_FFFF_FFFF
  {
    hide Decimal, Digits;
    if n <= 0xFFFF_FFFF_FFFF_FFFF { DecimalDigits(n, 0xFFFF_FFFF_FFFF_FFFF); }
    else { TooLarge(n, 0xFFFF_FFFF_FFFF_FFFF); }
  }

  /** The class a node's index entry leads to, if that is a table (plain, partitioned or of blank
      kind) with some column. */
  predicate Given(s: State, relNode: U32, oid: U32) {
    && relNode != 0 && oid != 0 && relNode in s.nodeToOid && s.nodeToOid[relNode] == oid && oid in s.classes
    && (s.classes[oid].kind == "r" || s.classes[oid].kind == "p" || |s.classes[oid].kind| == 0)
    && oid in s.attrs && exists n :: n in s.attrs[oid]
  }

  /** A node has a table exactly if there is such a class, and then it is told as that class is, with all its
      columns. */
  lemma GivenIff(s: State, types: map<U32, TypeInfo>, relNode: U32)
    ensures var r := UserRelation(s, types, relNode);
            && (r.Some? <==> exists oid :: Given(s, relNode, oid))
            && (r.Some? ==>
                  var cl := s.classes[s.nodeToOid[relNode]];
                  && r.value.oid == cl.oid && r.value.name == cl.name && r.value.namespace == cl.namespace
                  && r.value.relNode == cl.relNode
                  && r.value.cols == Columns(s.attrs[s.nodeToOid[relNode]], types))
  {
    hide Columns;
    if relNode in s.nodeToOid {
      var oid := s.nodeToOid[relNode];
      if oid in s.attrs && s.attrs[oid] != map[] {
        var attrs := s.attrs[oid];
        assert (forall n :: n !in attrs) ==> attrs == map[];
      }
      if UserRelation(s, types, relNode).Some? { assert Given(s, relNode, oid); }
    }
  }
}
