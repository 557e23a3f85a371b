/** The catalog rebuilt from logged pg_class and pg_attribute rows, and its index from file node to class
    (flashback_catalog.go). */
module Catalog {
  import opened Bytes
  import opened Options
  import opened Changes
  import opened Numerals
  import opened Texts

  datatype Class = Class(oid: U32, namespace: U32, relNode: U32, name: string, kind: string)

  datatype Attr = Attr(relId: U32, attNum: int, name: string, typeOid: U32, typlen: int, align_: string,
                       notNull: bool, dropped: bool, typeName: string)

  datatype TypeInfo = TypeInfo(name: string, typlen: int, align_: string)

  /** A table of the snapshot, taken from the live database. */
  datatype Wanted = Wanted(missing: bool, oid: U32, relNode: U32, namespace: U32, name: string, attrs: map<int, Attr>)

  datatype State = State(classes: map<U32, Class>, attrs: map<U32, map<int, Attr>>, nodeToOid: map<U32, U32>,
                         graveClasses: map<U32, Class>, graveAttrs: map<U32, map<int, Attr>>)

  // ---- Reading numbers ----

  const MAX32 := 0xFFFF_FFFF
  const MAX64 := 0xFFFF_FFFF_FFFF_FFFF
  const MAX_INT := 0x7FFF_FFFF_FFFF_FFFF

  function ParseU32(text: string): U32 {
    var s := Trim(text);
    if s == "" || s == "\\N" then 0 else Unsigned(s, MAX32)
  }

  function ParseInt(text: string): int {
    var s := Trim(text);
    if s == "" || s == "\\N" then 0
    else
      var negative := s[0] == '-';
      var n: int := Unsigned(if s[0] in {'-', '+'} then s[1..] else s, MAX64);
      if !negative then if n > MAX_INT then MAX_INT else n
      else if n > MAX_INT + 1 then -(MAX_INT + 1) else 0 - n
  }

  lemma NothingToTrim(s: string)
    requires s != "" && !IsSpace(s[0]) && !IsSpace(s[|s| - 1])
    ensures Trim(s) == s
  {
    hide IsSpace;
  }

  /** A number a row holds in decimal is read back. */
  lemma NumbersAreRead(n: U32)
    ensures ParseU32(Decimal(n)) == n
  {
    hide Decimal, Digits, Trim;
    DecimalDigits(n, MAX32);
    NothingToTrim(Decimal(n));
    assert Decimal(n)[0] != '\\';
  }

  function ParseBool(text: string): bool {
    Upper(Trim(text)) in {"T", "TRUE", "1"}
  }

  // ---- What a row does ----

  function Field(row: Row, key: string): string {
    if key in row then row[key] else ""
  }

  predicate IsUserRelkind(kind: string) {
    Trim(kind) in {"", "r", "p"}
  }

  predicate IsCatalogRelName(name: string) {
    var n := Upper(Trim(name));
    "PG_TOAST" <= n || "PG_TEMP" <= n
  }

  function Or(s: string, other: string): string {
    if s != "" then s else other
  }

  function OrNumber(n: U32, other: U32): U32 {
    if n != 0 then n else other
  }

  function Without<K, V>(m: map<K, V>, k: K): map<K, V> {
    m - {k}
  }

  function DropClass(s: State, oid: U32): State {
    var graves := if oid in s.attrs then s.graveAttrs[oid := s.attrs[oid]] else s.graveAttrs;
    var t := s.(classes := Without(s.classes, oid), attrs := Without(s.attrs, oid), graveAttrs := graves);
    if oid !in s.classes then t
    else
      var cl := s.classes[oid];
      t.(graveClasses := s.graveClasses[oid := cl],
         nodeToOid := if cl.relNode != 0 then Without(s.nodeToOid, cl.relNode) else s.nodeToOid)
  }

  function ClassFrom(cl: Class, oid: U32, row: Row): Class {
    var node := ParseU32(Field(row, "relfilenode"));
    cl.(name := Or(Trim(Field(row, "relname")), cl.name),
        namespace := OrNumber(ParseU32(Field(row, "relnamespace")), cl.namespace),
        kind := Or(Trim(Field(row, "relkind")), cl.kind),
        relNode := OrNumber(node, oid))
  }

  /** A class row read; a table without file node of its own is filed under its oid. */
  function PutClass(s: State, oid: U32, row: Row): State {
    var before := if oid in s.classes then s.classes[oid] else Class(oid, 0, 0, "", "");
    var cl := ClassFrom(before, oid, row);
    var moved := before.relNode != 0 && before.relNode != cl.relNode;
    var index := if moved then Without(s.nodeToOid, before.relNode) else s.nodeToOid;
    s.(classes := s.classes[oid := cl], nodeToOid := index[cl.relNode := oid])
  }

  function ClassRow(s: State, op: string, old_: Row, new_: Row): State {
    var row := if op == "DELETE" then old_ else new_;
    var oid := ParseU32(Field(row, "oid"));
    if oid == 0 then s
    else if op == "DELETE" then DropClass(s, oid)
    else if Trim(Field(row, "relkind")) != "" && !IsUserRelkind(Trim(Field(row, "relkind"))) then s
    else if IsCatalogRelName(Trim(Field(row, "relname"))) then s
    else PutClass(s, oid, row)
  }

  function AttrFrom(a: Attr, types: map<U32, TypeInfo>, row: Row): Attr {
    var typ := ParseU32(Field(row, "atttypid"));
    var known := typ != 0 && typ in types;
    var len := if known && a.typlen == 0 then types[typ].typlen else a.typlen;
    var align_ := if known && a.align_ == "" then types[typ].align_ else a.align_;
    a.(name := Or(Trim(Field(row, "attname")), a.name),
       typeOid := OrNumber(typ, a.typeOid),
       typeName := if known then types[typ].name else a.typeName,
       typlen := if Field(row, "attlen") != "" then ParseInt(Field(row, "attlen")) else len,
       align_ := Or(Trim(Field(row, "attalign")), align_),
       notNull := ParseBool(Field(row, "attnotnull")),
       dropped := ParseBool(Field(row, "attisdropped")))
  }

  function AttrRow(s: State, types: map<U32, TypeInfo>, op: string, old_: Row, new_: Row): State {
    var row := if op == "DELETE" then old_ else new_;
    var relId := ParseU32(Field(row, "attrelid"));
    var num := ParseInt(Field(row, "attnum"));
    if relId == 0 || num <= 0 then s
    else
      var all := if relId in s.attrs then s.attrs[relId] else map[];
      if op == "DELETE" then s.(attrs := s.attrs[relId := Without(all, num)])
      else
        var a := if num in all then all[num] else Attr(relId, num, "", 0, 0, "", false, false, "");
        s.(attrs := s.attrs[relId := all[num := AttrFrom(a, types, row)]])
  }

  function Taken(s: State, w: Wanted): State {
    if w.missing || w.oid == 0 then s
    else
      s.(classes := s.classes[w.oid := Class(w.oid, w.namespace, w.relNode, w.name, "r")],
         nodeToOid := if w.relNode != 0 then s.nodeToOid[w.relNode := w.oid] else s.nodeToOid,
         attrs := s.attrs[w.oid := w.attrs])
  }

  const EMPTY := State(map[], map[], map[], map[], map[])

  function Snapshot(wanted: seq<Wanted>): State {
    if wanted == [] then EMPTY else Taken(Snapshot(wanted[..|wanted| - 1]), wanted[|wanted| - 1])
  }

  datatype Event =
    | ClassEvent(op: string, old_: Row, new_: Row)
    | AttrEvent(op: string, old_: Row, new_: Row)

  function Applied(s: State, types: map<U32, TypeInfo>, e: Event): State {
    match e
    case ClassEvent(op, o, n) => ClassRow(s, op, o, n)
    case AttrEvent(op, o, n) => AttrRow(s, types, op, o, n)
  }

  function Run(s: State, types: map<U32, TypeInfo>, events: seq<Event>): State
    decreases |events|
  {
    if events == [] then s else Run(Applied(s, types, events[0]), types, events[1..])
  }

  // ---- Looking a table up ----

  predicate IsLowest(m: map<int, Attr>, n: int) {
    n in m && forall k :: k in m ==> n <= k
  }

  lemma {:induction false} HasLowest(m: map<int, Attr>)
    requires m != map[]
    ensures exists n :: IsLowest(m, n)
    decreases |m|
  {
    assert (forall k :: k !in m) ==> m == map[];
    var x :| x in m;
    var rest := Without(m, x);
    if rest == map[] {
      assert forall k :: k in m && k != x ==> k in rest;
      assert IsLowest(m, x);
    } else {
      HasLowest(rest);
      var y :| IsLowest(rest, y);
      var n := if x < y then x else y;
      forall k | k in m ensures n <= k { if k != x { assert k in rest; } }
      assert IsLowest(m, n);
    }
  }

  function Lowest(m: map<int, Attr>): (n: int)
    requires m != map[]
    ensures IsLowest(m, n)
  {
    HasLowest(m);
    var n :| IsLowest(m, n);
    n
  }

  /** The columns by number. */
  function Numbers(m: map<int, Attr>): seq<int>
    decreases |m|
  {
    if m == map[] then [] else var n := Lowest(m); [n] + Numbers(Without(m, n))
  }

  lemma {:induction false} NumbersAscend(m: map<int, Attr>)
    ensures forall n :: n in Numbers(m) <==> n in m
    ensures forall i, j :: 0 <= i < j < |Numbers(m)| ==> Numbers(m)[i] < Numbers(m)[j]
    decreases |m|
  {
    if m != map[] {
      var n := Lowest(m);
      NumbersAscend(Without(m, n));
      var rest := Numbers(Without(m, n));
      forall k | 0 <= k < |rest| ensures n < rest[k] { assert rest[k] in Without(m, n); }
      assert Numbers(m) == [n] + rest;
    }
  }

  /** A column as the decoder sees it: a type it lacks is taken from the catalog's types. */
  function Column(a: Attr, types: map<U32, TypeInfo>): Attr {
    if a.typeName != "" || a.typeOid !in types then a
    else
      var t := types[a.typeOid];
      a.(typeName := t.name, typlen := if a.typlen == 0 then t.typlen else a.typlen,
         align_ := if a.align_ == "" then t.align_ else a.align_)
  }

  function Columns(attrs: map<int, Attr>, types: map<U32, TypeInfo>): seq<Attr> {
    NumbersAscend(attrs);
    var ns := Numbers(attrs);
    seq(|ns|, i requires 0 <= i < |ns| => Column(attrs[ns[i]], types))
  }

  datatype Relation = Relation(namespace: U32, name: string, oid: U32, relNode: U32, cols: seq<Attr>)

  /** The table whose rows a file holds; one without known columns is not given. */
  function UserRelation(s: State, types: map<U32, TypeInfo>, relNode: U32): Option<Relation> {
    if relNode == 0 || relNode !in s.nodeToOid then None
    else
      var oid := s.nodeToOid[relNode];
      if oid == 0 || oid !in s.classes then None
      else
        var cl := s.classes[oid];
        var cols := if oid in s.attrs then s.attrs[oid] else map[];
        if cl.kind !in {"r", "p", ""} || cols == map[] then None
        else Some(Relation(cl.namespace, cl.name, cl.oid, cl.relNode, Columns(cols, types)))
  }

  // ---- The index ----

  /** Every file-node entry names a live class stored under that very node. */
  ghost predicate Indexed(s: State) {
    && (forall n :: n in s.nodeToOid ==>
          n != 0 && s.nodeToOid[n] in s.classes && s.classes[s.nodeToOid[n]].relNode == n)
    && (forall oid :: oid in s.classes ==> oid != 0 && s.classes[oid].oid == oid)
  }

  lemma DropKeepsIndex(s: State, oid: U32)
    requires Indexed(s)
    ensures Indexed(DropClass(s, oid))
  {
  }

  lemma PutKeepsIndex(s: State, oid: U32, row: Row)
    requires Indexed(s) && oid != 0
    ensures Indexed(PutClass(s, oid, row))
  {
    hide ParseU32, Trim;
  }

  lemma EventKeepsIndex(s: State, types: map<U32, TypeInfo>, e: Event)
    requires Indexed(s)
    ensures Indexed(Applied(s, types, e))
  {
    hide ParseU32, ParseInt, Trim, IsCatalogRelName, IsUserRelkind, DropClass, PutClass, AttrFrom;
    match e
    case ClassEvent(op, o, n) =>
      var oid := ParseU32(Field(if op == "DELETE" then o else n, "oid"));
      DropKeepsIndex(s, oid);
      if oid != 0 { PutKeepsIndex(s, oid, n); }
    case AttrEvent(_, _, _) =>
  }

  ghost predicate DistinctOids(wanted: seq<Wanted>) {
    forall i, j :: 0 <= i < j < |wanted| ==> wanted[i].oid != wanted[j].oid
  }

  lemma {:induction false} SnapshotIndexed(wanted: seq<Wanted>)
    requires DistinctOids(wanted)
    ensures Indexed(Snapshot(wanted))
    ensures forall oid :: oid in Snapshot(wanted).classes ==> exists i :: 0 <= i < |wanted| && wanted[i].oid == oid
    decreases |wanted|
  {
    if wanted != [] {
      var most := wanted[..|wanted| - 1];
      SnapshotIndexed(most);
      forall oid | oid in Snapshot(most).classes ensures oid != wanted[|wanted| - 1].oid {
        var i :| 0 <= i < |most| && most[i].oid == oid;
        assert wanted[i] == most[i];
      }
      forall oid | oid in Snapshot(most).classes ensures exists i :: 0 <= i < |wanted| && wanted[i].oid == oid {
        var i :| 0 <= i < |most| && most[i].oid == oid;
        assert wanted[i].oid == oid;
      }
    }
  }

  lemma {:induction false} RunKeepsIndex(s: State, types: map<U32, TypeInfo>, events: seq<Event>)
    requires Indexed(s)
    ensures Indexed(Run(s, types, events))
    decreases |events|
  {
    hide Applied, Indexed;
    if events != [] {
      EventKeepsIndex(s, types, events[0]);
      RunKeepsIndex(Applied(s, types, events[0]), types, events[1..]);
    }
  }

  /** After any rows, the table a node leads to is a live one and carries that node. */
  lemma RelationCarriesItsNode(wanted: seq<Wanted>, types: map<U32, TypeInfo>, events: seq<Event>, node: U32)
    requires DistinctOids(wanted)
    ensures var s := Run(Snapshot(wanted), types, events);
            var r := UserRelation(s, types, node);
            r.Some? ==> r.value.relNode == node && r.value.oid in s.classes && s.classes[r.value.oid].relNode == node
                        && s.nodeToOid[node] == r.value.oid
  {
    hide Run, Snapshot, Columns;
    SnapshotIndexed(wanted);
    RunKeepsIndex(Snapshot(wanted), types, events);
  }

  // ---- Nodes that no two tables share ----

  /** No two live classes are stored under one node. */
  ghost predicate Unshared(s: State) {
    forall a, b :: a in s.classes && b in s.classes && s.classes[a].relNode == s.classes[b].relNode != 0 ==> a == b
  }

  /** The index is the inverse of "stored under", for every class that has a node. */
  ghost predicate Inverse(s: State) {
    Indexed(s) && forall oid :: oid in s.classes && s.classes[oid].relNode != 0 ==>
                    s.classes[oid].relNode in s.nodeToOid && s.nodeToOid[s.classes[oid].relNode] == oid
  }

  lemma DropKeepsInverse(s: State, oid: U32)
    requires Inverse(s)
    ensures Inverse(DropClass(s, oid))
  {
    DropKeepsIndex(s, oid);
  }

  lemma PutKeepsInverse(s: State, oid: U32, row: Row)
    requires Inverse(s) && oid != 0 && Unshared(PutClass(s, oid, row))
    ensures Inverse(PutClass(s, oid, row))
  {
    hide ParseU32, Trim, ClassFrom;
    PutKeepsIndex(s, oid, row);
    var t := PutClass(s, oid, row);
    forall x | x in t.classes && t.classes[x].relNode != 0
      ensures t.classes[x].relNode in t.nodeToOid && t.nodeToOid[t.classes[x].relNode] == x
    {
      NodeOfPut(s, oid, row);
    }
  }

  lemma NodeOfPut(s: State, oid: U32, row: Row)
    requires oid != 0
    ensures PutClass(s, oid, row).classes[oid].relNode != 0
  {
    hide ParseU32, Trim;
  }

  lemma EventKeepsInverse(s: State, types: map<U32, TypeInfo>, e: Event)
    requires Inverse(s) && Unshared(Applied(s, types, e))
    ensures Inverse(Applied(s, types, e))
  {
    hide ParseU32, ParseInt, Trim, IsCatalogRelName, IsUserRelkind, DropClass, PutClass, AttrFrom;
    match e
    case ClassEvent(op, o, n) =>
      var oid := ParseU32(Field(if op == "DELETE" then o else n, "oid"));
      DropKeepsInverse(s, oid);
      if oid != 0 && Unshared(PutClass(s, oid, n)) { PutKeepsInverse(s, oid, n); }
    case AttrEvent(_, _, _) =>
  }

  ghost predicate NeverShared(s: State, types: map<U32, TypeInfo>, events: seq<Event>)
    decreases |events|
  {
    Unshared(s) && (events != [] ==> NeverShared(Applied(s, types, events[0]), types, events[1..]))
  }

  lemma {:induction false} RunKeepsInverse(s: State, types: map<U32, TypeInfo>, events: seq<Event>)
    requires Inverse(s) && NeverShared(s, types, events)
    ensures Inverse(Run(s, types, events))
    decreases |events|
  {
    hide Applied, Inverse, Unshared;
    if events != [] {
      SharedNow(Applied(s, types, events[0]), types, events[1..]);
      EventKeepsInverse(s, types, events[0]);
      RunKeepsInverse(Applied(s, types, events[0]), types, events[1..]);
    }
  }

  lemma SharedNow(s: State, types: map<U32, TypeInfo>, events: seq<Event>)
    requires NeverShared(s, types, events)
    ensures Unshared(s)
  {
  }

  /** While no node is shared, every live table that has columns is found under its node. */
  lemma TablesAreFound(s: State, types: map<U32, TypeInfo>, events: seq<Event>, oid: U32)
    requires Inverse(s) && NeverShared(s, types, events)
    requires var t := Run(s, types, events);
             oid in t.classes && t.classes[oid].relNode != 0 && t.classes[oid].kind in {"r", "p", ""}
             && oid in t.attrs && t.attrs[oid] != map[]
    ensures var t := Run(s, types, events);
            var r := UserRelation(t, types, t.classes[oid].relNode);
            r.Some? && r.value.oid == oid && r.value.cols == Columns(t.attrs[oid], types)
  {
    hide Run, Columns, NeverShared;
    RunKeepsInverse(s, types, events);
  }

  /** When two tables share a node, dropping one hides the other. */
  lemma SharedNodeIsLost(s: State, a: U32, b: U32)
    requires Indexed(s) && a != b && a in s.classes && b in s.classes
    requires s.classes[a].relNode == s.classes[b].relNode != 0
    ensures var t := DropClass(s, b); a in t.classes && t.classes[a].relNode !in t.nodeToOid
  {
  }

  /** Without distinct oids a snapshot can list one table under a node that is another's. */
  lemma SharedOidMisleads(types: map<U32, TypeInfo>, cols: map<int, Attr>)
    requires cols != map[]
    ensures var s := Snapshot([Wanted(false, 1, 10, 0, "t", cols), Wanted(false, 1, 20, 0, "t", cols)]);
            UserRelation(s, types, 10).Some? && UserRelation(s, types, 10).value.relNode == 20
  {
    hide Columns;
    var one, two := [Wanted(false, 1, 10, 0, "t", cols)],
      [Wanted(false, 1, 10, 0, "t", cols), Wanted(false, 1, 20, 0, "t", cols)];
    assert one[..0] == [] && two[..1] == one;
    assert Snapshot(one) == Taken(EMPTY, one[0]);
    assert Snapshot(two) == Taken(Snapshot(one), two[1]);
  }

  // ---- The catalog as it is kept ----

  class CatalogStore {
    var classes: map<U32, Class>
    var attrs: map<U32, map<int, Attr>>
    var nodeToOid: map<U32, U32>
    var graveClasses: map<U32, Class>
    var graveAttrs: map<U32, map<int, Attr>>

    ghost function Value(): State
      reads this
    {
      State(classes, attrs, nodeToOid, graveClasses, graveAttrs)
    }

    constructor ()
      ensures Value() == EMPTY
    {
      classes, attrs, nodeToOid, graveClasses, graveAttrs := map[], map[], map[], map[], map[];
    }

    method LoadSnapshot(wanted: seq<Wanted>)
      requires Value() == EMPTY
      modifies this
      ensures Value() == Snapshot(wanted)
      ensures DistinctOids(wanted) ==> Indexed(Value())
    {
      hide Indexed;
      if DistinctOids(wanted) { SnapshotIndexed(wanted); }
      assert wanted[..0] == [];
      for i := 0 to |wanted|
        invariant Value() == Snapshot(wanted[..i])
      {
        assert wanted[..i + 1][..i] == wanted[..i];
        var w := wanted[i];
        if w.missing || w.oid == 0 { continue; }
        classes := classes[w.oid := Class(w.oid, w.namespace, w.relNode, w.name, "r")];
        if w.relNode != 0 { nodeToOid := nodeToOid[w.relNode := w.oid]; }
        attrs := attrs[w.oid := w.attrs];
      }
      assert wanted[..|wanted|] == wanted;
    }

    method ApplyClass(op: string, old_: Row, new_: Row)
      modifies this
      ensures Value() == ClassRow(old(Value()), op, old_, new_)
      ensures old(Indexed(Value())) ==> Indexed(Value())
    {
      hide ParseU32, Trim, IsUserRelkind, IsCatalogRelName, Indexed;
      ghost var before := Value();
      if Indexed(before) { EventKeepsIndex(before, map[], ClassEvent(op, old_, new_)); }
      var row := if op == "DELETE" then old_ else new_;
      var oid := ParseU32(Field(row, "oid"));
      if oid == 0 { return; }
      if op == "DELETE" { Remove(oid); return; }
      var kind := Trim(Field(row, "relkind"));
      if kind != "" && !IsUserRelkind(kind) { return; }
      if IsCatalogRelName(Trim(Field(row, "relname"))) { return; }
      Store(oid, row);
    }

    method Remove(oid: U32)
      modifies this
      ensures Value() == DropClass(old(Value()), oid)
    {
      if oid in classes {
        var cl := classes[oid];
        graveClasses := graveClasses[oid := cl];
        if cl.relNode != 0 { nodeToOid := Without(nodeToOid, cl.relNode); }
      }
      if oid in attrs { graveAttrs := graveAttrs[oid := attrs[oid]]; }
      classes := Without(classes, oid);
      attrs := Without(attrs, oid);
    }

    method Store(oid: U32, row: Row)
      modifies this
      ensures Value() == PutClass(old(Value()), oid, row)
    {
      hide ClassFrom;
      var before := if oid in classes then classes[oid] else Class(oid, 0, 0, "", "");
      var cl := Refreshed(before, oid, row);
      if before.relNode != 0 && before.relNode != cl.relNode { nodeToOid := Without(nodeToOid, before.relNode); }
      classes := classes[oid := cl];
      nodeToOid := nodeToOid[cl.relNode := oid];
    }

    method ApplyAttr(types: map<U32, TypeInfo>, op: string, old_: Row, new_: Row)
      modifies this`attrs
      ensures Value() == AttrRow(old(Value()), types, op, old_, new_)
    {
      hide ParseU32, ParseInt, ParseBool, Trim;
      var row := if op == "DELETE" then old_ else new_;
      var relId, num := ParseU32(Field(row, "attrelid")), ParseInt(Field(row, "attnum"));
      if relId == 0 || num <= 0 { return; }
      var all := if relId in attrs then attrs[relId] else map[];
      if op == "DELETE" {
        attrs := attrs[relId := Without(all, num)];
        return;
      }
      var a := if num in all then all[num] else Attr(relId, num, "", 0, 0, "", false, false, "");
      a := Updated(types, a, row);
      attrs := attrs[relId := all[num := a]];
    }
  }

  /** Fields a row leaves empty keep what they were. */
  method Refreshed(before: Class, oid: U32, row: Row) returns (cl: Class)
    ensures cl == ClassFrom(before, oid, row)
  {
    hide ParseU32, Trim, Field;
    var name, namespace, kind := before.name, before.namespace, before.kind;
    var v := Trim(Field(row, "relname"));
    if v != "" { name := v; }
    var ns := ParseU32(Field(row, "relnamespace"));
    if ns != 0 { namespace := ns; }
    v := Trim(Field(row, "relkind"));
    if v != "" { kind := v; }
    var node := ParseU32(Field(row, "relfilenode"));
    if node == 0 { node := oid; }
    cl := Class(before.oid, namespace, node, name, kind);
  }

  method Updated(types: map<U32, TypeInfo>, attr: Attr, row: Row) returns (a: Attr)
    ensures a == AttrFrom(attr, types, row)
  {
    hide ParseU32, ParseInt, ParseBool, Trim, Field;
    var name, typlen, align_ := attr.name, attr.typlen, attr.align_;
    var typeOid, typeName := attr.typeOid, attr.typeName;
    var v := Trim(Field(row, "attname"));
    if v != "" { name := v; }
    var typ := ParseU32(Field(row, "atttypid"));
    if typ != 0 {
      typeOid := typ;
      if typ in types {
        typeName := types[typ].name;
        if typlen == 0 { typlen := types[typ].typlen; }
        if align_ == "" { align_ := types[typ].align_; }
      }
    }
    if Field(row, "attlen") != "" { typlen := ParseInt(Field(row, "attlen")); }
    v := Trim(Field(row, "attalign"));
    if v != "" { align_ := v; }
    a := Attr(attr.relId, attr.attNum, name, typeOid, typlen, align_,
              ParseBool(Field(row, "attnotnull")), ParseBool(Field(row, "attisdropped")), typeName);
  }
}
