/** Exactly when the rebuilt catalog finds a live table under its file node, told from the catalog rows
    alone, and exactly when an index entry of the snapshot is stale. */
module CatalogFound {
  import opened Bytes
  import opened Options
  import opened Changes
  import opened Texts
  import opened Catalog

  // ---- What rows do to file nodes ----

  datatype Does = Puts(oid: U32, node: U32) | Drops(oid: U32) | Nothing

  /** The class a catalog row stores with its file node, or removes. */
  function DoesTo(e: Event): Does {
    if !e.ClassEvent? then Nothing
    else
      var row := if e.op == "DELETE" then e.old_ else e.new_;
      var oid := ParseU32(Field(row, "oid"));
      var kind := Trim(Field(row, "relkind"));
      if oid == 0 then Nothing
      else if e.op == "DELETE" then Drops(oid)
      else if (kind != "" && !IsUserRelkind(kind)) || IsCatalogRelName(Trim(Field(row, "relname"))) then Nothing
      else Puts(oid, OrNumber(ParseU32(Field(row, "relfilenode")), oid))
  }

  predicate IsOf(e: Event, oid: U32) {
    DoesTo(e) == Drops(oid) || (DoesTo(e).Puts? && DoesTo(e).oid == oid)
  }

  function NodeIn(s: State, oid: U32): Option<U32> {
    if oid in s.classes then Some(s.classes[oid].relNode) else None
  }

  /** The file node of a class after `k` rows. */
  function NodeAt(s: State, events: seq<Event>, k: nat, oid: U32): Option<U32>
    requires k <= |events|
  {
    if k == 0 then NodeIn(s, oid)
    else if !IsOf(events[k - 1], oid) then NodeAt(s, events, k - 1, oid)
    else if DoesTo(events[k - 1]).Puts? then Some(DoesTo(events[k - 1]).node)
    else None
  }

  /** Row `j` is another class's that is stored under `node` or leaves it. */
  predicate TakesAway(s: State, events: seq<Event>, j: nat, node: U32, oid: U32)
    requires j < |events|
  {
    match DoesTo(events[j])
    case Puts(other, to) => other != oid && (to == node || NodeAt(s, events, j, other) == Some(node))
    case Drops(other) => other != oid && NodeAt(s, events, j, other) == Some(node)
    case Nothing => false
  }

  predicate Entered(s: State, node: U32, oid: U32) {
    node in s.nodeToOid && s.nodeToOid[node] == oid
  }

  predicate OwnAfter(events: seq<Event>, j: int, k: nat, oid: U32)
    requires -1 <= j && k <= |events|
  {
    exists i :: j < i < k && IsOf(events[i], oid)
  }

  /** Among `k` rows, no other class takes `node` from class `oid` but before a row of its own, and the
      class has such a row or was entered from the start. */
  predicate Secure(s: State, events: seq<Event>, k: nat, node: U32, oid: U32)
    requires k <= |events|
  {
    && (Entered(s, node, oid) || OwnAfter(events, -1, k, oid))
    && forall j :: 0 <= j < k && TakesAway(s, events, j, node, oid) ==> OwnAfter(events, j, k, oid)
  }

  // ---- One row ----

  lemma NodeStep(s: State, types: map<U32, TypeInfo>, e: Event, oid: U32)
    ensures NodeIn(Applied(s, types, e), oid) ==
            if !IsOf(e, oid) then NodeIn(s, oid) else if DoesTo(e).Puts? then Some(DoesTo(e).node) else None
  {
    hide ParseU32, ParseInt, Trim, IsCatalogRelName, IsUserRelkind, AttrFrom;
  }

  lemma EntryStep(s: State, types: map<U32, TypeInfo>, e: Event, node: U32, oid: U32)
    requires Indexed(s) && !IsOf(e, oid)
    ensures Entered(Applied(s, types, e), node, oid) <==>
            Entered(s, node, oid) && match DoesTo(e)
                                     case Puts(other, to) => to != node && NodeIn(s, other) != Some(node)
                                     case Drops(other) => NodeIn(s, other) != Some(node)
                                     case Nothing => true
  {
    hide ParseU32, ParseInt, Trim, IsCatalogRelName, IsUserRelkind, AttrFrom;
  }

  lemma OwnEntry(s: State, types: map<U32, TypeInfo>, e: Event, node: U32, oid: U32)
    requires Indexed(s) && IsOf(e, oid)
    ensures Entered(Applied(s, types, e), node, oid) <==> DoesTo(e) == Puts(oid, node)
  {
    hide ParseU32, ParseInt, Trim, IsCatalogRelName, IsUserRelkind, AttrFrom;
  }

  // ---- All rows ----

  lemma {:induction false} RunLast(s: State, types: map<U32, TypeInfo>, events: seq<Event>, k: nat)
    requires k < |events|
    ensures Run(s, types, events[..k + 1]) == Applied(Run(s, types, events[..k]), types, events[k])
    decreases |events|
  {
    hide Applied;
    if k == 0 {
      assert events[..1] == [events[0]] && events[..1][1..] == [] && events[..0] == [];
    } else {
      assert events[..k + 1][1..] == events[1..][..k] && events[..k][1..] == events[1..][..k - 1];
      RunLast(Applied(s, types, events[0]), types, events[1..], k - 1);
    }
  }

  lemma {:induction false} NodeAfter(s: State, types: map<U32, TypeInfo>, events: seq<Event>, k: nat, oid: U32)
    requires k <= |events|
    ensures NodeIn(Run(s, types, events[..k]), oid) == NodeAt(s, events, k, oid)
    decreases k
  {
    hide Applied, DoesTo, IsOf;
    if k == 0 {
      assert events[..0] == [];
    } else {
      NodeAfter(s, types, events, k - 1, oid);
      RunLast(s, types, events, k - 1);
      NodeStep(Run(s, types, events[..k - 1]), types, events[k - 1], oid);
    }
  }

  lemma OwnMakesSecure(s: State, events: seq<Event>, k: nat, node: U32, oid: U32)
    requires k < |events| && IsOf(events[k], oid)
    ensures Secure(s, events, k + 1, node, oid)
  {
    hide IsOf, NodeAt, Entered;
    assert OwnAfter(events, -1, k + 1, oid);
    forall j | 0 <= j < k + 1 && TakesAway(s, events, j, node, oid) ensures OwnAfter(events, j, k + 1, oid) {
      if j == k { NotOwn(s, events, k, node, oid); }
    }
  }

  lemma NotOwn(s: State, events: seq<Event>, k: nat, node: U32, oid: U32)
    requires k < |events| && TakesAway(s, events, k, node, oid)
    ensures !IsOf(events[k], oid)
  {
    hide DoesTo, NodeAt;
  }

  lemma OwnStays(events: seq<Event>, j: int, k: nat, oid: U32)
    requires -1 <= j < k < |events| && !IsOf(events[k], oid)
    ensures OwnAfter(events, j, k + 1, oid) <==> OwnAfter(events, j, k, oid)
  {
    hide IsOf;
    if OwnAfter(events, j, k + 1, oid) {
      var i :| j < i < k + 1 && IsOf(events[i], oid);
      assert i != k;
    }
  }

  lemma NoneOwnAfter(events: seq<Event>, k: nat, oid: U32)
    requires k < |events|
    ensures !OwnAfter(events, k, k + 1, oid)
  {
    hide IsOf;
  }

  lemma OtherKeepsSecure(s: State, events: seq<Event>, k: nat, node: U32, oid: U32)
    requires k < |events| && !IsOf(events[k], oid)
    ensures Secure(s, events, k + 1, node, oid) <==>
            Secure(s, events, k, node, oid) && !TakesAway(s, events, k, node, oid)
  {
    hide IsOf, OwnAfter, TakesAway, Entered;
    NoneOwnAfter(events, k, oid);
    forall j | -1 <= j < k ensures OwnAfter(events, j, k + 1, oid) <==> OwnAfter(events, j, k, oid) {
      OwnStays(events, j, k, oid);
    }
  }

  lemma IndexedAt(s: State, types: map<U32, TypeInfo>, events: seq<Event>, k: nat)
    requires Indexed(s) && k <= |events|
    ensures Indexed(Run(s, types, events[..k]))
  {
    RunKeepsIndex(s, types, events[..k]);
  }

  lemma SecureAtStart(s: State, events: seq<Event>, node: U32, oid: U32)
    requires Indexed(s)
    ensures Entered(s, node, oid) <==> NodeAt(s, events, 0, oid) == Some(node) && Secure(s, events, 0, node, oid)
  {
    hide IsOf, TakesAway;
  }

  lemma TakesIs(s: State, types: map<U32, TypeInfo>, events: seq<Event>, k: nat, node: U32, oid: U32)
    requires k < |events| && !IsOf(events[k], oid) && Indexed(s)
    ensures var t := Run(s, types, events[..k]);
            Entered(Applied(t, types, events[k]), node, oid) <==>
            Entered(t, node, oid) && !TakesAway(s, events, k, node, oid)
  {
    hide DoesTo, Run, Applied, NodeAt, Entered, NodeIn, Indexed;
    var t := Run(s, types, events[..k]);
    IndexedAt(s, types, events, k);
    EntryStep(t, types, events[k], node, oid);
    if !DoesTo(events[k]).Nothing? { NodeAfter(s, types, events, k, DoesTo(events[k]).oid); }
  }

  lemma {:induction false} EnteredAfter(s: State, types: map<U32, TypeInfo>, events: seq<Event>, k: nat, node: U32,
        oid: U32)
    requires Indexed(s) && k <= |events|
    ensures Entered(Run(s, types, events[..k]), node, oid) <==>
            NodeAt(s, events, k, oid) == Some(node) && Secure(s, events, k, node, oid)
    decreases k
  {
    hide DoesTo, Run, Applied, IsOf, Entered, TakesAway, Secure, Indexed;
    if k == 0 {
      SecureAtStart(s, events, node, oid);
      RunNone(s, types, events);
    } else {
      EnteredAfter(s, types, events, k - 1, node, oid);
      RunLast(s, types, events, k - 1);
      if IsOf(events[k - 1], oid) {
        IndexedAt(s, types, events, k - 1);
        OwnEntry(Run(s, types, events[..k - 1]), types, events[k - 1], node, oid);
        OwnMakesSecure(s, events, k - 1, node, oid);
        OwnDoes(events[k - 1], oid);
      } else {
        TakesIs(s, types, events, k - 1, node, oid);
        OtherKeepsSecure(s, events, k - 1, node, oid);
      }
    }
  }

  lemma OwnDoes(e: Event, oid: U32)
    requires IsOf(e, oid)
    ensures DoesTo(e) == Drops(oid) || (DoesTo(e).Puts? && DoesTo(e).oid == oid)
  {
  }

  lemma RunNone(s: State, types: map<U32, TypeInfo>, events: seq<Event>)
    ensures Run(s, types, events[..0]) == s
  {
  }

  /** After any rows, a live table with columns is found under its node if and only if it was entered from
      the start or by a row of its own, and no row since then stored another class under the node or let
      another class leave it. */
  lemma FoundIff(s: State, types: map<U32, TypeInfo>, events: seq<Event>, oid: U32)
    requires Indexed(s)
    requires var t := Run(s, types, events);
             oid in t.classes && t.classes[oid].relNode != 0 && t.classes[oid].kind in {"r", "p", ""}
             && oid in t.attrs && t.attrs[oid] != map[]
    ensures var t := Run(s, types, events);
            var node := t.classes[oid].relNode;
            var r := UserRelation(t, types, node);
            && NodeAt(s, events, |events|, oid) == Some(node)
            && (r.Some? && r.value.oid == oid && r.value.cols == Columns(t.attrs[oid], types) <==>
                Secure(s, events, |events|, node, oid))
  {
    hide Run, Columns, NodeAt, Secure, TakesAway;
    assert events[..|events|] == events;
    var node := Run(s, types, events).classes[oid].relNode;
    NodeAfter(s, types, events, |events|, oid);
    EnteredAfter(s, types, events, |events|, node, oid);
    RunKeepsIndex(s, types, events);
  }

  // ---- Two tables that exchange their nodes ----

  /** The fields of a class row that name a class and its file node. */
  function NodeRow(oid: U32, node: U32): Row {
    map["oid" := Decimal(oid), "relfilenode" := Decimal(node)]
  }

  lemma NodeRowDoes(oid: U32, node: U32)
    requires oid != 0 && node != 0
    ensures DoesTo(ClassEvent("UPDATE", map[], NodeRow(oid, node))) == Puts(oid, node)
  {
    hide ParseU32, Decimal;
    NumbersAreRead(oid);
    NumbersAreRead(node);
    assert Field(NodeRow(oid, node), "relkind") == "" && Field(NodeRow(oid, node), "relname") == "";
  }

  lemma PutsTo(s: State, types: map<U32, TypeInfo>, e: Event)
    requires DoesTo(e).Puts?
    ensures var oid, node := DoesTo(e).oid, DoesTo(e).node;
            var t := Applied(s, types, e);
            && t.attrs == s.attrs
            && oid in t.classes && t.classes[oid].relNode == node
            && (forall o :: o != oid ==> NodeIn(t, o) == NodeIn(s, o))
            && t.nodeToOid == (if NodeIn(s, oid).Some? && NodeIn(s, oid).value !in {0, node}
                               then Without(s.nodeToOid, NodeIn(s, oid).value) else s.nodeToOid)[node := oid]
  {
    hide ParseU32, Trim, IsCatalogRelName, IsUserRelkind;
  }

  lemma RunTwo(s: State, types: map<U32, TypeInfo>, one: Event, two: Event)
    ensures Run(s, types, [one, two]) == Applied(Applied(s, types, one), types, two)
  {
    hide Applied;
    var t := Applied(s, types, one);
    assert [one, two][1..] == [two] && [two][1..] == [];
    assert Run(t, types, [two]) == Run(Applied(t, types, two), types, []);
  }

  /** When two tables exchange their nodes one row after the other, the first one is no longer found. */
  lemma ExchangeHides(s: State, types: map<U32, TypeInfo>, one: Event, two: Event, a: U32, b: U32, x: U32, y: U32)
    requires a != b && x != y && x != 0 && y != 0 && NodeIn(s, a) == Some(x) && NodeIn(s, b) == Some(y)
    requires DoesTo(one) == Puts(a, y) && DoesTo(two) == Puts(b, x)
    ensures var t := Run(s, types, [one, two]);
            NodeIn(t, a) == Some(y) && UserRelation(t, types, y).None? && t.attrs == s.attrs
  {
    hide DoesTo, Applied, Columns, Run;
    RunTwo(s, types, one, two);
    PutsTo(s, types, one);
    PutsTo(Applied(s, types, one), types, two);
  }

  /** As when tables 1 and 2 of a snapshot exchange nodes 5 and 6. */
  lemma ExchangedTableIsLost(types: map<U32, TypeInfo>, cols: map<int, Attr>)
    requires cols != map[]
    ensures var s := Snapshot([Wanted(false, 1, 5, 0, "t", cols), Wanted(false, 2, 6, 0, "u", cols)]);
            var t := Run(s, types, [ClassEvent("UPDATE", map[], NodeRow(1, 6)),
                                    ClassEvent("UPDATE", map[], NodeRow(2, 5))]);
            && NodeIn(t, 1) == Some(6) && 1 in t.attrs && t.attrs[1] == cols
            && UserRelation(t, types, 6) == None
  {
    hide Run, DoesTo, NodeRow, Columns, UserRelation;
    var one, two := Wanted(false, 1, 5, 0, "t", cols), Wanted(false, 2, 6, 0, "u", cols);
    assert [one][..0] == [] && [one, two][..1] == [one];
    assert Snapshot([one]) == Taken(EMPTY, one);
    var s := Snapshot([one, two]);
    assert s == Taken(Snapshot([one]), two);
    NodeRowDoes(1, 6);
    NodeRowDoes(2, 5);
    ExchangeHides(s, types, ClassEvent("UPDATE", map[], NodeRow(1, 6)), ClassEvent("UPDATE", map[], NodeRow(2, 5)),
                  1, 2, 5, 6);
  }

  // ---- The snapshot ----

  predicate Live(w: Wanted) {
    !w.missing && w.oid != 0
  }

  /** Table `i` of the snapshot is the last live one under its node. */
  predicate LastUnder(wanted: seq<Wanted>, i: nat, node: U32)
    requires i < |wanted|
  {
    Live(wanted[i]) && wanted[i].relNode == node
    && forall k :: i < k < |wanted| && Live(wanted[k]) ==> wanted[k].relNode != node
  }

  /** Its oid is taken again later, with another node. */
  predicate TakenAgain(wanted: seq<Wanted>, i: nat)
    requires i < |wanted|
  {
    exists j :: i < j < |wanted| && Live(wanted[j]) && wanted[j].oid == wanted[i].oid
      && wanted[j].relNode != wanted[i].relNode
  }

  lemma {:induction false} EntryOf(wanted: seq<Wanted>, i: nat, node: U32)
    requires i < |wanted| && node != 0 && LastUnder(wanted, i, node)
    ensures Entered(Snapshot(wanted), node, wanted[i].oid)
    decreases |wanted|
  {
    var most := wanted[..|wanted| - 1];
    if i < |most| { EntryOf(most, i, node); }
  }

  lemma {:induction false} NodeOf(wanted: seq<Wanted>, j: nat)
    requires j < |wanted| && Live(wanted[j])
    requires forall k :: j < k < |wanted| && Live(wanted[k]) ==> wanted[k].oid != wanted[j].oid
    ensures NodeIn(Snapshot(wanted), wanted[j].oid) == Some(wanted[j].relNode)
    decreases |wanted|
  {
    var most := wanted[..|wanted| - 1];
    if j < |most| { NodeOf(most, j); }
  }

  lemma {:induction false} EntryFrom(wanted: seq<Wanted>, node: U32) returns (i: nat)
    requires node in Snapshot(wanted).nodeToOid
    ensures i < |wanted| && node != 0 && LastUnder(wanted, i, node)
    decreases |wanted|
  {
    var last := wanted[|wanted| - 1];
    if Live(last) && last.relNode == node {
      i := |wanted| - 1;
      SnapshotNodes(wanted);
    } else {
      i := EntryFrom(wanted[..|wanted| - 1], node);
    }
  }

  lemma {:induction false} SnapshotNodes(wanted: seq<Wanted>)
    ensures 0 !in Snapshot(wanted).nodeToOid
    decreases |wanted|
  {
    if wanted != [] { SnapshotNodes(wanted[..|wanted| - 1]); }
  }

  lemma {:induction false} LastOf(wanted: seq<Wanted>, i: nat) returns (j: nat)
    requires i < |wanted| && Live(wanted[i])
    ensures i <= j < |wanted| && Live(wanted[j]) && wanted[j].oid == wanted[i].oid
    ensures forall k :: j < k < |wanted| && Live(wanted[k]) ==> wanted[k].oid != wanted[j].oid
    decreases |wanted| - i
  {
    if k :| i < k < |wanted| && Live(wanted[k]) && wanted[k].oid == wanted[i].oid {
      j := LastOf(wanted, k);
    } else {
      j := i;
    }
  }

  /** An index entry of the snapshot leads to a class that is not under its node if and only if the oid it
      was last written for is taken again later in the list, with another node. */
  lemma StaleIff(wanted: seq<Wanted>, i: nat, node: U32)
    requires i < |wanted| && node != 0 && LastUnder(wanted, i, node)
    ensures var s := Snapshot(wanted);
            Entered(s, node, wanted[i].oid) && wanted[i].oid in s.classes
            && (s.classes[wanted[i].oid].relNode != node <==> TakenAgain(wanted, i))
  {
    hide Snapshot, Live;
    EntryOf(wanted, i, node);
    var j := LastOf(wanted, i);
    NodeOf(wanted, j);
  }

  /** So the snapshot's index is sound exactly when no table is the last under its node and taken again. */
  lemma SnapshotSoundIff(wanted: seq<Wanted>)
    ensures var s := Snapshot(wanted);
            (forall n :: n in s.nodeToOid ==> NodeIn(s, s.nodeToOid[n]) == Some(n)) <==>
            forall i :: 0 <= i < |wanted| && wanted[i].relNode != 0 && LastUnder(wanted, i, wanted[i].relNode) ==>
                          !TakenAgain(wanted, i)
  {
    hide Snapshot, Live, TakenAgain, LastUnder;
    var s := Snapshot(wanted);
    forall i | 0 <= i < |wanted| && wanted[i].relNode != 0 && LastUnder(wanted, i, wanted[i].relNode)
      ensures Entered(s, wanted[i].relNode, wanted[i].oid)
      ensures TakenAgain(wanted, i) <==> NodeIn(s, wanted[i].oid) != Some(wanted[i].relNode)
    {
      StaleIff(wanted, i, wanted[i].relNode);
    }
    forall n | n in s.nodeToOid
      ensures exists i ::
                0 <= i < |wanted| && n == wanted[i].relNode && n != 0 && LastUnder(wanted, i, wanted[i].relNode)
    {
      var i := EntryFrom(wanted, n);
      LastIsUnder(wanted, i, n);
    }
  }

  lemma LastIsUnder(wanted: seq<Wanted>, i: nat, node: U32)
    requires i < |wanted| && LastUnder(wanted, i, node)
    ensures wanted[i].relNode == node
  {
  }
}
