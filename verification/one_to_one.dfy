/**
  Reconciliation of a one-to-one relation owned by the related model: the
  parent's current related row is unlinked (or deleted) unless the request
  names it by `pk`, then the requested row is updated or created and linked
  to the parent. Errors of the nested serializer are merged into one
  dictionary for the relation.
 */
module OneToOne {
  import opened Store

  /** A dictionary item is truthy when it holds any key at all. */
  predicate Truthy(p: Payload) {
    p.pk.Some? || p.fields != map[]
  }

  /** The keys excluded from the detach phase: the item's `pk`, if any. */
  function Keep(p: Payload): set<Pk> {
    if p.pk.Some? then {p.pk.value} else {}
  }

  /** The relation's table afterwards and the merged error dictionary. */
  datatype Placed = Placed(table: Table, errors: Messages)

  /** Linking a new row to `parent` adds exactly that row to the parent's rows. */
  lemma CreateLinks(t: Table, parent: Pk, f: Fields)
    ensures Linked(Create(t, Ref(parent), f), parent) == Linked(t, parent) + {t.next}
  {
    var c := Create(t, Ref(parent), f);
    forall k | k in Linked(c, parent) ensures k in Linked(t, parent) + {t.next} {
      if k != t.next {
        assert k in t.rows && c.rows[k] == t.rows[k];
      }
    }
  }

  /** Updating a row already linked to `parent` keeps the parent's rows. */
  lemma UpdateKeepsLinked(t: Table, parent: Pk, k: Pk, f: Fields)
    requires k in Linked(t, parent)
    ensures Linked(Update(t, k, Ref(parent), f), parent) == Linked(t, parent)
  {
    var u := Update(t, k, Ref(parent), f);
    forall j | j in Linked(u, parent) ensures j in Linked(t, parent) {
      if j != k {
        assert u.rows[j] == t.rows[j];
      }
    }
  }

  /**
    The item is stored: an item without `pk`, or whose `pk` is not (or no
    longer) linked to the parent, is created with the parent as its inverse;
    otherwise the linked row is updated.
   */
  function Place(d: Table, parent: Pk, p: Payload): (r: Table)
    ensures p.pk.Some? && p.pk.value in Linked(d, parent) ==>
              r.rows.Keys == d.rows.Keys && r.rows[p.pk.value].link == Ref(parent)
              && Linked(r, parent) == Linked(d, parent)
    ensures !(p.pk.Some? && p.pk.value in Linked(d, parent)) ==>
              r.rows.Keys == d.rows.Keys + {d.next} && r.rows[d.next] == Row(Ref(parent), p.fields)
              && Linked(r, parent) == Linked(d, parent) + {d.next}
    ensures forall k :: k in d.rows && !(p.pk == Some(k)) ==> r.rows[k] == d.rows[k]
    // a `pk` naming a row of another parent leaves that row alone: a new row is created instead
    ensures !(p.pk.Some? && p.pk.value in Linked(d, parent)) ==> forall k :: k in d.rows ==> r.rows[k] == d.rows[k]
  {
    if p.pk.Some? && p.pk.value in Linked(d, parent) then
      UpdateKeepsLinked(d, parent, p.pk.value, p.fields);
      Update(d, p.pk.value, Ref(parent), p.fields)
    else
      CreateLinks(d, parent, p.fields);
      Create(d, Ref(parent), p.fields)
  }

  /** The item makes the assignment raise. */
  predicate Crashes(c: Child, serialized: bool) {
    c.Object? || (Truthy(c.payload) && (!serialized || c.payload.verdict.Crash?))
  }

  /** The parent's rows after storing an accepted item: the one row it names or creates. */
  function Target(d: Table, parent: Pk, p: Payload): Pk {
    if p.pk.Some? && p.pk.value in Linked(d, parent) then p.pk.value else d.next
  }

  /** After the detach phase at most the named row is linked, so storing leaves exactly one. */
  lemma PlaceLinksOne(d: Table, parent: Pk, p: Payload)
    requires Linked(d, parent) <= Keep(p)
    ensures Linked(Place(d, parent, p), parent) == {Target(d, parent, p)}
    ensures var k := Target(d, parent, p); forall f :: f in p.fields ==>
              f in Place(d, parent, p).rows[k].fields && Place(d, parent, p).rows[k].fields[f] == p.fields[f]
  {
    if p.pk.Some? && p.pk.value in Linked(d, parent) {
      assert Linked(d, parent) == {p.pk.value};
    } else {
      assert Linked(d, parent) == {};
    }
  }

  /** The assignment of a dictionary item, after the detach phase. */
  function AssignData(t: Table, parent: Pk, p: Payload, inverse: InverseField, serialized: bool): (r: Outcome<Placed>)
    ensures r.Abort? <==> Crashes(Data(p), serialized)
    ensures r.Done? && !Truthy(p) ==> Linked(r.value.table, parent) == {} && r.value.errors == map[]
    ensures r.Done? && Truthy(p) && p.verdict.Accept? ==>
              r.value.errors == map[] && Linked(r.value.table, parent) == {Target(Detach(t, parent, Keep(p), inverse, None), parent, p)}
    ensures r.Done? && Truthy(p) && p.verdict.Reject? ==>
              r.value.errors == p.verdict.messages && Linked(r.value.table, parent) == Linked(t, parent) * Keep(p)
    ensures r.Done? ==> r.value.table.next >= t.next
  {
    var d := Detach(t, parent, Keep(p), inverse, None);
    if !Truthy(p) then Done(Placed(d, map[]))
    else if !serialized then Abort
    else match p.verdict
      case Crash => Abort
      case Reject(m) => Done(Placed(d, m))
      case Accept =>
        PlaceLinksOne(d, parent, p);
        Done(Placed(Place(d, parent, p), map[]))
  }

  /** The messages an item carries on its own: those of a truthy rejected dictionary, and none otherwise. */
  function ItemErrors(item: Option<Child>): Messages {
    if item.Some? && Truthy(item.value.payload) && item.value.payload.verdict.Reject? then
      item.value.payload.verdict.messages
    else map[]
  }

  /**
    The whole one-to-one assignment. A model object in place of a dictionary
    makes the membership test on it raise; a truthy item whose field is not
    a nested serializer has no `create` and raises as well.
   */
  function Assign(t: Table, parent: Pk, item: Option<Child>, inverse: InverseField, serialized: bool): (r: Outcome<Placed>)
    ensures r.Abort? <==> item.Some? && Crashes(item.value, serialized)
    ensures r.Done? ==> r.value.errors == ItemErrors(item)
    ensures r.Done? && (item.None? || !Truthy(item.value.payload)) ==>
              Linked(r.value.table, parent) == {} && r.value.errors == map[]
    ensures r.Done? && item.Some? && Truthy(item.value.payload) && item.value.payload.verdict.Accept? ==>
              r.value.errors == map[] && |Linked(r.value.table, parent)| == 1
    ensures r.Done? && item.Some? && Truthy(item.value.payload) && item.value.payload.verdict.Reject? ==>
              r.value.errors == item.value.payload.verdict.messages
              && Linked(r.value.table, parent) == Linked(t, parent) * Keep(item.value.payload)
    ensures r.Done? ==> r.value.table.next >= t.next
  {
    match item
    case None => Done(Placed(Detach(t, parent, {}, inverse, None), map[]))
    case Some(Object(_)) => Abort
    case Some(Data(p)) => AssignData(t, parent, p, inverse, serialized)
  }

  /** The key the detach phase spares: the item's `pk`, if there is an item. */
  function KeepOf(item: Option<Child>): set<Pk> {
    if item.Some? then Keep(item.value.payload) else {}
  }

  /**
    The parent's previous related row, unless the item names it, ends
    nulled, blanked or deleted as the inverse field allows; rows that are
    not linked to the parent keep their contents, even one the item names.
   */
  lemma DetachedRowFollowsInverse(t: Table, parent: Pk, item: Option<Child>, inverse: InverseField, serialized: bool)
    ensures Assign(t, parent, item, inverse, serialized).Done? ==>
      var r := Assign(t, parent, item, inverse, serialized).value.table;
      && (forall k :: k in t.rows && t.rows[k].link != Ref(parent) ==> k in r.rows && r.rows[k] == t.rows[k])
      && (forall k :: Stale(t, parent, KeepOf(item), k) && inverse.nullable ==>
            k in r.rows && r.rows[k] == Row(Null, t.rows[k].fields))
      && (forall k :: Stale(t, parent, KeepOf(item), k) && !inverse.nullable && inverse.blank ==>
            k in r.rows && r.rows[k] == Row(Blank, t.rows[k].fields))
      && (forall k :: Stale(t, parent, KeepOf(item), k) && !inverse.nullable && !inverse.blank ==>
            k !in r.rows)
  {
    if Assign(t, parent, item, inverse, serialized).Done? {
      var d := Detach(t, parent, KeepOf(item), inverse, None);
      var r := Assign(t, parent, item, inverse, serialized).value.table;
      assert r.rows.Keys <= d.rows.Keys + {d.next};
      forall k | k in t.rows && !(k in Linked(t, parent) && k in KeepOf(item))
        ensures k in r.rows <==> k in d.rows
        ensures k in r.rows ==> r.rows[k] == d.rows[k]
      {
        assert k < d.next;
      }
    }
  }

  /** The parent is never left with more than one related row. */
  lemma AtMostOneRelated(t: Table, parent: Pk, item: Option<Child>, inverse: InverseField, serialized: bool)
    requires Assign(t, parent, item, inverse, serialized).Done?
    ensures |Linked(Assign(t, parent, item, inverse, serialized).value.table, parent)| <= 1
  {
    var r := Assign(t, parent, item, inverse, serialized).value;
    if item.Some? && Truthy(item.value.payload) && item.value.payload.verdict.Reject? {
      var k := Keep(item.value.payload);
      assert |k| <= 1;
      assert Linked(r.table, parent) <= k;
      SubsetCard(Linked(r.table, parent), k);
    }
  }

  lemma SubsetCard(a: set<Pk>, b: set<Pk>)
    requires a <= b
    ensures |a| <= |b|
  {
    assert b == a + (b - a);
  }

  /**
    Resending the row the parent already has keeps every key of the table:
    nothing is created and, with a nullable or blank inverse, nothing is
    deleted; the parent stays linked to exactly that row.
   */
  lemma ResendingLinkedRowKeepsKeys(t: Table, parent: Pk, p: Payload, inverse: InverseField)
    requires p.pk.Some? && p.pk.value in Linked(t, parent) && p.verdict.Accept?
    requires inverse.nullable || inverse.blank
    ensures Assign(t, parent, Some(Data(p)), inverse, true).Done?
    ensures Assign(t, parent, Some(Data(p)), inverse, true).value.table.rows.Keys == t.rows.Keys
    ensures Linked(Assign(t, parent, Some(Data(p)), inverse, true).value.table, parent) == {p.pk.value}
  {
    var d := Detach(t, parent, Keep(p), inverse, None);
    assert p.pk.value in Linked(d, parent);
    assert d.rows.Keys == t.rows.Keys;
  }
}
