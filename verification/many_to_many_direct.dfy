/**
  Reconciliation of a many-to-many relation without a join model: the
  parent's links are pairs (parent key, related key). Items with a `pk`
  update that related row, items without one create a row that is then
  linked; links to rows the request does not assign are removed. No error
  is recorded here: any failure propagates and aborts the request.
 */
module ManyToManyDirect {
  import opened Store

  /** The table after the loop and the keys of the rows it created. */
  datatype Collected = Collected(table: Table, added: set<Pk>)

  /**
    The loop over the items: an item with `pk` fetches that row, which must
    exist, and updates it; an item without one is validated and saved as a
    new row. Failure of either raises out of the loop.
   */
  function Collect(t: Table, cs: seq<Child>): (r: Outcome<Collected>)
    ensures (exists i :: 0 <= i < |cs| && (cs[i].Object? || !cs[i].payload.verdict.Accept?)) ==> r.Abort?
    ensures (exists i :: 0 <= i < |cs| && cs[i].payload.pk.Some?
              && cs[i].payload.pk.value !in t.rows && cs[i].payload.pk.value < t.next) ==> r.Abort?
    ensures r.Done? ==> t.rows.Keys <= r.value.table.rows.Keys && r.value.table.next >= t.next
    ensures r.Done? ==> r.value.added == r.value.table.rows.Keys - t.rows.Keys
    ensures r.Done? ==> forall k :: k in r.value.added ==> k >= t.next
    ensures r.Done? ==> forall k :: k in t.rows && k !in NamedPks(cs) ==> r.value.table.rows[k] == t.rows[k]
    decreases |cs|
  {
    if |cs| == 0 then Done(Collected(t, {}))
    else
      var c := cs[0];
      if c.Object? || !c.payload.verdict.Accept? then Abort
      else
        var p := c.payload;
        var t' := match p.pk
          case Some(k) => if k in t.rows then Update(t, k, t.rows[k].link, p.fields) else t
          case None => Create(t, Null, p.fields);
        if p.pk.Some? && p.pk.value !in t.rows then Abort
        else
          match Collect(t', cs[1..])
          case Abort =>
            assert forall i :: 1 <= i < |cs| ==> cs[i] == cs[1..][i - 1];
            Abort
          case Done(rest) =>
            assert forall i :: 1 <= i < |cs| ==> cs[i] == cs[1..][i - 1];
            Done(Collected(rest.table, (if p.pk.None? then {t.next} else {}) + rest.added))
  }

  /** Item `i` carries a `pk` that no later item repeats. */
  predicate LastToName(cs: seq<Child>, i: int) {
    0 <= i < |cs| && cs[i].payload.pk.Some? && forall j :: i < j < |cs| ==> cs[j].payload.pk != cs[i].payload.pk
  }

  /**
    An existing row the request names by `pk` is updated with the item's
    fields: after the loop it holds every field of the last item naming it.
   */
  lemma {:induction false} NamedRowHoldsFields(t: Table, cs: seq<Child>, i: nat)
    requires LastToName(cs, i)
    ensures var r := Collect(t, cs);
      var p := cs[i].payload;
      r.Done? ==>
        && p.pk.value in r.value.table.rows
        && forall f :: f in p.fields ==> f in r.value.table.rows[p.pk.value].fields
                                         && r.value.table.rows[p.pk.value].fields[f] == p.fields[f]
    decreases |cs|
  {
    if Collect(t, cs).Done? {
      var p := cs[0].payload;
      var t' := match p.pk
        case Some(k) => Update(t, k, t.rows[k].link, p.fields)
        case None => Create(t, Null, p.fields);
      assert Collect(t, cs).value.table == Collect(t', cs[1..]).value.table;
      if i == 0 {
        var k := p.pk.value;
        NamedPksMembers(cs[1..], k);
        assert k !in NamedPks(cs[1..]) by {
          forall j | 0 <= j < |cs[1..]| ensures cs[1..][j].payload.pk != Some(k) {
            assert cs[1..][j] == cs[j + 1];
          }
        }
      } else {
        assert LastToName(cs[1..], i - 1) by {
          forall j | i - 1 < j < |cs[1..]| ensures cs[1..][j].payload.pk != cs[1..][i - 1].payload.pk {
            assert cs[1..][j] == cs[j + 1];
          }
        }
        NamedRowHoldsFields(t', cs[1..], i - 1);
      }
    }
  }

  datatype Linking = Linking(table: Table, links: set<(Pk, Pk)>)

  /** Adds the parent's links to `added`, then drops its links outside `named`. */
  function Relink(links: set<(Pk, Pk)>, parent: Pk, named: set<Pk>, added: set<Pk>): set<(Pk, Pk)> {
    set pr | pr in links + (set a | a in added :: (parent, a)) && !(pr.0 == parent && pr.1 !in named)
  }

  /**
    Links the created rows to the parent, then removes every link of the
    parent to a row outside the assigned keys (the named and the created
    ones). Named rows that were not linked before stay unlinked.
   */
  function Assign(t: Table, links: set<(Pk, Pk)>, parent: Pk, cs: seq<Child>, serialized: bool): (r: Outcome<Linking>)
    ensures !serialized ==> r == Done(Linking(t, links))
    ensures serialized && (exists i :: 0 <= i < |cs| && (cs[i].Object? || !cs[i].payload.verdict.Accept?)) ==> r.Abort?
    ensures r.Done? && serialized ==> forall x ::
              (parent, x) in r.value.links <==>
                || ((parent, x) in links && x in NamedPks(cs))
                || x in r.value.table.rows.Keys - t.rows.Keys
    ensures r.Done? ==> forall q, x :: q != parent ==> ((q, x) in r.value.links <==> (q, x) in links)
    ensures r.Done? ==> t.rows.Keys <= r.value.table.rows.Keys
  {
    if !serialized then Done(Linking(t, links))
    else
      match Collect(t, cs)
      case Abort => Abort
      case Done(c) =>
        Done(Linking(c.table, Relink(links, parent, NamedPks(cs) + c.added, c.added)))
  }

  /** Every item carries a `pk` of an existing row and is accepted. */
  predicate NamesExisting(t: Table, cs: seq<Child>) {
    forall i :: 0 <= i < |cs| ==>
      (cs[i].Data? && cs[i].payload.verdict.Accept? && cs[i].payload.pk.Some? && cs[i].payload.pk.value in t.rows)
  }

  /** A request naming only existing rows creates none and keeps every key. */
  lemma {:induction false} CollectNamesExisting(t: Table, cs: seq<Child>)
    requires NamesExisting(t, cs)
    ensures Collect(t, cs).Done? && Collect(t, cs).value.added == {}
    ensures Collect(t, cs).value.table.rows.Keys == t.rows.Keys
    decreases |cs|
  {
    if |cs| > 0 {
      var p := cs[0].payload;
      var t' := Update(t, p.pk.value, t.rows[p.pk.value].link, p.fields);
      assert NamesExisting(t', cs[1..]) by {
        forall i | 0 <= i < |cs[1..]| ensures cs[1..][i].payload.pk.value in t'.rows {
          assert cs[1..][i] == cs[i + 1];
        }
      }
      CollectNamesExisting(t', cs[1..]);
    }
  }

  /**
    Sending back exactly the rows the parent is linked to leaves the links
    as they were: resubmitting a relation is idempotent on the link table.
   */
  lemma ResubmittingLinksKeepsThem(t: Table, links: set<(Pk, Pk)>, parent: Pk, cs: seq<Child>)
    requires NamesExisting(t, cs)
    requires forall x :: (parent, x) in links <==> x in NamedPks(cs)
    ensures Assign(t, links, parent, cs, true).Done?
    ensures Assign(t, links, parent, cs, true).value.links == links
  {
    CollectNamesExisting(t, cs);
  }
}
