/**
  The serializer's entry point: split the validated data by relation kind,
  resolve the many-to-one relations, store the parent, reconcile the other
  four kinds against it, and report every relation's errors together.
 */
module Assignments {
  import opened Store
  import ErrorTrail
  import Extract
  import OneToMany
  import ManyToOne
  import ManyToManyThrough
  import ManyToManyDirect
  import OneToOne

  type Schema = map<string, Relation>

  type Errors = map<string, Report>

  /** The database and the errors collected so far. */
  datatype Pass = Pass(db: Db, errors: Errors)

  /** The two relation kinds whose errors are per-item lists. */
  datatype ListKind = OneToManyList | ThroughList

  /** What a list-valued relation reports for its items, independent of the table. */
  function ListErrors(kind: ListKind, rel: Relation, cs: seq<Child>): seq<Messages> {
    match kind
    case OneToManyList => ErrorTrail.Truncate(OneToMany.Entries(cs, rel.serialized))
    case ThroughList =>
      if forall i :: 0 <= i < |cs| ==> cs[i].Data? then
        ErrorTrail.Truncate(ManyToManyThrough.Entries(ManyToManyThrough.Payloads(cs)))
      else []
  }

  /** One list-valued relation reconciled against its table. */
  function AssignList(kind: ListKind, t: Table, parent: Pk, rel: Relation, cs: seq<Child>): (r: Outcome<ErrorTrail.Applied>)
    ensures r.Done? ==> r.value.errors == ListErrors(kind, rel, cs)
  {
    match kind
    case OneToManyList => OneToMany.Assign(t, parent, cs, rel.inverse, rel.serialized, rel.filter)
    case ThroughList => ManyToManyThrough.Assign(t, parent, cs, rel.inverse, rel.serialized, rel.right)
  }

  /** What the rest of a bucket keeps of the bucket's facts. */
  lemma BucketTail(bucket: seq<(string, Datum)>)
    requires |bucket| > 0
    ensures Names(bucket) == {bucket[0].0} + Names(bucket[1..])
    ensures forall i :: 1 <= i < |bucket| ==> bucket[i] == bucket[1..][i - 1]
    ensures Extract.Distinct(bucket) ==> Extract.Distinct(bucket[1..]) && bucket[0].0 !in Names(bucket[1..])
  {
    NamesMembers(bucket[1..]);
  }

  /** The list-valued relations of one kind, each with its own error list. */
  function ProcessLists(kind: ListKind, db: Db, schema: Schema, parent: Pk, bucket: seq<(string, Datum)>, errors: Errors)
    : (r: Outcome<Pass>)
    ensures r.Done? ==> r.value.db.parents == db.parents && r.value.db.links == db.links
    ensures r.Done? ==> r.value.db.related.Keys == db.related.Keys
    ensures r.Done? ==> forall n :: n in db.related && n !in Names(bucket) ==> r.value.db.related[n] == db.related[n]
    ensures r.Done? ==> forall n :: n !in Names(bucket) ==>
              (n in r.value.errors <==> n in errors) && (n in errors ==> r.value.errors[n] == errors[n])
    decreases |bucket|
  {
    if |bucket| == 0 then Done(Pass(db, errors))
    else
      var (name, datum) := bucket[0];
      if name !in schema || name !in db.related || !datum.Many? then Abort
      else
        match AssignList(kind, db.related[name], parent, schema[name], datum.items)
        case Abort => Abort
        case Done(a) =>
          var db' := db.(related := db.related[name := a.table]);
          var errors' := if a.errors != [] then errors[name := Each(a.errors)] else errors;
          BucketTail(bucket);
          ProcessLists(kind, db', schema, parent, bucket[1..], errors')
  }

  /**
    With one list per relation, a relation's key is reported exactly when
    its own items left errors, and then with exactly those errors.
   */
  lemma {:induction false} ReportsOwnErrors(kind: ListKind, db: Db, schema: Schema, parent: Pk,
                                            bucket: seq<(string, Datum)>, errors: Errors, i: nat)
    requires ProcessLists(kind, db, schema, parent, bucket, errors).Done?
    requires Extract.Distinct(bucket) && i < |bucket| && bucket[i].0 !in errors
    ensures var r := ProcessLists(kind, db, schema, parent, bucket, errors).value;
      var (n, d) := bucket[i];
      && n in schema && d.Many?
      && (n in r.errors <==> ListErrors(kind, schema[n], d.items) != [])
      && (n in r.errors ==> r.errors[n] == Each(ListErrors(kind, schema[n], d.items)))
    decreases |bucket|
  {
    var (name, datum) := bucket[0];
    var a := AssignList(kind, db.related[name], parent, schema[name], datum.items).value;
    var db' := db.(related := db.related[name := a.table]);
    var errors' := if a.errors != [] then errors[name := Each(a.errors)] else errors;
    BucketTail(bucket);
    if i > 0 {
      ReportsOwnErrors(kind, db', schema, parent, bucket[1..], errors', i - 1);
    }
  }

  /** `result` is the table the relation's own reconciliation leaves when it does not abort. */
  predicate ListTableOf(kind: ListKind, t: Table, parent: Pk, rel: Relation, cs: seq<Child>, result: Table) {
    AssignList(kind, t, parent, rel, cs).Done? && result == AssignList(kind, t, parent, rel, cs).value.table
  }

  /**
    Each relation of the bucket ends with exactly the table its own
    reconciliation produces from the table it held when the loop started.
   */
  lemma {:induction false} ListTablesAreOwn(kind: ListKind, db: Db, schema: Schema, parent: Pk,
                                            bucket: seq<(string, Datum)>, errors: Errors, i: nat)
    requires ProcessLists(kind, db, schema, parent, bucket, errors).Done?
    requires Extract.Distinct(bucket) && i < |bucket|
    ensures var r := ProcessLists(kind, db, schema, parent, bucket, errors).value;
      var (n, d) := bucket[i];
      && n in schema && n in db.related && d.Many? && n in r.db.related
      && ListTableOf(kind, db.related[n], parent, schema[n], d.items, r.db.related[n])
    decreases |bucket|
  {
    var (name, datum) := bucket[0];
    var a := AssignList(kind, db.related[name], parent, schema[name], datum.items).value;
    var db' := db.(related := db.related[name := a.table]);
    var errors' := if a.errors != [] then errors[name := Each(a.errors)] else errors;
    BucketTail(bucket);
    if i > 0 {
      ListTablesAreOwn(kind, db', schema, parent, bucket[1..], errors', i - 1);
    }
  }

  /**
    The same loop as written in the source: ONE list is shared by all
    relations of the kind and stored, by reference, under every relation
    whose turn ends with the shared list non-empty. Every such key finally
    shows the errors of all relations, including relations with none.
   */
  function ProcessListsAsWritten(kind: ListKind, db: Db, schema: Schema, parent: Pk, bucket: seq<(string, Datum)>,
                                 errors: Errors, shared: seq<Messages>, aliased: set<string>)
    : (r: Outcome<Pass>)
    ensures r.Done? ==> r.value.db.parents == db.parents && r.value.db.links == db.links
    ensures r.Done? ==> forall n :: n in r.value.errors && n !in errors ==> n in aliased + Names(bucket)
    decreases |bucket|
  {
    if |bucket| == 0 then Done(Pass(db, errors + map n | n in aliased :: Each(shared)))
    else
      var (name, datum) := bucket[0];
      if name !in schema || name !in db.related || !datum.Many? then Abort
      else
        match AssignList(kind, db.related[name], parent, schema[name], datum.items)
        case Abort => Abort
        case Done(a) =>
          var shared' := shared + a.errors;
          var aliased' := if shared' != [] then aliased + {name} else aliased;
          ProcessListsAsWritten(kind, db.(related := db.related[name := a.table]), schema, parent, bucket[1..],
                                errors, shared', aliased')
  }

  /** A two-relation request: the first relation's only chapter is rejected, the second sends no pages. */
  function TwoRelationsDb(): Db {
    Db(TableState(map[], 0), map["chapters" := TableState(map[], 0), "pages" := TableState(map[], 0)], map[])
  }

  function TwoRelationsSchema(): Schema {
    map["chapters" := Relation(InverseField(false, false), true, None, ""),
        "pages" := Relation(InverseField(true, false), true, None, "")]
  }

  function RequiredTitle(): Messages {
    map["title" := ["This field is required."]]
  }

  function TwoRelationsBucket(): seq<(string, Datum)> {
    [("chapters", Many([Data(Payload(None, map[], Reject(RequiredTitle())))])), ("pages", Many([]))]
  }

  /** The rejected chapter is reported on its own, whatever the table holds. */
  lemma ChaptersReported(t: Table)
    ensures var a := AssignList(OneToManyList, t, 0, TwoRelationsSchema()["chapters"],
                                TwoRelationsBucket()[0].1.items);
      a.Done? && a.value.errors == [RequiredTitle()]
  {
    var e := RequiredTitle();
    var cs := TwoRelationsBucket()[0].1.items;
    assert "title" in e;
    assert OneToMany.Entries(cs, true) == [e];
  }

  /** A relation without items reports nothing. */
  lemma PagesReportNothing(t: Table)
    ensures var a := AssignList(OneToManyList, t, 0, TwoRelationsSchema()["pages"], []);
      a.Done? && a.value.errors == []
  {
    assert OneToMany.Entries([], true) == [];
  }

  /** The errors of the chapter, leaked under both relation keys. */
  function Leaked(): Errors {
    map["chapters" := Each([RequiredTitle()]), "pages" := Each([RequiredTitle()])]
  }

  /** End of the as-written loop: both keys alias the shared list. */
  lemma AsWrittenEnd(db: Db)
    ensures var r := ProcessListsAsWritten(OneToManyList, db, TwoRelationsSchema(), 0, [], map[], [RequiredTitle()],
                                           {"chapters", "pages"});
      r.Done? && r.value.errors == Leaked()
  {
    var aliased: set<string> := {"chapters", "pages"};
    var none: Errors := map[];
    assert (map n | n in aliased :: Each([RequiredTitle()])) == Leaked();
    assert none + Leaked() == Leaked();
  }

  /** The pages relation's turn: nothing of its own, yet it is keyed with the shared list. */
  lemma AsWrittenPages(db: Db)
    requires "pages" in db.related
    ensures var r := ProcessListsAsWritten(OneToManyList, db, TwoRelationsSchema(), 0, [("pages", Many([]))], map[],
                                           [RequiredTitle()], {"chapters"});
      r.Done? && r.value.errors == Leaked()
  {
    PagesReportNothing(db.related["pages"]);
    var b := AssignList(OneToManyList, db.related["pages"], 0, TwoRelationsSchema()["pages"], []);
    var db2 := db.(related := db.related["pages" := b.value.table]);
    AsWrittenEnd(db2);
    assert [RequiredTitle()] + [] == [RequiredTitle()];
    assert [("pages", Many([]))][1..] == [];
    assert {"chapters"} + {"pages"} == {"chapters", "pages"};
    assert ProcessListsAsWritten(OneToManyList, db, TwoRelationsSchema(), 0, [("pages", Many([]))], map[],
                                 [RequiredTitle()], {"chapters"})
        == ProcessListsAsWritten(OneToManyList, db2, TwoRelationsSchema(), 0, [], map[],
                                 [RequiredTitle()], {"chapters", "pages"});
  }

  /**
    As written, the error of the rejected chapter is also reported under
    `pages`, a relation whose items were all fine.
   */
  lemma SharedListLeaksErrors()
    ensures var r := ProcessListsAsWritten(OneToManyList, TwoRelationsDb(), TwoRelationsSchema(), 0,
                                           TwoRelationsBucket(), map[], [], {});
      r.Done? && r.value.errors == Leaked()
  {
    var db, schema, bucket := TwoRelationsDb(), TwoRelationsSchema(), TwoRelationsBucket();
    ChaptersReported(db.related["chapters"]);
    var a := AssignList(OneToManyList, db.related["chapters"], 0, schema["chapters"], bucket[0].1.items);
    var db1 := db.(related := db.related["chapters" := a.value.table]);
    AsWrittenPages(db1);
    assert bucket[1..] == [("pages", Many([]))];
    var none: set<string> := {};
    assert none + {"chapters"} == {"chapters"};
    assert [] + [RequiredTitle()] == [RequiredTitle()];
    assert ProcessListsAsWritten(OneToManyList, db, schema, 0, bucket, map[], [], {})
        == ProcessListsAsWritten(OneToManyList, db1, schema, 0, bucket[1..], map[], [RequiredTitle()], {"chapters"});
  }

  /** With one list per relation, only `chapters` is reported. */
  lemma OwnListsReportOnlyChapters()
    ensures var r := ProcessLists(OneToManyList, TwoRelationsDb(), TwoRelationsSchema(), 0, TwoRelationsBucket(), map[]);
      r.Done? && r.value.errors == map["chapters" := Each([RequiredTitle()])]
  {
    var db, schema, bucket, e := TwoRelationsDb(), TwoRelationsSchema(), TwoRelationsBucket(), RequiredTitle();
    ChaptersReported(db.related["chapters"]);
    var a := AssignList(OneToManyList, db.related["chapters"], 0, schema["chapters"], bucket[0].1.items);
    var db1 := db.(related := db.related["chapters" := a.value.table]);
    PagesReportNothing(db1.related["pages"]);
    var b := AssignList(OneToManyList, db1.related["pages"], 0, schema["pages"], []);
    var db2 := db1.(related := db1.related["pages" := b.value.table]);
    assert bucket[1..] == [("pages", Many([]))];
    assert bucket[1..][1..] == [];
    var errs := map["chapters" := Each([e])];
    assert ProcessLists(OneToManyList, db1, schema, 0, bucket[1..], errs)
        == ProcessLists(OneToManyList, db2, schema, 0, [], errs);
  }

  /** The join links of a direct relation; a relation without any has none. */
  function LinksOf(db: Db, n: string): set<(Pk, Pk)> {
    if n in db.links then db.links[n] else {}
  }

  /** Direct many-to-many relations; a field without a nested serializer is skipped. */
  function ProcessDirect(db: Db, schema: Schema, parent: Pk, bucket: seq<(string, Datum)>): (r: Outcome<Db>)
    ensures r.Done? ==> r.value.parents == db.parents
    ensures r.Done? ==> forall n :: n in db.related && n !in Names(bucket) ==> n in r.value.related && r.value.related[n] == db.related[n]
    ensures r.Done? ==> forall n :: n !in Names(bucket) ==>
              ((n in r.value.links <==> n in db.links) && (n in db.links ==> r.value.links[n] == db.links[n]))
    ensures r.Done? ==> forall i :: 0 <= i < |bucket| ==> bucket[i].0 in schema
    decreases |bucket|
  {
    if |bucket| == 0 then Done(db)
    else
      var (name, datum) := bucket[0];
      if name !in schema then Abort
      else if !schema[name].serialized then
        var r := ProcessDirect(db, schema, parent, bucket[1..]);
        assert forall i :: 1 <= i < |bucket| ==> bucket[i] == bucket[1..][i - 1];
        r
      else if name !in db.related || !datum.Many? then Abort
      else
        match ManyToManyDirect.Assign(db.related[name], LinksOf(db, name), parent, datum.items, true)
        case Abort => Abort
        case Done(l) =>
          var r := ProcessDirect(db.(related := db.related[name := l.table], links := db.links[name := l.links]),
                                 schema, parent, bucket[1..]);
          assert forall i :: 1 <= i < |bucket| ==> bucket[i] == bucket[1..][i - 1];
          r
  }

  /** One-to-one relations, each reporting one merged dictionary when it has errors. */
  function ProcessOneToOne(db: Db, schema: Schema, parent: Pk, bucket: seq<(string, Datum)>, errors: Errors)
    : (r: Outcome<Pass>)
    ensures r.Done? ==> r.value.db.parents == db.parents && r.value.db.links == db.links
    ensures r.Done? ==> forall n :: n in db.related && n !in Names(bucket) ==> n in r.value.db.related && r.value.db.related[n] == db.related[n]
    ensures r.Done? ==> forall n :: n !in Names(bucket) ==>
              (n in r.value.errors <==> n in errors) && (n in errors ==> r.value.errors[n] == errors[n])
    ensures r.Done? ==> forall n :: n in r.value.errors ==>
              (n in errors && r.value.errors[n] == errors[n])
              || (r.value.errors[n].Merged? && r.value.errors[n].messages != map[])
    decreases |bucket|
  {
    if |bucket| == 0 then Done(Pass(db, errors))
    else
      var (name, datum) := bucket[0];
      if name !in schema || name !in db.related || !datum.Single? then Abort
      else
        var rel := schema[name];
        match OneToOne.Assign(db.related[name], parent, datum.item, rel.inverse, rel.serialized)
        case Abort => Abort
        case Done(p) =>
          var errors' := if p.errors != map[] then errors[name := Merged(p.errors)] else errors;
          ProcessOneToOne(db.(related := db.related[name := p.table]), schema, parent, bucket[1..], errors')
  }

  /**
    Each direct relation with a nested serializer ends with exactly the table
    and join links its own reconciliation produces from what it held when the
    loop started; one without a serializer keeps both.
   */
  lemma {:induction false} DirectRelationsAreOwn(db: Db, schema: Schema, parent: Pk, bucket: seq<(string, Datum)>, i: nat)
    requires Extract.Distinct(bucket) && i < |bucket|
    ensures var r := ProcessDirect(db, schema, parent, bucket);
      var (n, d) := bucket[i];
      r.Done? ==>
        && n in schema
        && (schema[n].serialized ==>
              && n in db.related && d.Many?
              && ManyToManyDirect.Assign(db.related[n], LinksOf(db, n), parent, d.items, true).Done?
              && n in r.value.related && n in r.value.links
              && r.value.related[n] == ManyToManyDirect.Assign(db.related[n], LinksOf(db, n), parent, d.items, true).value.table
              && r.value.links[n] == ManyToManyDirect.Assign(db.related[n], LinksOf(db, n), parent, d.items, true).value.links)
        && (!schema[n].serialized ==>
              && (n in db.related ==> n in r.value.related && r.value.related[n] == db.related[n])
              && LinksOf(r.value, n) == LinksOf(db, n))
    decreases |bucket|
  {
    if ProcessDirect(db, schema, parent, bucket).Done? {
      var (name, datum) := bucket[0];
      BucketTail(bucket);
      if !schema[name].serialized {
        if i > 0 {
          DirectRelationsAreOwn(db, schema, parent, bucket[1..], i - 1);
        }
      } else {
        var l := ManyToManyDirect.Assign(db.related[name], LinksOf(db, name), parent, datum.items, true).value;
        var db' := db.(related := db.related[name := l.table], links := db.links[name := l.links]);
        if i > 0 {
          DirectRelationsAreOwn(db', schema, parent, bucket[1..], i - 1);
        }
      }
    }
  }

  /**
    Each one-to-one relation of the bucket ends with exactly the table its
    own assignment produces from the table it held when the loop started.
   */
  lemma {:induction false} OneToOneTablesAreOwn(db: Db, schema: Schema, parent: Pk,
                                                bucket: seq<(string, Datum)>, errors: Errors, i: nat)
    requires Extract.Distinct(bucket) && i < |bucket|
    ensures var r := ProcessOneToOne(db, schema, parent, bucket, errors);
      var (n, d) := bucket[i];
      r.Done? ==>
        && n in schema && n in db.related && d.Single?
        && OneToOne.Assign(db.related[n], parent, d.item, schema[n].inverse, schema[n].serialized).Done?
        && n in r.value.db.related
        && r.value.db.related[n] == OneToOne.Assign(db.related[n], parent, d.item, schema[n].inverse, schema[n].serialized).value.table
    decreases |bucket|
  {
    if ProcessOneToOne(db, schema, parent, bucket, errors).Done? {
      var (name, datum) := bucket[0];
      var rel := schema[name];
      var p := OneToOne.Assign(db.related[name], parent, datum.item, rel.inverse, rel.serialized).value;
      var db' := db.(related := db.related[name := p.table]);
      var errors' := if p.errors != map[] then errors[name := Merged(p.errors)] else errors;
      BucketTail(bucket);
      if i > 0 {
        OneToOneTablesAreOwn(db', schema, parent, bucket[1..], errors', i - 1);
      }
    }
  }

  /**
    A one-to-one relation's key is reported exactly when its own item
    carries errors, and then with exactly that item's messages: an accepted,
    empty or null item adds no key.
   */
  lemma {:induction false} OneToOneReportsOwnErrors(db: Db, schema: Schema, parent: Pk,
                                                    bucket: seq<(string, Datum)>, errors: Errors, i: nat)
    requires Extract.Distinct(bucket) && i < |bucket| && bucket[i].0 !in errors
    ensures var r := ProcessOneToOne(db, schema, parent, bucket, errors);
      var (n, d) := bucket[i];
      r.Done? ==>
        && n in schema && d.Single?
        && (n in r.value.errors <==> OneToOne.ItemErrors(d.item) != map[])
        && (n in r.value.errors ==> r.value.errors[n] == Merged(OneToOne.ItemErrors(d.item)))
    decreases |bucket|
  {
    if ProcessOneToOne(db, schema, parent, bucket, errors).Done? {
      var (name, datum) := bucket[0];
      var rel := schema[name];
      var p := OneToOne.Assign(db.related[name], parent, datum.item, rel.inverse, rel.serialized).value;
      var db' := db.(related := db.related[name := p.table]);
      var errors' := if p.errors != map[] then errors[name := Merged(p.errors)] else errors;
      BucketTail(bucket);
      if i > 0 {
        OneToOneReportsOwnErrors(db', schema, parent, bucket[1..], errors', i - 1);
      }
    }
  }

  /** How a request ends when nothing raised: the stored parent, or the collected errors. */
  datatype Result = Saved(db: Db, instance: Pk) | Invalid(db: Db, errors: Errors)

  /** The parent's own fields, present when every remaining value is a plain field. */
  function PlainFields(data: map<string, Datum>): Option<Fields> {
    if forall n :: n in data ==> data[n].Plain? then Some(map n | n in data :: data[n].value) else None
  }

  /**
    Stores the parent: a new row when there is no instance, otherwise the
    instance's row with the given fields overwritten (re-inserted if it is
    gone, as a model save does).
   */
  function StoreParent(t: Table, instance: Option<Pk>, fields: Fields): (r: (Table, Pk))
    ensures r.0.rows.Keys == t.rows.Keys + {r.1}
    ensures forall f :: f in fields ==> f in r.0.rows[r.1].fields && r.0.rows[r.1].fields[f] == fields[f]
    ensures forall k :: k in t.rows && k != r.1 ==> r.0.rows[k] == t.rows[k]
    ensures instance.None? ==> r.1 == t.next && r.1 !in t.rows
    ensures instance.Some? ==> r.1 == instance.value
  {
    match instance
    case None => (Create(t, Null, fields), t.next)
    case Some(k) =>
      if k in t.rows then (Update(t, k, t.rows[k].link, fields), k)
      else (Insert(t, k, Row(Null, fields)), k)
  }

  /** The four kinds handled after the parent is stored, in the source's order. */
  function AfterParent(db: Db, schema: Schema, parent: Pk, b: Extract.Buckets): (r: Outcome<Pass>)
    ensures r.Done? ==> r.value.db.parents == db.parents
    ensures r.Done? ==> r.value.errors.Keys <= Names(b.oneToMany) + Names(b.through) + Names(b.oneToOne)
  {
    match ProcessLists(OneToManyList, db, schema, parent, b.oneToMany, map[])
    case Abort => Abort
    case Done(p1) =>
      match ProcessLists(ThroughList, p1.db, schema, parent, b.through, p1.errors)
      case Abort => Abort
      case Done(p2) =>
        match ProcessDirect(p2.db, schema, parent, b.direct)
        case Abort => Abort
        case Done(db3) => ProcessOneToOne(db3, schema, parent, b.oneToOne, p2.errors)
  }

  /**
    Everything after the many-to-one stage: store the parent from the
    remaining plain fields, then handle the other kinds against it.
   */
  function StoreAndRelate(db: Db, schema: Schema, b: Extract.Buckets, data: map<string, Datum>, instance: Option<Pk>)
    : (r: Outcome<Result>)
    ensures r.Done? && r.value.Invalid? ==>
              r.value.errors != map[] && r.value.errors.Keys <= Names(b.oneToMany) + Names(b.through) + Names(b.oneToOne)
    ensures r.Done? && r.value.Saved? ==> r.value.instance in r.value.db.parents.rows
    ensures r.Done? && r.value.Saved? && instance.None? ==>
              r.value.instance !in db.parents.rows && r.value.db.parents.rows.Keys == db.parents.rows.Keys + {r.value.instance}
    ensures r.Done? && r.value.Saved? && instance.Some? ==> r.value.instance == instance.value
    ensures PlainFields(data).None? ==> r.Abort?
  {
    match PlainFields(data)
    case None => Abort
    case Some(fields) =>
      var (parents, k) := StoreParent(db.parents, instance, fields);
      match AfterParent(db.(parents := parents), schema, k, b)
      case Abort => Abort
      case Done(p) => if p.errors != map[] then Done(Invalid(p.db, p.errors)) else Done(Saved(p.db, k))
  }

  /**
    The whole request. A rejected many-to-one item stops it before the
    parent is stored; otherwise it ends Invalid exactly when some other
    relation's own items call for a report (`InvalidExactlyWhenReported`).
   */
  function ManageAssignments(db: Db, schema: Schema, decl: Extract.Declared, data: map<string, Datum>, instance: Option<Pk>)
    : (r: Outcome<Result>)
    ensures r.Done? && r.value.Invalid? ==> r.value.errors != map[] && r.value.errors.Keys <= data.Keys
    ensures r.Done? && r.value.Saved? ==> r.value.instance in r.value.db.parents.rows
    ensures r.Done? && r.value.Saved? && instance.None? ==>
              r.value.instance !in db.parents.rows && r.value.db.parents.rows.Keys == db.parents.rows.Keys + {r.value.instance}
    ensures r.Done? && r.value.Saved? && instance.Some? ==> r.value.instance == instance.value
  {
    var (b, rest) := Extract.Split(decl, data);
    match ManyToOne.Process(db, schema, b.manyToOne, rest)
    case Abort => Abort
    case Done(Refused(db1, errs)) => Done(Invalid(db1, errs))
    case Done(Proceed(db1, data1)) => StoreAndRelate(db1, schema, b, data1, instance)
  }

  /**
    A many-to-one item that is rejected ends the request before the parent
    is written: the parent table is the one the request started with, and
    only that relation is reported.
   */
  lemma RefusalStoresNoParent(db: Db, schema: Schema, decl: Extract.Declared, data: map<string, Datum>, instance: Option<Pk>)
    requires var (b, rest) := Extract.Split(decl, data);
      ManyToOne.Process(db, schema, b.manyToOne, rest).Done?
      && ManyToOne.Process(db, schema, b.manyToOne, rest).value.Refused?
    ensures var r := ManageAssignments(db, schema, decl, data, instance);
      r.Done? && r.value.Invalid? && r.value.db.parents == db.parents && |r.value.errors| == 1
  {
  }

  /**
    When the request is saved, the parent's row holds every plain field the
    request sent that is not a declared relation.
   */
  lemma SavedParentHoldsPlainFields(db: Db, schema: Schema, decl: Extract.Declared, data: map<string, Datum>,
                                    instance: Option<Pk>, n: string)
    requires ManageAssignments(db, schema, decl, data, instance).Done?
    requires ManageAssignments(db, schema, decl, data, instance).value.Saved?
    requires n in Extract.Split(decl, data).1
    ensures var r := ManageAssignments(db, schema, decl, data, instance).value;
      && data[n].Plain?
      && n in r.db.parents.rows[r.instance].fields
      && r.db.parents.rows[r.instance].fields[n] == data[n].value
  {
    var (b, rest) := Extract.Split(decl, data);
    var s := ManyToOne.Process(db, schema, b.manyToOne, rest);
    NamesMembers(b.manyToOne);
    assert n !in Names(b.manyToOne);
  }

  /**
    The report a relation's own items call for, read from the request data
    by the bucket the relation was sorted into: the truncated per-item list
    of a list-valued relation when it is not empty, the merged messages of a
    one-to-one item when there are any, and nothing otherwise.
   */
  function OwnReport(schema: Schema, b: Extract.Buckets, data: map<string, Datum>, n: string): Option<Report> {
    if n !in schema || n !in data then None
    else if n in Names(b.oneToMany) && data[n].Many? then
      var e := ListErrors(OneToManyList, schema[n], data[n].items);
      if e != [] then Some(Each(e)) else None
    else if n in Names(b.through) && data[n].Many? then
      var e := ListErrors(ThroughList, schema[n], data[n].items);
      if e != [] then Some(Each(e)) else None
    else if n in Names(b.oneToOne) && data[n].Single? then
      var m := OneToOne.ItemErrors(data[n].item);
      if m != map[] then Some(Merged(m)) else None
    else None
  }

  /**
    After the parent is stored, a relation is reported exactly when its own
    items call for a report, and with exactly that report.
   */
  lemma AfterParentReportsOwn(db: Db, schema: Schema, parent: Pk, b: Extract.Buckets, data: map<string, Datum>, n: string)
    requires Extract.Distinct(b.oneToMany) && Extract.Distinct(b.through) && Extract.Distinct(b.oneToOne)
    requires Extract.FromData(b.oneToMany, data) && Extract.FromData(b.through, data) && Extract.FromData(b.oneToOne, data)
    requires Names(b.oneToMany) !! Names(b.through) && Names(b.oneToMany) !! Names(b.oneToOne)
    requires Names(b.through) !! Names(b.oneToOne)
    ensures var r := AfterParent(db, schema, parent, b);
      r.Done? ==>
        && (n in r.value.errors <==> OwnReport(schema, b, data, n).Some?)
        && (n in r.value.errors ==> r.value.errors[n] == OwnReport(schema, b, data, n).value)
  {
    if AfterParent(db, schema, parent, b).Done? {
      var p1 := ProcessLists(OneToManyList, db, schema, parent, b.oneToMany, map[]).value;
      var p2 := ProcessLists(ThroughList, p1.db, schema, parent, b.through, p1.errors).value;
      var db3 := ProcessDirect(p2.db, schema, parent, b.direct).value;
      var p3 := ProcessOneToOne(db3, schema, parent, b.oneToOne, p2.errors).value;
      assert p3 == AfterParent(db, schema, parent, b).value;
      if n in Names(b.oneToMany) {
        NamesMembers(b.oneToMany);
        var i :| 0 <= i < |b.oneToMany| && b.oneToMany[i].0 == n;
        ReportsOwnErrors(OneToManyList, db, schema, parent, b.oneToMany, map[], i);
        assert n in p3.errors <==> n in p1.errors;
      } else if n in Names(b.through) {
        NamesMembers(b.through);
        var i :| 0 <= i < |b.through| && b.through[i].0 == n;
        ReportsOwnErrors(ThroughList, p1.db, schema, parent, b.through, p1.errors, i);
        assert n in p3.errors <==> n in p2.errors;
      } else if n in Names(b.oneToOne) {
        NamesMembers(b.oneToOne);
        var i :| 0 <= i < |b.oneToOne| && b.oneToOne[i].0 == n;
        OneToOneReportsOwnErrors(db3, schema, parent, b.oneToOne, p2.errors, i);
      } else {
        assert n !in p3.errors;
      }
    }
  }

  /**
    Once the many-to-one stage lets the request proceed, a relation whose
    own items call for a report makes the request Invalid under that
    relation's name, and an Invalid request reports nothing else.
   */
  lemma ReportedRelationInvalidates(db: Db, schema: Schema, decl: Extract.Declared, data: map<string, Datum>,
                                    instance: Option<Pk>, n: string)
    ensures var (b, rest) := Extract.Split(decl, data);
      var s := ManyToOne.Process(db, schema, b.manyToOne, rest);
      var r := ManageAssignments(db, schema, decl, data, instance);
      s.Done? && s.value.Proceed? && r.Done? ==>
        && (OwnReport(schema, b, data, n).Some? ==>
              r.value.Invalid? && n in r.value.errors && r.value.errors[n] == OwnReport(schema, b, data, n).value)
        && (r.value.Invalid? ==> (n in r.value.errors <==> OwnReport(schema, b, data, n).Some?))
  {
    var (b, rest) := Extract.Split(decl, data);
    var s := ManyToOne.Process(db, schema, b.manyToOne, rest);
    if s.Done? && s.value.Proceed? && ManageAssignments(db, schema, decl, data, instance).Done? {
      var db1 := s.value.db;
      assert ManageAssignments(db, schema, decl, data, instance) == StoreAndRelate(db1, schema, b, s.value.data, instance);
      var fields := PlainFields(s.value.data).value;
      var (parents, k) := StoreParent(db1.parents, instance, fields);
      Extract.SplitKindsApart(decl, data);
      AfterParentReportsOwn(db1.(parents := parents), schema, k, b, data, n);
    }
  }

  /**
    Once the many-to-one stage lets the request proceed, it ends Invalid
    exactly when some relation's own items call for a report, and Saved
    exactly when none does.
   */
  lemma InvalidExactlyWhenReported(db: Db, schema: Schema, decl: Extract.Declared, data: map<string, Datum>,
                                   instance: Option<Pk>)
    ensures var (b, rest) := Extract.Split(decl, data);
      var s := ManyToOne.Process(db, schema, b.manyToOne, rest);
      var r := ManageAssignments(db, schema, decl, data, instance);
      s.Done? && s.value.Proceed? && r.Done? ==>
        && (r.value.Invalid? <==> exists n :: OwnReport(schema, b, data, n).Some?)
        && (r.value.Saved? ==> forall n :: OwnReport(schema, b, data, n).None?)
  {
    var (b, rest) := Extract.Split(decl, data);
    var s := ManyToOne.Process(db, schema, b.manyToOne, rest);
    var r := ManageAssignments(db, schema, decl, data, instance);
    if s.Done? && s.value.Proceed? && r.Done? {
      if exists n :: OwnReport(schema, b, data, n).Some? {
        var n :| OwnReport(schema, b, data, n).Some?;
        ReportedRelationInvalidates(db, schema, decl, data, instance, n);
      }
      if r.value.Invalid? {
        var n :| n in r.value.errors;
        ReportedRelationInvalidates(db, schema, decl, data, instance, n);
      }
    }
  }
}
