/**
  Reconciliation of a many-to-one relation (a forward foreign key): the
  parent points at one related row, which must exist before the parent is
  stored. The request's item is created, or updated when its `pk` names an
  existing row; the resulting key replaces the item in the parent's data.
 */
module ManyToOne {
  import opened Store

  datatype Resolved = Resolved(table: Table, target: Option<Pk>, errors: seq<Messages>)

  /**
    Storing the related item. Without a serializer nothing happens. A null
    item or a model object makes the membership test on `pk` raise, which
    is re-raised. A rejected item records its messages and yields no row.
   */
  function Assign(t: Table, item: Option<Child>, serialized: bool): (r: Outcome<Resolved>)
    ensures !serialized ==> r == Done(Resolved(t, None, []))
    ensures serialized && (item.None? || item.value.Object?) ==> r.Abort?
    ensures serialized && item.Some? && item.value.Data? ==>
              var p := item.value.payload;
              && (r.Abort? <==> p.verdict.Crash?)
              && (p.verdict.Reject? ==> r == Done(Resolved(t, None, [p.verdict.messages])))
              && (p.verdict.Accept? ==> r.Done? && r.value.errors == [] && r.value.target.Some?)
    // an accepted item ends stored in the row the parent will point at
    ensures r.Done? && r.value.target.Some? ==>
              var k := r.value.target.value;
              var p := item.value.payload;
              && k in r.value.table.rows
              && (forall f :: f in p.fields ==> f in r.value.table.rows[k].fields && r.value.table.rows[k].fields[f] == p.fields[f])
              && (forall j :: j in t.rows && j != k ==> j in r.value.table.rows && r.value.table.rows[j] == t.rows[j])
    // the item's key is kept when it names an existing row, any row; otherwise the row is new
    ensures r.Done? && r.value.target.Some? ==>
              var p := item.value.payload;
              if p.pk.Some? && p.pk.value in t.rows then r.value.target == p.pk && r.value.table.rows.Keys == t.rows.Keys
              else r.value.target.value !in t.rows && r.value.table.rows.Keys == t.rows.Keys + {r.value.target.value}
  {
    if !serialized then Done(Resolved(t, None, []))
    else
      match item
      case None => Abort
      case Some(c) =>
        if c.Object? then Abort
        else
          var p := c.payload;
          match p.verdict
          case Crash => Abort
          case Reject(m) => Done(Resolved(t, None, [m]))
          case Accept =>
            if p.pk.Some? && p.pk.value in t.rows then
              var k := p.pk.value;
              Done(Resolved(Update(t, k, t.rows[k].link, p.fields), Some(k), []))
            else
              Done(Resolved(Create(t, Null, p.fields), Some(t.next), []))
  }

  /** Result of the many-to-one stage: go on with the rewritten data, or stop with errors. */
  datatype Stage = Proceed(db: Db, data: map<string, Datum>) | Refused(db: Db, errors: map<string, Report>)

  /** The value stored in the parent's data for the relation. */
  function Reference(target: Option<Pk>): Value {
    match target
    case None => Nothing
    case Some(k) => Key(k)
  }

  /** The relation is declared with a nested serializer, has a table, and carries a single item. */
  predicate Fits(related: set<string>, schema: map<string, Relation>, e: (string, Datum)) {
    e.0 in schema && e.0 in related && schema[e.0].serialized && e.1.Single?
  }

  /** The relation's item is a dictionary with the given kind of verdict. */
  predicate Accepted(e: (string, Datum)) {
    e.1.Single? && e.1.item.Some? && e.1.item.value.Data? && e.1.item.value.payload.verdict.Accept?
  }

  predicate Rejected(e: (string, Datum)) {
    e.1.Single? && e.1.item.Some? && e.1.item.value.Data? && e.1.item.value.payload.verdict.Reject?
  }

  /** Every relation before position `i` is stored without error. */
  predicate StoredBefore(related: set<string>, schema: map<string, Relation>, bucket: seq<(string, Datum)>, i: int) {
    forall j :: 0 <= j < i && j < |bucket| ==> Fits(related, schema, bucket[j]) && Accepted(bucket[j])
  }

  /**
    Processes the many-to-one relations in order. Each item's key replaces
    it in the data; the first relation that reports an error stops the
    request with that relation's errors alone, before the parent is stored.
   */
  function Process(db: Db, schema: map<string, Relation>, bucket: seq<(string, Datum)>, data: map<string, Datum>)
    : (r: Outcome<Stage>)
    ensures r.Done? ==> r.value.db.parents == db.parents && r.value.db.links == db.links
    ensures r.Done? && r.value.Refused? ==>
              && |r.value.errors| == 1
              && r.value.errors.Keys <= Names(bucket)
              && forall n :: n in r.value.errors ==> r.value.errors[n].Each? && r.value.errors[n].entries != []
    ensures r.Done? && r.value.Proceed? ==>
              && (forall n :: n in r.value.data <==> n in data || n in Names(bucket))
              && (forall n :: n in Names(bucket) ==> r.value.data[n].Plain?)
              && (forall n :: n in data && n !in Names(bucket) ==> r.value.data[n] == data[n])
    decreases |bucket|
  {
    if |bucket| == 0 then Done(Proceed(db, data))
    else
      var (name, datum) := bucket[0];
      if name !in schema || name !in db.related || !schema[name].serialized || !datum.Single? then Abort
      else
        var a := Assign(db.related[name], datum.item, true);
        if a.Abort? then Abort
        else
          var res := a.value;
          var db' := db.(related := db.related[name := res.table]);
          var data' := data[name := Plain(Reference(res.target))];
          if res.errors != [] then Done(Refused(db', map[name := Each(res.errors)]))
          else
            Process(db', schema, bucket[1..], data')
  }

  /** Every relation keeps its table, and a relation outside the bucket keeps its rows. */
  lemma {:induction false} ProcessKeepsOtherTables(db: Db, schema: map<string, Relation>, bucket: seq<(string, Datum)>,
                                                   data: map<string, Datum>, n: string)
    requires n in db.related
    ensures var r := Process(db, schema, bucket, data);
      r.Done? ==> n in r.value.db.related && (n !in Names(bucket) ==> r.value.db.related[n] == db.related[n])
    decreases |bucket|
  {
    var r := Process(db, schema, bucket, data);
    if |bucket| > 0 && r.Done? {
      var (name, datum) := bucket[0];
      var res := Assign(db.related[name], datum.item, true).value;
      var db' := db.(related := db.related[name := res.table]);
      var data' := data[name := Plain(Reference(res.target))];
      if res.errors == [] {
        assert r == Process(db', schema, bucket[1..], data');
        ProcessKeepsOtherTables(db', schema, bucket[1..], data', n);
      }
    }
  }

  /** The position of the first relation that is not stored without error, or the bucket's length. */
  function FirstUnstored(related: set<string>, schema: map<string, Relation>, bucket: seq<(string, Datum)>): (i: nat)
    ensures i <= |bucket| && StoredBefore(related, schema, bucket, i)
    ensures i < |bucket| ==> !(Fits(related, schema, bucket[i]) && Accepted(bucket[i]))
    decreases |bucket|
  {
    if |bucket| == 0 then 0
    else if Fits(related, schema, bucket[0]) && Accepted(bucket[0]) then
      var i := 1 + FirstUnstored(related, schema, bucket[1..]);
      assert forall j :: 1 <= j < |bucket| ==> bucket[j] == bucket[1..][j - 1];
      i
    else 0
  }

  /**
    The outcome is decided by the first relation not stored: none means the
    request proceeds, a rejected item refuses it under that relation's name
    with exactly its messages, and anything else aborts.
   */
  lemma {:induction false} FirstUnstoredDecides(db: Db, schema: map<string, Relation>, bucket: seq<(string, Datum)>,
                                                data: map<string, Datum>)
    ensures var r := Process(db, schema, bucket, data);
      var i := FirstUnstored(db.related.Keys, schema, bucket);
      && ((r.Done? && r.value.Proceed?) <==> i == |bucket|)
      && ((r.Done? && r.value.Refused?) <==> i < |bucket| && Fits(db.related.Keys, schema, bucket[i]) && Rejected(bucket[i]))
      && (r.Done? && r.value.Refused? ==>
            r.value.errors == map[bucket[i].0 := Each([bucket[i].1.item.value.payload.verdict.messages])])
    decreases |bucket|
  {
    if |bucket| > 0 {
      var (name, datum) := bucket[0];
      if name in schema && name in db.related && schema[name].serialized && datum.Single? {
        var a := Assign(db.related[name], datum.item, true);
        if a.Done? && a.value.errors == [] {
          var res := a.value;
          var db' := db.(related := db.related[name := res.table]);
          var data' := data[name := Plain(Reference(res.target))];
          assert Process(db, schema, bucket, data) == Process(db', schema, bucket[1..], data');
          assert Accepted(bucket[0]);
          assert db'.related.Keys == db.related.Keys;
          FirstUnstoredDecides(db', schema, bucket[1..], data');
          var i := FirstUnstored(db.related.Keys, schema, bucket[1..]);
          assert FirstUnstored(db.related.Keys, schema, bucket) == 1 + i;
          assert i < |bucket[1..]| ==> bucket[1 + i] == bucket[1..][i];
        }
      }
    }
  }

  /** No later relation of the bucket has the same name as entry `i`. */
  predicate LastNamed(bucket: seq<(string, Datum)>, i: int) {
    0 <= i < |bucket| && forall j :: i < j < |bucket| ==> bucket[j].0 != bucket[i].0
  }

  /** The relation's data holds the key of a row of its table that holds every field of `p`. */
  predicate PointsAt(data: map<string, Datum>, related: map<string, Table>, n: string, p: Payload) {
    && n in data && data[n].Plain? && data[n].value.Key?
    && n in related && data[n].value.key in related[n].rows
    && forall f :: f in p.fields ==>
         f in related[n].rows[data[n].value.key].fields && related[n].rows[data[n].value.key].fields[f] == p.fields[f]
  }

  /**
    When the request proceeds, each relation's data holds the key of a row
    of the relation's table, and that row holds every field of the item.
   */
  lemma {:induction false} ProceedPointsAtStoredRow(db: Db, schema: map<string, Relation>, bucket: seq<(string, Datum)>,
                                                    data: map<string, Datum>, i: nat)
    requires LastNamed(bucket, i)
    ensures var r := Process(db, schema, bucket, data);
      r.Done? && r.value.Proceed? ==>
        && bucket[i].1.Single? && bucket[i].1.item.Some?
        && PointsAt(r.value.data, r.value.db.related, bucket[i].0, bucket[i].1.item.value.payload)
    decreases |bucket|
  {
    var r := Process(db, schema, bucket, data);
    if r.Done? && r.value.Proceed? {
      var (name, datum) := bucket[0];
      var res := Assign(db.related[name], datum.item, true).value;
      var db' := db.(related := db.related[name := res.table]);
      var data' := data[name := Plain(Reference(res.target))];
      assert r == Process(db', schema, bucket[1..], data');
      if i == 0 {
        NamesMembers(bucket[1..]);
        assert name !in Names(bucket[1..]) by {
          forall j | 0 <= j < |bucket[1..]| ensures bucket[1..][j].0 != name {
            assert bucket[1..][j] == bucket[j + 1];
          }
        }
        ProcessKeepsOtherTables(db', schema, bucket[1..], data', name);
      } else {
        assert LastNamed(bucket[1..], i - 1) by {
          forall j | i - 1 < j < |bucket[1..]| ensures bucket[1..][j].0 != bucket[1..][i - 1].0 {
            assert bucket[1..][j] == bucket[j + 1];
          }
        }
        ProceedPointsAtStoredRow(db', schema, bucket[1..], data', i - 1);
      }
    }
  }
}
