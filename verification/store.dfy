/**
  The abstract relational store that the nested serializer reconciles
  against. A table is a map from primary key to row; every row of a related
  model carries the value of its inverse foreign key (the link back to the
  parent record) and an opaque bag of other fields. Primary keys come from
  an auto-increment counter, so a created row never reuses a key.

  The nested serializers' own `create` and `update` are opaque: `Create`
  allocates a fresh key, `Update` keeps the key and overwrites the fields it
  is given. Whether such a call fails is decided by a verdict attached to
  each payload (the validation oracle).
 */
module Store {

  type Pk = nat

  datatype Option<+T> = None | Some(value: T)

  /** The outcome of a step that may raise an exception nobody catches. */
  datatype Outcome<+T> = Done(value: T) | Abort

  /** Value of a related row's inverse foreign key. */
  datatype Link = Null | Blank | Ref(parent: Pk)

  datatype Value = Text(text: string) | Number(number: int) | Key(key: Pk) | Nothing

  type Fields = map<string, Value>

  datatype Row = Row(link: Link, fields: Fields)

  datatype TableState = TableState(rows: map<Pk, Row>, next: Pk)

  /** Every stored key was handed out before the counter reached `next`. */
  predicate Allocated(t: TableState) {
    forall k :: k in t.rows ==> k < t.next
  }

  type Table = t: TableState | Allocated(t) witness TableState(map[], 0)

  /** A validation error as the framework reports it: field name to messages. */
  type Messages = map<string, seq<string>>

  /**
    What happens when the nested serializer (or the ORM) is asked to store a
    payload: it succeeds, raises an exception carrying a message dictionary
    (recorded as an error), or raises anything else (propagated, aborting
    the request).
   */
  datatype Verdict = Accept | Reject(messages: Messages) | Crash

  /**
    One child of the request after validation: its optional `pk`, its other
    fields (neither `pk` nor the inverse key), and the verdict of storing it.
   */
  datatype Payload = Payload(pk: Option<Pk>, fields: Fields, verdict: Verdict)

  /** A relation item is a validated dictionary or an already built model object. */
  datatype Child = Data(payload: Payload) | Object(payload: Payload)

  /** The nullability of the inverse foreign key on the related model. */
  datatype InverseField = InverseField(nullable: bool, blank: bool)

  /** Keys of the rows linked to `parent`. */
  function Linked(t: Table, parent: Pk): set<Pk> {
    set k | k in t.rows && t.rows[k].link == Ref(parent)
  }

  /** Stores `row` under an explicit key, inserting or overwriting it. */
  function Insert(t: Table, k: Pk, row: Row): (r: Table)
    ensures r.rows.Keys == t.rows.Keys + {k}
    ensures r.rows[k] == row
    ensures forall j :: j in t.rows && j != k ==> r.rows[j] == t.rows[j]
    ensures t.next <= r.next
  {
    TableState(t.rows[k := row], if k < t.next then t.next else k + 1)
  }

  /** Inserts a row under a freshly allocated key, which is `t.next`. */
  function Create(t: Table, link: Link, fields: Fields): (r: Table)
    ensures t.next !in t.rows
    ensures r.rows.Keys == t.rows.Keys + {t.next}
    ensures r.rows[t.next] == Row(link, fields)
    ensures forall j :: j in t.rows ==> r.rows[j] == t.rows[j]
    ensures r.next == t.next + 1
  {
    Insert(t, t.next, Row(link, fields))
  }

  /** Overwrites the given fields and the link of an existing row, keeping its key. */
  function Update(t: Table, k: Pk, link: Link, fields: Fields): (r: Table)
    requires k in t.rows
    ensures r.rows.Keys == t.rows.Keys
    ensures r.rows[k].link == link
    ensures forall f :: f in fields ==> f in r.rows[k].fields && r.rows[k].fields[f] == fields[f]
    ensures forall f :: f in t.rows[k].fields && f !in fields ==>
              f in r.rows[k].fields && r.rows[k].fields[f] == t.rows[k].fields[f]
    ensures r.rows[k].fields.Keys == t.rows[k].fields.Keys + fields.Keys
    ensures forall j :: j in t.rows && j != k ==> r.rows[j] == t.rows[j]
    ensures r.next == t.next
  {
    TableState(t.rows[k := Row(link, t.rows[k].fields + fields)], t.next)
  }

  /** Whether a row satisfies a queryset filter given as field equalities. */
  predicate Matches(row: Row, filter: Option<Fields>) {
    match filter
    case None => true
    case Some(f) => forall n :: n in f ==> n in row.fields && row.fields[n] == f[n]
  }

  /** A row linked to `parent` that the request does not name. */
  predicate Stale(t: Table, parent: Pk, keep: set<Pk>, k: Pk) {
    k in t.rows && t.rows[k].link == Ref(parent) && k !in keep
  }

  /**
    The detach phase shared by every relation kind that owns an inverse
    foreign key: rows linked to `parent` and not in `keep` get the inverse
    set to null when the field is nullable, to blank when it only allows
    blank, and are deleted otherwise (only those passing `filter`).
   */
  function Detach(t: Table, parent: Pk, keep: set<Pk>, inverse: InverseField, filter: Option<Fields>): (r: Table)
    ensures r.next == t.next
    ensures r.rows.Keys <= t.rows.Keys
    ensures forall k :: k in t.rows && !Stale(t, parent, keep, k) ==> k in r.rows && r.rows[k] == t.rows[k]
    ensures forall k :: Stale(t, parent, keep, k) && inverse.nullable ==>
              k in r.rows && r.rows[k] == Row(Null, t.rows[k].fields)
    ensures forall k :: Stale(t, parent, keep, k) && !inverse.nullable && inverse.blank ==>
              k in r.rows && r.rows[k] == Row(Blank, t.rows[k].fields)
    ensures forall k :: Stale(t, parent, keep, k) && !inverse.nullable && !inverse.blank ==>
              (k in r.rows <==> !Matches(t.rows[k], filter))
    ensures inverse.nullable || inverse.blank || filter.None? ==> Linked(r, parent) == Linked(t, parent) * keep
  {
    if inverse.nullable then
      TableState(map k | k in t.rows :: if Stale(t, parent, keep, k) then Row(Null, t.rows[k].fields) else t.rows[k], t.next)
    else if inverse.blank then
      TableState(map k | k in t.rows :: if Stale(t, parent, keep, k) then Row(Blank, t.rows[k].fields) else t.rows[k], t.next)
    else
      TableState(map k | k in t.rows && !(Stale(t, parent, keep, k) && Matches(t.rows[k], filter)) :: t.rows[k], t.next)
  }

  /** A value of the validated request data: a plain field or relation items. */
  datatype Datum = Plain(value: Value) | Single(item: Option<Child>) | Many(items: seq<Child>)

  /**
    The database as the reconciliation sees it: the parent model's table,
    one related table per relation name, and the link pairs
    (parent key, related key) of each direct many-to-many relation.
   */
  datatype Db = Db(parents: Table, related: map<string, Table>, links: map<string, set<(Pk, Pk)>>)

  /**
    What the serializer's metadata says about one relation: the inverse
    field's nullability, whether a nested serializer handles its items,
    the delete filter of a one-to-many relation, and the join model's field
    pointing at the other side of a many-to-many relation.
   */
  datatype Relation = Relation(inverse: InverseField, serialized: bool, filter: Option<Fields>, right: string)

  /** What is reported for one relation: a per-item list or a single merged dictionary. */
  datatype Report = Each(entries: seq<Messages>) | Merged(messages: Messages)

  /** The relation names of a bucket of extracted relation data. */
  function Names(bucket: seq<(string, Datum)>): set<string> {
    if |bucket| == 0 then {} else {bucket[0].0} + Names(bucket[1..])
  }

  /** Membership in `Names` is membership of some entry's name. */
  lemma {:induction false} NamesMembers(bucket: seq<(string, Datum)>)
    ensures forall n :: n in Names(bucket) <==> exists i :: 0 <= i < |bucket| && bucket[i].0 == n
    decreases |bucket|
  {
    if |bucket| > 0 {
      NamesMembers(bucket[1..]);
      assert forall i :: 1 <= i < |bucket| ==> bucket[i] == bucket[1..][i - 1];
    }
  }

  /** The keys the request names, whether on dictionaries or on model objects. */
  function NamedPks(cs: seq<Child>): set<Pk> {
    if |cs| == 0 then {}
    else (if cs[0].payload.pk.Some? then {cs[0].payload.pk.value} else {}) + NamedPks(cs[1..])
  }

  lemma {:induction false} NamedPksMembers(cs: seq<Child>, k: Pk)
    ensures k in NamedPks(cs) <==> exists i :: 0 <= i < |cs| && cs[i].payload.pk == Some(k)
  {
    if |cs| > 0 {
      NamedPksMembers(cs[1..], k);
      if k in NamedPks(cs[1..]) {
        var i :| 0 <= i < |cs[1..]| && cs[1..][i].payload.pk == Some(k);
        assert cs[i + 1].payload.pk == Some(k);
      }
      if exists i :: 0 <= i < |cs| && cs[i].payload.pk == Some(k) {
        var i :| 0 <= i < |cs| && cs[i].payload.pk == Some(k);
        if i > 0 {
          assert cs[1..][i - 1].payload.pk == Some(k);
        }
      }
    }
  }
}
