/**
  Reconciliation of a many-to-many relation with an explicit join model.
  The items are join rows: their inverse key refers to the parent and their
  `right` field refers to the other side. Join rows the request does not
  name are detached or deleted; a named or already present pair is updated,
  anything else is inserted.
 */
module ManyToManyThrough {
  import opened Store
  import opened ErrorTrail

  /** Row `k` is a join row of `parent` whose `right` field holds `v`. */
  predicate PairRow(t: Table, parent: Pk, right: string, v: Value, k: Pk) {
    k in t.rows && t.rows[k].link == Ref(parent) && right in t.rows[k].fields && t.rows[k].fields[right] == v
  }

  /** The first join row of the pair (`parent`, `v`) at or after key `from`, by key order. */
  function FirstMatchFrom(t: Table, parent: Pk, right: string, v: Value, from: nat): (r: Option<Pk>)
    ensures r.Some? ==> from <= r.value && PairRow(t, parent, right, v, r.value)
    ensures r.Some? ==> forall j :: from <= j < r.value ==> !PairRow(t, parent, right, v, j)
    ensures r.None? ==> forall j :: from <= j ==> !PairRow(t, parent, right, v, j)
    decreases t.next - from
  {
    if from >= t.next then None
    else if PairRow(t, parent, right, v, from) then Some(from)
    else FirstMatchFrom(t, parent, right, v, from + 1)
  }

  /** The queryset's `first()`: the join row of the pair with the least key. */
  function FirstMatch(t: Table, parent: Pk, right: string, v: Value): (r: Option<Pk>)
    ensures r.Some? ==> PairRow(t, parent, right, v, r.value) && forall j: Pk :: j < r.value ==> !PairRow(t, parent, right, v, j)
    ensures r.None? <==> forall j :: !PairRow(t, parent, right, v, j)
  {
    FirstMatchFrom(t, parent, right, v, 0)
  }

  /** A payload without `pk` must carry the pair's `right` field, or the lookup raises. */
  predicate LacksPair(p: Payload, right: string) {
    p.pk.None? && right !in p.fields
  }

  /** The entry a payload contributes: its messages when rejected. */
  function EntryOf(p: Payload): Messages {
    if p.verdict.Reject? then p.verdict.messages else map[]
  }

  /** Whether the payload refers to a row already there: by key, or by its pair. */
  predicate Existing(t: Table, parent: Pk, right: string, p: Payload)
    requires !LacksPair(p, right)
  {
    if p.pk.Some? then p.pk.value in t.rows else FirstMatch(t, parent, right, p.fields[right]).Some?
  }

  /**
    One iteration: a payload naming no existing row is inserted with the
    ORM (under its own key when it has one); an existing row is updated
    through the nested serializer, which must then exist.
   */
  function PayloadStep(t: Table, parent: Pk, p: Payload, serialized: bool, right: string): (r: Outcome<Step>)
    ensures LacksPair(p, right) || p.verdict.Crash? ==> r.Abort?
    ensures !LacksPair(p, right) && !p.verdict.Crash? ==>
              (r.Abort? <==> !serialized && Existing(t, parent, right, p))
    ensures r.Done? ==> r.value.entry == EntryOf(p) && r.value.failed == p.verdict.Reject?
    ensures r.Done? ==> t.rows.Keys <= r.value.table.rows.Keys && r.value.table.next >= t.next
    // a payload without pk whose pair is already present updates that row instead of inserting
    ensures r.Done? && p.verdict.Accept? && p.pk.None? && Existing(t, parent, right, p) ==>
              var k := FirstMatch(t, parent, right, p.fields[right]).value;
              && r.value.table.rows.Keys == t.rows.Keys
              && r.value.table.rows[k].link == Ref(parent)
              && r.value.table.rows[k].fields == t.rows[k].fields + p.fields
    // a payload whose pk names an existing row updates that row and relinks it to the parent
    ensures r.Done? && p.verdict.Accept? && p.pk.Some? && p.pk.value in t.rows ==>
              var k := p.pk.value;
              && r.value.table.rows.Keys == t.rows.Keys
              && r.value.table.rows[k].link == Ref(parent)
              && r.value.table.rows[k].fields == t.rows[k].fields + p.fields
    // a row not linked to the parent is touched only when the payload names it
    ensures r.Done? ==> forall j :: j in t.rows && t.rows[j].link != Ref(parent) && p.pk != Some(j) ==>
              j in r.value.table.rows && r.value.table.rows[j] == t.rows[j]
    // a key handed out before and since deleted is revived only when the payload names it
    ensures r.Done? ==> forall j :: j !in t.rows && j < t.next && p.pk != Some(j) ==> j !in r.value.table.rows
    ensures r.Done? && p.verdict.Accept? && !Existing(t, parent, right, p) ==>
              var k := if p.pk.Some? then p.pk.value else t.next;
              && k !in t.rows
              && r.value.table.rows.Keys == t.rows.Keys + {k}
              && r.value.table.rows[k] == Row(Ref(parent), p.fields)
  {
    if LacksPair(p, right) then Abort
    else if !Existing(t, parent, right, p) then
      match p.verdict
      case Crash => Abort
      case Reject(m) => Done(Step(t, m, true))
      case Accept =>
        match p.pk
        case Some(k) => Done(Step(Insert(t, k, Row(Ref(parent), p.fields)), map[], false))
        case None => Done(Step(Create(t, Ref(parent), p.fields), map[], false))
    else if !serialized then Abort
    else
      match p.verdict
      case Crash => Abort
      case Reject(m) => Done(Step(t, m, true))
      case Accept =>
        var k := if p.pk.Some? then p.pk.value else FirstMatch(t, parent, right, p.fields[right]).value;
        Done(Step(Update(t, k, Ref(parent), p.fields), map[], false))
  }

  /** The loop over the requested join rows, in request order. */
  function Process(t: Table, parent: Pk, ps: seq<Payload>, serialized: bool, right: string): (r: Outcome<Progress>)
    ensures serialized ==>
              (r.Abort? <==> exists i :: 0 <= i < |ps| && (LacksPair(ps[i], right) || ps[i].verdict.Crash?))
    ensures r.Done? ==> |r.value.entries| == |ps|
    ensures r.Done? ==> forall i :: 0 <= i < |ps| ==> r.value.entries[i] == EntryOf(ps[i])
    ensures r.Done? ==> (r.value.found <==> exists i :: 0 <= i < |ps| && ps[i].verdict.Reject?)
    ensures r.Done? ==> t.rows.Keys <= r.value.table.rows.Keys
    decreases |ps|
  {
    if |ps| == 0 then Done(Progress(t, [], false))
    else
      match PayloadStep(t, parent, ps[0], serialized, right)
      case Abort => Abort
      case Done(s) =>
        match Process(s.table, parent, ps[1..], serialized, right)
        case Abort =>
          assert forall i :: 1 <= i < |ps| ==> ps[i] == ps[1..][i - 1];
          Abort
        case Done(p) =>
          assert forall i :: 1 <= i < |ps| ==> ps[i] == ps[1..][i - 1];
          Done(Progress(p.table, [s.entry] + p.entries, s.failed || p.found))
  }

  /** The per-payload error list before truncation. */
  function Entries(ps: seq<Payload>): (r: seq<Messages>)
    ensures |r| == |ps|
  {
    seq(|ps|, i requires 0 <= i < |ps| => EntryOf(ps[i]))
  }

  /** The payloads of the items, all of which are dictionaries. */
  function Payloads(cs: seq<Child>): (r: seq<Payload>)
    requires forall i :: 0 <= i < |cs| ==> cs[i].Data?
    ensures |r| == |cs| && forall i :: 0 <= i < |cs| ==> r[i] == cs[i].payload
  {
    seq(|cs|, i requires 0 <= i < |cs| => cs[i].payload)
  }

  /**
    The whole assignment for one relation. A model object among the items
    makes the first membership test on `pk` raise before anything is
    written. Otherwise join rows not named are detached or deleted, each
    payload is stored, and errors are reported up to the last rejected one.
   */
  function Assign(t: Table, parent: Pk, cs: seq<Child>, inverse: InverseField, serialized: bool, right: string)
    : (r: Outcome<Applied>)
    ensures (exists i :: 0 <= i < |cs| && cs[i].Object?) ==> r.Abort?
    ensures serialized && (forall i :: 0 <= i < |cs| ==> cs[i].Data?) ==>
              (r.Abort? <==>
                 || (exists i :: 0 <= i < |cs| && (LacksPair(cs[i].payload, right) || cs[i].payload.verdict.Crash?))
                 || ((exists i :: 0 <= i < |cs| && cs[i].payload.verdict.Reject?)
                     && forall i :: 0 <= i < |cs| ==> EntryOf(cs[i].payload) == map[]))
    ensures r.Done? ==> r.value.errors == Truncate(Entries(Payloads(cs)))
  {
    if exists i :: 0 <= i < |cs| && cs[i].Object? then Abort
    else
      var ps := Payloads(cs);
      var detached := Detach(t, parent, NamedPks(cs), inverse, None);
      match Process(detached, parent, ps, serialized, right)
      case Abort => Abort
      case Done(p) =>
        assert AllEmpty(p.entries) <==> forall i :: 0 <= i < |cs| ==> EntryOf(cs[i].payload) == map[];
        assert p.entries == Entries(ps);
        Finish(p)
  }

  /** No two join rows of `parent` refer to the same other-side value. */
  predicate NoDuplicatePairs(t: Table, parent: Pk, right: string) {
    forall a, b ::
      (&& a in t.rows && b in t.rows && a != b
       && t.rows[a].link == Ref(parent) && t.rows[b].link == Ref(parent)
       && right in t.rows[a].fields && right in t.rows[b].fields)
      ==> t.rows[a].fields[right] != t.rows[b].fields[right]
  }

  /** A payload without `pk` never creates a second join row for a pair. */
  lemma PairStepKeepsPairsUnique(t: Table, parent: Pk, p: Payload, serialized: bool, right: string)
    requires NoDuplicatePairs(t, parent, right) && p.pk.None?
    requires PayloadStep(t, parent, p, serialized, right).Done?
    ensures NoDuplicatePairs(PayloadStep(t, parent, p, serialized, right).value.table, parent, right)
  {
    var r := PayloadStep(t, parent, p, serialized, right).value.table;
    if p.verdict.Accept? {
      var v := p.fields[right];
      if Existing(t, parent, right, p) {
        var k := FirstMatch(t, parent, right, v).value;
        assert r == Update(t, k, Ref(parent), p.fields);
        assert r.rows[k].fields[right] == v;
      } else {
        assert r == Create(t, Ref(parent), p.fields);
        forall a | a in t.rows && PairRow(r, parent, right, v, a)
          ensures false
        {
          assert PairRow(t, parent, right, v, a);
        }
      }
    }
  }

  /** No payload carries a `pk`. */
  predicate NoPks(ps: seq<Payload>) {
    forall i :: 0 <= i < |ps| ==> ps[i].pk.None?
  }

  lemma {:induction false} ProcessKeepsPairsUnique(t: Table, parent: Pk, ps: seq<Payload>, serialized: bool, right: string)
    requires NoDuplicatePairs(t, parent, right) && NoPks(ps)
    requires Process(t, parent, ps, serialized, right).Done?
    ensures NoDuplicatePairs(Process(t, parent, ps, serialized, right).value.table, parent, right)
    decreases |ps|
  {
    if |ps| > 0 {
      PairStepKeepsPairsUnique(t, parent, ps[0], serialized, right);
      var s := PayloadStep(t, parent, ps[0], serialized, right).value;
      assert NoPks(ps[1..]) by {
        assert forall i :: 0 <= i < |ps[1..]| ==> ps[1..][i] == ps[i + 1];
      }
      ProcessKeepsPairsUnique(s.table, parent, ps[1..], serialized, right);
    }
  }

  /**
    A request whose join rows carry no `pk` leaves at most one join row per
    other-side value: the detach phase unlinks every previous row, and a
    repeated pair inside the request updates the row the first one created.
   */
  lemma NoDuplicateJoinRows(t: Table, parent: Pk, cs: seq<Child>, inverse: InverseField, serialized: bool, right: string)
    requires forall i :: 0 <= i < |cs| ==> cs[i].Data? && cs[i].payload.pk.None?
    ensures Assign(t, parent, cs, inverse, serialized, right).Done? ==>
              NoDuplicatePairs(Assign(t, parent, cs, inverse, serialized, right).value.table, parent, right)
  {
    if Assign(t, parent, cs, inverse, serialized, right).Abort? { return; }
    var ps := Payloads(cs);
    assert NamedPks(cs) == {} by {
      NoPksNamesNothing(cs);
    }
    var d := Detach(t, parent, {}, inverse, None);
    assert Linked(d, parent) == {};
    assert NoDuplicatePairs(d, parent, right);
    ProcessKeepsPairsUnique(d, parent, ps, serialized, right);
  }

  lemma NoPksNamesNothing(cs: seq<Child>)
    requires forall i :: 0 <= i < |cs| ==> cs[i].payload.pk.None?
    ensures NamedPks(cs) == {}
  {
    forall k | k in NamedPks(cs) ensures false {
      NamedPksMembers(cs, k);
    }
  }

  /**
    The loop leaves alone a key no payload names: a row not linked to the
    parent keeps its contents, and a key absent below the counter stays absent.
   */
  lemma {:induction false} ProcessLeavesUnnamed(t: Table, parent: Pk, ps: seq<Payload>, serialized: bool, right: string, k: Pk)
    requires forall i :: 0 <= i < |ps| ==> ps[i].pk != Some(k)
    ensures var r := Process(t, parent, ps, serialized, right);
      r.Done? && k in t.rows && t.rows[k].link != Ref(parent) ==> k in r.value.table.rows && r.value.table.rows[k] == t.rows[k]
    ensures var r := Process(t, parent, ps, serialized, right);
      r.Done? && k !in t.rows && k < t.next ==> k !in r.value.table.rows
    decreases |ps|
  {
    if |ps| > 0 && Process(t, parent, ps, serialized, right).Done? {
      var s := PayloadStep(t, parent, ps[0], serialized, right).value;
      assert forall i :: 0 <= i < |ps[1..]| ==> ps[1..][i] == ps[i + 1];
      ProcessLeavesUnnamed(s.table, parent, ps[1..], serialized, right, k);
    }
  }

  /**
    The detach phase of the join rows survives the loop: join rows of other
    parents that the request does not name are untouched, and join rows of
    this parent that it does not name end nulled, blanked or deleted.
   */
  lemma DetachedJoinRowsStayDetached(t: Table, parent: Pk, cs: seq<Child>, inverse: InverseField, serialized: bool, right: string)
    ensures Assign(t, parent, cs, inverse, serialized, right).Done? ==>
      var r := Assign(t, parent, cs, inverse, serialized, right).value.table;
      && (forall k :: k in t.rows && k !in NamedPks(cs) && t.rows[k].link != Ref(parent) ==>
            k in r.rows && r.rows[k] == t.rows[k])
      && (forall k :: Stale(t, parent, NamedPks(cs), k) && inverse.nullable ==>
            k in r.rows && r.rows[k] == Row(Null, t.rows[k].fields))
      && (forall k :: Stale(t, parent, NamedPks(cs), k) && !inverse.nullable && inverse.blank ==>
            k in r.rows && r.rows[k] == Row(Blank, t.rows[k].fields))
      && (forall k :: Stale(t, parent, NamedPks(cs), k) && !inverse.nullable && !inverse.blank ==>
            k !in r.rows)
  {
    if Assign(t, parent, cs, inverse, serialized, right).Done? {
      var ps := Payloads(cs);
      var d := Detach(t, parent, NamedPks(cs), inverse, None);
      var r := Process(d, parent, ps, serialized, right).value.table;
      assert Assign(t, parent, cs, inverse, serialized, right).value.table == r;
      forall k | k in t.rows && k !in NamedPks(cs)
        ensures k in r.rows <==> k in d.rows
        ensures k in r.rows ==> r.rows[k] == d.rows[k]
      {
        NamedPksMembers(cs, k);
        assert k < d.next;
        ProcessLeavesUnnamed(d, parent, ps, serialized, right, k);
      }
    }
  }
}
