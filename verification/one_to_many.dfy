/**
  Reconciliation of a one-to-many relation (a reverse foreign key): the
  parent's children are the related rows whose inverse key refers to it.
  The request lists the wanted children; rows it does not name are
  detached or deleted, named rows are updated, the rest are created.
 */
module OneToMany {
  import opened Store
  import opened ErrorTrail

  /** Handling `c` raises an exception that is re-raised. */
  predicate Crashes(c: Child, serialized: bool) {
    (c.Object? || serialized) && c.payload.verdict.Crash?
  }

  /** Handling `c` raises an exception whose message dictionary is recorded. */
  predicate Rejected(c: Child, serialized: bool) {
    (c.Object? || serialized) && c.payload.verdict.Reject?
  }

  /** The entry `c` contributes to the per-child error list. */
  function EntryOf(c: Child, serialized: bool): Messages {
    if Rejected(c, serialized) then c.payload.verdict.messages else map[]
  }

  /** The per-child error list before truncation, one entry per child. */
  function Entries(cs: seq<Child>, serialized: bool): (r: seq<Messages>)
    ensures |r| == |cs|
  {
    seq(|cs|, i requires 0 <= i < |cs| => EntryOf(cs[i], serialized))
  }

  /**
    Storing a dictionary child through the nested serializer: without `pk`
    it is created; with the `pk` of one of the parent's current children
    that row is updated; with any other `pk` the key is dropped and a new
    row is created. Either way exactly one row ends linked for it.
   */
  function ManageChild(t: Table, parent: Pk, p: Payload): (r: Table)
    ensures r.next >= t.next
    ensures p.pk.None? || p.pk.value !in Linked(t, parent) ==>
              && r.rows.Keys == t.rows.Keys + {t.next}
              && r.rows[t.next] == Row(Ref(parent), p.fields)
              && Linked(r, parent) == Linked(t, parent) + {t.next}
    ensures p.pk.Some? && p.pk.value in Linked(t, parent) ==>
              && r.rows.Keys == t.rows.Keys
              && r.rows[p.pk.value].link == Ref(parent)
              && r.rows[p.pk.value].fields == t.rows[p.pk.value].fields + p.fields
              && Linked(r, parent) == Linked(t, parent)
    ensures forall k :: k in t.rows && Some(k) != p.pk ==> k in r.rows && r.rows[k] == t.rows[k]
    ensures !(p.pk.Some? && p.pk.value in Linked(t, parent)) ==> forall k :: k in t.rows ==> k in r.rows && r.rows[k] == t.rows[k]
  {
    match p.pk
    case None => Create(t, Ref(parent), p.fields)
    case Some(k) =>
      if k in Linked(t, parent) then Update(t, k, Ref(parent), p.fields)
      else Create(t, Ref(parent), p.fields)
  }

  /** Saving a model object after pointing its inverse key at the parent. */
  function SaveObject(t: Table, parent: Pk, p: Payload): (r: Table)
    ensures r.next >= t.next
    ensures p.pk.Some? ==> r.rows.Keys == t.rows.Keys + {p.pk.value} && r.rows[p.pk.value] == Row(Ref(parent), p.fields)
    ensures p.pk.None? ==> r.rows.Keys == t.rows.Keys + {t.next} && r.rows[t.next] == Row(Ref(parent), p.fields)
    ensures forall k :: k in t.rows && Some(k) != p.pk ==> k in r.rows && r.rows[k] == t.rows[k]
  {
    match p.pk
    case None => Create(t, Ref(parent), p.fields)
    case Some(k) => Insert(t, k, Row(Ref(parent), p.fields))
  }

  /** The keys the request names through model objects, which are saved under their own key. */
  function ObjectPks(cs: seq<Child>): set<Pk> {
    if |cs| == 0 then {}
    else (if cs[0].Object? && cs[0].payload.pk.Some? then {cs[0].payload.pk.value} else {}) + ObjectPks(cs[1..])
  }

  /** One iteration of the loop over the requested children. */
  function ChildStep(t: Table, parent: Pk, c: Child, serialized: bool): (r: Outcome<Step>)
    ensures r.Abort? <==> Crashes(c, serialized)
    ensures r.Done? ==> r.value.entry == EntryOf(c, serialized) && r.value.failed == Rejected(c, serialized)
    ensures r.Done? ==> r.value.table.next >= t.next
    ensures r.Done? ==> forall k :: k in t.rows && Some(k) != c.payload.pk ==>
              k in r.value.table.rows && r.value.table.rows[k] == t.rows[k]
    ensures r.Done? ==> forall k :: k in r.value.table.rows ==> k in t.rows || k >= t.next || Some(k) == c.payload.pk
    ensures r.Done? ==> forall k :: k in t.rows && t.rows[k].link != Ref(parent) && !(c.Object? && c.payload.pk == Some(k)) ==>
              k in r.value.table.rows && r.value.table.rows[k] == t.rows[k]
  {
    if c.Data? && !serialized then Done(Step(t, map[], false))
    else
      match c.payload.verdict
      case Crash => Abort
      case Reject(m) => Done(Step(t, m, true))
      case Accept =>
        var t' := if c.Object? then SaveObject(t, parent, c.payload) else ManageChild(t, parent, c.payload);
        Done(Step(t', map[], false))
  }

  /** The loop over the requested children, in request order. */
  function Process(t: Table, parent: Pk, cs: seq<Child>, serialized: bool): (r: Outcome<Progress>)
    ensures r.Abort? <==> exists i :: 0 <= i < |cs| && Crashes(cs[i], serialized)
    ensures r.Done? ==> |r.value.entries| == |cs|
    ensures r.Done? ==> forall i :: 0 <= i < |cs| ==> r.value.entries[i] == EntryOf(cs[i], serialized)
    ensures r.Done? ==> (r.value.found <==> exists i :: 0 <= i < |cs| && Rejected(cs[i], serialized))
    ensures r.Done? ==> r.value.table.next >= t.next
    ensures r.Done? ==> forall k :: k in t.rows && k !in NamedPks(cs) ==>
              k in r.value.table.rows && r.value.table.rows[k] == t.rows[k]
    ensures r.Done? ==> forall k :: k in r.value.table.rows ==> k in t.rows || k >= t.next || k in NamedPks(cs)
    ensures r.Done? ==> forall k :: k in t.rows && t.rows[k].link != Ref(parent) && k !in ObjectPks(cs) ==>
              k in r.value.table.rows && r.value.table.rows[k] == t.rows[k]
    decreases |cs|
  {
    if |cs| == 0 then Done(Progress(t, [], false))
    else
      match ChildStep(t, parent, cs[0], serialized)
      case Abort => Abort
      case Done(s) =>
        match Process(s.table, parent, cs[1..], serialized)
        case Abort =>
          assert forall i :: 1 <= i < |cs| ==> cs[i] == cs[1..][i - 1];
          Abort
        case Done(p) =>
          assert forall i :: 1 <= i < |cs| ==> cs[i] == cs[1..][i - 1];
          Done(Progress(p.table, [s.entry] + p.entries, s.failed || p.found))
  }

  /** The detach phase aborts when it needs the missing serializer's filters. */
  predicate DetachCrashes(inverse: InverseField, serialized: bool) {
    !inverse.nullable && !inverse.blank && !serialized
  }

  /** The detach phase followed by the loop over the children. */
  function Reconcile(t: Table, parent: Pk, cs: seq<Child>, inverse: InverseField, serialized: bool, filter: Option<Fields>)
    : (r: Outcome<Progress>)
    ensures r.Abort? <==> exists i :: 0 <= i < |cs| && Crashes(cs[i], serialized)
    ensures r.Done? ==> |r.value.entries| == |cs|
    ensures r.Done? ==> forall i :: 0 <= i < |cs| ==> r.value.entries[i] == EntryOf(cs[i], serialized)
    ensures r.Done? ==> (r.value.found <==> exists i :: 0 <= i < |cs| && Rejected(cs[i], serialized))
  {
    Process(Detach(t, parent, NamedPks(cs), inverse, filter), parent, cs, serialized)
  }

  /**
    The whole assignment for one relation: detach what the request does not
    name, store each child, then report the per-child errors up to the last
    rejected child.
   */
  function Assign(t: Table, parent: Pk, cs: seq<Child>, inverse: InverseField, serialized: bool, filter: Option<Fields>)
    : (r: Outcome<Applied>)
    ensures r.Abort? <==>
              || DetachCrashes(inverse, serialized)
              || (exists i :: 0 <= i < |cs| && Crashes(cs[i], serialized))
              || ((exists i :: 0 <= i < |cs| && Rejected(cs[i], serialized))
                  && forall i :: 0 <= i < |cs| ==> EntryOf(cs[i], serialized) == map[])
    ensures r.Done? ==> r.value.errors == Truncate(Entries(cs, serialized))
  {
    if DetachCrashes(inverse, serialized) then Abort
    else
      match Reconcile(t, parent, cs, inverse, serialized, filter)
      case Abort => Abort
      case Done(p) =>
        assert AllEmpty(p.entries) <==> forall i :: 0 <= i < |cs| ==> EntryOf(cs[i], serialized) == map[];
        assert p.entries == Entries(cs, serialized);
        Finish(p)
  }

  /** The table `Assign` leaves behind is the processed detached table. */
  lemma AssignTable(t: Table, parent: Pk, cs: seq<Child>, inverse: InverseField, serialized: bool, filter: Option<Fields>)
    ensures Assign(t, parent, cs, inverse, serialized, filter).Done? ==>
      var d := Detach(t, parent, NamedPks(cs), inverse, filter);
      && Process(d, parent, cs, serialized).Done?
      && Assign(t, parent, cs, inverse, serialized, filter).value.table == Process(d, parent, cs, serialized).value.table
  {
  }

  /**
    What the detach phase leaves behind survives the processing phase: rows
    of other parents that the request does not name are untouched, and rows
    of this parent that it does not name end nulled, blanked or deleted.
   */
  lemma DetachedRowsStayDetached(t: Table, parent: Pk, cs: seq<Child>, inverse: InverseField, serialized: bool, filter: Option<Fields>)
    ensures Assign(t, parent, cs, inverse, serialized, filter).Done? ==>
      var r := Assign(t, parent, cs, inverse, serialized, filter).value.table;
      && (forall k :: k in t.rows && k !in ObjectPks(cs) && t.rows[k].link != Ref(parent) ==>
            k in r.rows && r.rows[k] == t.rows[k])
      && (forall k :: Stale(t, parent, NamedPks(cs), k) && inverse.nullable ==>
            k in r.rows && r.rows[k] == Row(Null, t.rows[k].fields))
      && (forall k :: Stale(t, parent, NamedPks(cs), k) && !inverse.nullable && inverse.blank ==>
            k in r.rows && r.rows[k] == Row(Blank, t.rows[k].fields))
      && (forall k :: Stale(t, parent, NamedPks(cs), k) && !inverse.nullable && !inverse.blank ==>
            (k in r.rows <==> !Matches(t.rows[k], filter)))
  {
    if Assign(t, parent, cs, inverse, serialized, filter).Done? {
      AssignTable(t, parent, cs, inverse, serialized, filter);
      var d := Detach(t, parent, NamedPks(cs), inverse, filter);
      var r := Process(d, parent, cs, serialized).value.table;
      forall k | k in t.rows && k !in NamedPks(cs)
        ensures k in r.rows <==> k in d.rows
        ensures k in r.rows ==> r.rows[k] == d.rows[k]
      {
        assert k < d.next;
      }
    }
  }

  /** No two children of the request name the same key. */
  predicate DistinctPks(cs: seq<Child>) {
    forall i, j :: 0 <= i < j < |cs| && cs[i].payload.pk.Some? ==> cs[i].payload.pk != cs[j].payload.pk
  }

  /** Every child is a dictionary that the nested serializer stores. */
  predicate AllAcceptedData(cs: seq<Child>) {
    forall i :: 0 <= i < |cs| ==> cs[i].Data? && cs[i].payload.verdict.Accept?
  }

  /** The first child's key is not named again by the rest of a request with distinct keys. */
  lemma HeadNotNamedAgain(cs: seq<Child>)
    requires |cs| > 0 && DistinctPks(cs) && cs[0].payload.pk.Some?
    ensures cs[0].payload.pk.value !in NamedPks(cs[1..])
  {
    NamedPksMembers(cs[1..], cs[0].payload.pk.value);
    assert forall i :: 0 <= i < |cs[1..]| ==> cs[1..][i] == cs[i + 1];
  }

  /** The rest of a request keeps the request's per-child facts. */
  lemma RestKeepsFacts(cs: seq<Child>)
    requires |cs| > 0 && AllAcceptedData(cs) && DistinctPks(cs)
    ensures AllAcceptedData(cs[1..]) && DistinctPks(cs[1..])
    ensures NamedPks(cs) == (if cs[0].payload.pk.Some? then {cs[0].payload.pk.value} else {}) + NamedPks(cs[1..])
  {
    assert forall i :: 0 <= i < |cs[1..]| ==> cs[1..][i] == cs[i + 1];
  }

  lemma ReusedKeyCounts(L: set<Pk>, N: set<Pk>, Nr: set<Pk>, k: Pk)
    requires k in L && k !in Nr && N == {k} + Nr
    ensures |N * L| == 1 + |Nr * L|
  {
    assert N * L == {k} + Nr * L;
  }

  lemma FreshKeyCounts(L: set<Pk>, L1: set<Pk>, N: set<Pk>, Nr: set<Pk>, f: Pk, head: Option<Pk>)
    requires L1 == L + {f} && f !in L && f !in Nr
    requires N == (if head.Some? then {head.value} else {}) + Nr
    requires head.Some? ==> head.value !in L
    ensures |Nr * L1| == |N * L|
  {
    assert Nr * L1 == Nr * L;
    assert N * L == Nr * L;
  }

  /**
    Counting the parent's children through the loop: each payload adds one
    linked row, except that a payload naming a row already linked reuses it.
   */
  lemma {:induction false} ProcessCountsLinked(t: Table, parent: Pk, cs: seq<Child>)
    requires AllAcceptedData(cs) && DistinctPks(cs)
    requires forall k :: k in NamedPks(cs) ==> k < t.next
    ensures Process(t, parent, cs, true).Done?
    ensures |Linked(Process(t, parent, cs, true).value.table, parent)| + |NamedPks(cs) * Linked(t, parent)|
            == |Linked(t, parent)| + |cs|
    decreases |cs|
  {
    if |cs| > 0 {
      var c := cs[0];
      var rest := cs[1..];
      RestKeepsFacts(cs);
      var t1 := ManageChild(t, parent, c.payload);
      assert ChildStep(t, parent, c, true) == Done(Step(t1, map[], false));
      ProcessCountsLinked(t1, parent, rest);
      var final := Process(t1, parent, rest, true).value.table;
      assert Process(t, parent, cs, true).value.table == final;
      var L := Linked(t, parent);
      var L1 := Linked(t1, parent);
      var N := NamedPks(cs);
      var Nr := NamedPks(rest);
      if c.payload.pk.Some? && c.payload.pk.value in L {
        var k := c.payload.pk.value;
        HeadNotNamedAgain(cs);
        assert L1 == L;
        ReusedKeyCounts(L, N, Nr, k);
      } else {
        assert t.next !in Nr;
        assert L1 == L + {t.next};
        FreshKeyCounts(L, L1, N, Nr, t.next, c.payload.pk);
      }
    }
  }

  /**
    When every child is stored and nothing unnamed survives the detach
    phase, the parent ends with exactly one linked row per payload and no
    errors are reported.
   */
  lemma OneRowPerPayload(t: Table, parent: Pk, cs: seq<Child>, inverse: InverseField)
    requires AllAcceptedData(cs) && DistinctPks(cs)
    requires forall k :: k in NamedPks(cs) ==> k < t.next
    ensures var r := Assign(t, parent, cs, inverse, true, None);
      && r.Done?
      && r.value.errors == []
      && |Linked(r.value.table, parent)| == |cs|
  {
    DetachedCount(t, parent, cs, inverse);
    NoAbortWhenAllAccepted(t, parent, cs, inverse);
    AssignTable(t, parent, cs, inverse, true, None);
  }

  /** The loop run on the detached table links one row per payload. */
  lemma DetachedCount(t: Table, parent: Pk, cs: seq<Child>, inverse: InverseField)
    requires AllAcceptedData(cs) && DistinctPks(cs)
    requires forall k :: k in NamedPks(cs) ==> k < t.next
    ensures var d := Detach(t, parent, NamedPks(cs), inverse, None);
      Process(d, parent, cs, true).Done? && |Linked(Process(d, parent, cs, true).value.table, parent)| == |cs|
  {
    var N := NamedPks(cs);
    var d := Detach(t, parent, N, inverse, None);
    assert Linked(d, parent) <= N;
    ProcessCountsLinked(d, parent, cs);
    assert N * Linked(d, parent) == Linked(d, parent);
  }

  lemma NoAbortWhenAllAccepted(t: Table, parent: Pk, cs: seq<Child>, inverse: InverseField)
    requires AllAcceptedData(cs)
    ensures Assign(t, parent, cs, inverse, true, None).Done?
    ensures Assign(t, parent, cs, inverse, true, None).value.errors == []
  {
    assert forall i :: 0 <= i < |cs| ==> !Crashes(cs[i], true) && !Rejected(cs[i], true);
    assert AllEmpty(Entries(cs, true));
  }

  /** Chapters 1, 2 and 3 of book 1, as the test suite first creates them. */
  function BookChapters(): Table {
    TableState(map[
      1 := Row(Ref(1), map["title" := Text("Chapter 3"), "order" := Number(3)]),
      2 := Row(Ref(1), map["title" := Text("Chapter 1"), "order" := Number(1)]),
      3 := Row(Ref(1), map["title" := Text("Chapter 2"), "order" := Number(2)])], 4)
  }

  /** The update request: the first chapter sent without its key, the third kept. */
  function BookUpdateRequest(): seq<Child> {
    [ Data(Payload(None, map["title" := Text("Chapter 1 new"), "order" := Number(1)], Accept)),
      Data(Payload(Some(3), map["title" := Text("Chapter 2 update"), "order" := Number(2)], Accept)) ]
  }

  lemma BookDetach()
    ensures NamedPks(BookUpdateRequest()) == {3}
    ensures Detach(BookChapters(), 1, {3}, InverseField(false, false), None)
            == TableState(map[3 := BookChapters().rows[3]], 4)
  {
    var cs := BookUpdateRequest();
    assert NamedPks(cs[1..]) == {3} + NamedPks(cs[2..]);
    var t := BookChapters();
    var d := Detach(t, 1, {3}, InverseField(false, false), None);
    assert Stale(t, 1, {3}, 1) && Stale(t, 1, {3}, 2);
    assert d.rows.Keys == {3};
  }

  lemma BookProcess()
    ensures Process(TableState(map[3 := BookChapters().rows[3]], 4), 1, BookUpdateRequest(), true)
            == Done(Progress(TableState(map[
                 3 := Row(Ref(1), map["title" := Text("Chapter 2 update"), "order" := Number(2)]),
                 4 := Row(Ref(1), map["title" := Text("Chapter 1 new"), "order" := Number(1)])], 5),
               [map[], map[]], false))
  {
    var cs := BookUpdateRequest();
    var g1 := cs[0].payload.fields;
    var g2 := cs[1].payload.fields;
    var d: Table := TableState(map[3 := BookChapters().rows[3]], 4);
    var d1 := ManageChild(d, 1, cs[0].payload);
    assert d1 == TableState(map[3 := BookChapters().rows[3], 4 := Row(Ref(1), g1)], 5);
    assert 3 in Linked(d1, 1);
    var d2 := ManageChild(d1, 1, cs[1].payload);
    assert BookChapters().rows[3].fields + g2 == g2;
    assert d2 == TableState(map[3 := Row(Ref(1), g2), 4 := Row(Ref(1), g1)], 5);
    assert ChildStep(d1, 1, cs[1], true) == Done(Step(d2, map[], false));
    var rest := cs[1..];
    assert rest[0] == cs[1] && rest[1..] == [];
    assert Process(d2, 1, rest[1..], true) == Done(Progress(d2, [], false));
    var r1 := Process(d1, 1, rest, true);
    assert r1.Done?;
    assert r1.value.table == d2;
    assert r1.value.entries == [map[]];
    assert r1 == Done(Progress(d2, [map[]], false));
    assert ChildStep(d, 1, cs[0], true) == Done(Step(d1, map[], false));
    var r0 := Process(d, 1, cs, true);
    assert r0.Done? && r0.value.table == d2;
    assert r0.value.entries == [map[], map[]];
    assert !r0.value.found;
  }

  /**
    The book update of the test suite: the request keeps the third chapter
    row under its key with a new title and sends the second without its
    key. The first two rows are deleted, the third is updated in place and a
    fourth row is created, so the book ends with two chapters.
   */
  lemma UpdateBookWithChapters()
    ensures Assign(BookChapters(), 1, BookUpdateRequest(), InverseField(false, false), true, None)
            == Done(Applied(TableState(map[
                 3 := Row(Ref(1), map["title" := Text("Chapter 2 update"), "order" := Number(2)]),
                 4 := Row(Ref(1), map["title" := Text("Chapter 1 new"), "order" := Number(1)])], 5), []))
  {
    BookDetach();
    BookProcess();
    assert Truncate([map[], map[]]) == [];
  }
}
