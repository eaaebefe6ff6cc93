/**
  Splitting the validated data: every relation the serializer declares for
  one of the five kinds is moved out of the data into that kind's bucket,
  in the order the declarations list them. Kinds are scanned in a fixed
  order (one-to-many, many-to-one, through many-to-many, direct
  many-to-many, one-to-one), so a name declared for two kinds lands in the
  first of them.
 */
module Extract {
  import opened Store

  /** The relation names the serializer declares for each kind. */
  datatype Declared = Declared(
    oneToMany: seq<string>,
    manyToOne: seq<string>,
    through: seq<string>,
    direct: seq<string>,
    oneToOne: seq<string>)

  /** The extracted relation data of each kind, as (name, value) in declaration order. */
  datatype Buckets = Buckets(
    oneToMany: seq<(string, Datum)>,
    manyToOne: seq<(string, Datum)>,
    through: seq<(string, Datum)>,
    direct: seq<(string, Datum)>,
    oneToOne: seq<(string, Datum)>)

  /** No relation name occurs twice in a bucket. */
  predicate Distinct(bucket: seq<(string, Datum)>) {
    forall i, j :: 0 <= i < j < |bucket| ==> bucket[i].0 != bucket[j].0
  }

  /** Every entry of the bucket carries the value the data held under its name. */
  predicate FromData(bucket: seq<(string, Datum)>, data: map<string, Datum>) {
    forall i :: 0 <= i < |bucket| ==> bucket[i].0 in data && bucket[i].1 == data[bucket[i].0]
  }

  function AsSet(names: seq<string>): set<string> {
    set i | 0 <= i < |names| :: names[i]
  }

  /** Where a name first occurs in a declaration list; `|names|` when it does not occur. */
  function Position(names: seq<string>, x: string): (k: nat)
    ensures k <= |names|
    ensures k < |names| ==> names[k] == x
    ensures forall j :: 0 <= j < k ==> names[j] != x
  {
    if |names| == 0 then 0
    else if names[0] == x then 0
    else 1 + Position(names[1..], x)
  }

  /** The bucket lists its relations in the order the declarations first name them. */
  predicate InDeclarationOrder(bucket: seq<(string, Datum)>, names: seq<string>) {
    forall i, j :: 0 <= i < j < |bucket| ==> Position(names, bucket[i].0) < Position(names, bucket[j].0)
  }

  /** Moves the present declared names out of `data`, first occurrence first. */
  function Take(names: seq<string>, data: map<string, Datum>): (r: (seq<(string, Datum)>, map<string, Datum>))
    ensures Names(r.0) == AsSet(names) * data.Keys
    ensures r.1 == data - AsSet(names)
    ensures FromData(r.0, data)
    ensures Distinct(r.0)
    decreases |names|
  {
    if |names| == 0 then ([], data)
    else
      var n := names[0];
      assert AsSet(names) == {n} + AsSet(names[1..]) by {
        forall x | x in AsSet(names) ensures x in {n} + AsSet(names[1..]) {
          var i :| 0 <= i < |names| && names[i] == x;
          if i > 0 { assert names[1..][i - 1] == x; }
        }
      }
      if n in data then
        var (b, rest) := Take(names[1..], data - {n});
        var r := ([(n, data[n])] + b, rest);
        assert r.0[1..] == b;
        NamesMembers(b);
        r
      else
        Take(names[1..], data)
  }

  /**
    The five buckets and the data left for the parent's own fields. Each
    name of the data ends in exactly one place: the bucket of the first kind
    declaring it, or the remaining data when no kind declares it.
   */
  function Split(decl: Declared, data: map<string, Datum>): (r: (Buckets, map<string, Datum>))
    ensures var b := r.0;
      && Distinct(b.oneToMany) && Distinct(b.manyToOne) && Distinct(b.through)
      && Distinct(b.direct) && Distinct(b.oneToOne)
      && FromData(b.oneToMany, data) && FromData(b.manyToOne, data) && FromData(b.through, data)
      && FromData(b.direct, data) && FromData(b.oneToOne, data)
    ensures var (b, rest) := r;
      var (s1, s2, s3, s4, s5) := (AsSet(decl.oneToMany), AsSet(decl.manyToOne), AsSet(decl.through),
                                   AsSet(decl.direct), AsSet(decl.oneToOne));
      && Names(b.oneToMany) == data.Keys * s1
      && Names(b.manyToOne) == data.Keys * s2 - s1
      && Names(b.through) == data.Keys * s3 - s1 - s2
      && Names(b.direct) == data.Keys * s4 - s1 - s2 - s3
      && Names(b.oneToOne) == data.Keys * s5 - s1 - s2 - s3 - s4
      && rest == data - s1 - s2 - s3 - s4 - s5
  {
    var (b1, d1) := Take(decl.oneToMany, data);
    var (b2, d2) := Take(decl.manyToOne, d1);
    var (b3, d3) := Take(decl.through, d2);
    var (b4, d4) := Take(decl.direct, d3);
    var (b5, d5) := Take(decl.oneToOne, d4);
    (Buckets(b1, b2, b3, b4, b5), d5)
  }

  /** The kinds handled after the parent is stored never share a relation name. */
  lemma SplitKindsApart(decl: Declared, data: map<string, Datum>)
    ensures var b := Split(decl, data).0;
      && Names(b.oneToMany) !! Names(b.through) && Names(b.oneToMany) !! Names(b.oneToOne)
      && Names(b.through) !! Names(b.oneToOne)
  {
  }

  /** The bucket `Take` builds follows the order in which the declarations first name its relations. */
  lemma {:induction false} TakeKeepsDeclarationOrder(names: seq<string>, data: map<string, Datum>)
    ensures InDeclarationOrder(Take(names, data).0, names)
    decreases |names|
  {
    if |names| > 0 {
      var n := names[0];
      var d := if n in data then data - {n} else data;
      var b := Take(names[1..], d).0;
      TakeKeepsDeclarationOrder(names[1..], d);
      NamesMembers(b);
      assert forall j :: 0 <= j < |b| ==> b[j].0 in d;
      assert forall j :: 0 <= j < |b| ==> Position(names, b[j].0) == 1 + Position(names[1..], b[j].0);
      if n in data {
        assert Take(names, data).0 == [(n, data[n])] + b;
      } else {
        assert Take(names, data).0 == b;
      }
    }
  }

  /** Every bucket `Split` builds follows its kind's declaration order. */
  lemma SplitKeepsDeclarationOrder(decl: Declared, data: map<string, Datum>)
    ensures var b := Split(decl, data).0;
      && InDeclarationOrder(b.oneToMany, decl.oneToMany) && InDeclarationOrder(b.manyToOne, decl.manyToOne)
      && InDeclarationOrder(b.through, decl.through) && InDeclarationOrder(b.direct, decl.direct)
      && InDeclarationOrder(b.oneToOne, decl.oneToOne)
  {
    var (b1, d1) := Take(decl.oneToMany, data);
    var (b2, d2) := Take(decl.manyToOne, d1);
    var (b3, d3) := Take(decl.through, d2);
    var (b4, d4) := Take(decl.direct, d3);
    TakeKeepsDeclarationOrder(decl.oneToMany, data);
    TakeKeepsDeclarationOrder(decl.manyToOne, d1);
    TakeKeepsDeclarationOrder(decl.through, d2);
    TakeKeepsDeclarationOrder(decl.direct, d3);
    TakeKeepsDeclarationOrder(decl.oneToOne, d4);
  }
}
