/**
  The per-child error list of a list-valued relation. Each child
  contributes one entry, an empty dictionary when it was stored and its
  message dictionary when it was rejected; the list reported to the client
  stops after the last rejected child, so that positions line up with the
  request and trailing successes are not listed.
 */
module ErrorTrail {
  import opened Store

  /** One iteration over a relation's items: the table after it, its entry, whether it was rejected. */
  datatype Step = Step(table: Table, entry: Messages, failed: bool)

  /** The loop state after all items: the table, one entry per item, whether any was rejected. */
  datatype Progress = Progress(table: Table, entries: seq<Messages>, found: bool)

  /** A relation's table after reconciliation and the errors it reports. */
  datatype Applied = Applied(table: Table, errors: seq<Messages>)

  predicate AllEmpty(es: seq<Messages>) {
    forall i :: 0 <= i < |es| ==> es[i] == map[]
  }

  /** The reported list: every entry up to and including the last non-empty one. */
  function Truncate(es: seq<Messages>): (r: seq<Messages>)
    ensures r <= es
    ensures r == [] <==> AllEmpty(es)
    ensures r != [] ==> r[|r| - 1] != map[]
    ensures forall i :: |r| <= i < |es| ==> es[i] == map[]
  {
    if |es| == 0 then []
    else if es[|es| - 1] != map[] then es
    else Truncate(es[..|es| - 1])
  }

  /** The last non-empty entry, found by scanning the list backwards. */
  function LastError(es: seq<Messages>): (r: Option<Messages>)
    ensures r.None? <==> AllEmpty(es)
    ensures r.Some? ==> r.value != map[] && r.value == Truncate(es)[|Truncate(es)| - 1]
  {
    if |es| == 0 then None
    else if es[|es| - 1] != map[] then Some(es[|es| - 1])
    else LastError(es[..|es| - 1])
  }

  /** Copies entries until one equal to `last` has been copied. */
  function CopyUntil(es: seq<Messages>, last: Messages): (r: seq<Messages>)
    ensures r <= es
    ensures last in es ==> r != [] && r[|r| - 1] == last && last !in r[..|r| - 1]
    ensures last !in es ==> r == es
  {
    if |es| == 0 then []
    else if es[0] == last then [es[0]]
    else [es[0]] + CopyUntil(es[1..], last)
  }

  /**
    The loop exactly as the source writes it: it stops at the FIRST entry
    that equals the last non-empty one, not at the last non-empty entry.
   */
  function TruncateAsWritten(es: seq<Messages>): (r: seq<Messages>)
    ensures r <= Truncate(es)
    ensures r == [] <==> AllEmpty(es)
    ensures r != [] ==> r[|r| - 1] == LastError(es).value
  {
    match LastError(es)
    case None => []
    case Some(last) =>
      var t := Truncate(es);
      assert t[|t| - 1] == last;
      CopyPrefix(es, t, last);
      CopyUntil(es, last)
  }

  /** Copying up to the first `last` ends no later than a prefix that ends in `last`. */
  lemma {:induction false} CopyPrefix(es: seq<Messages>, t: seq<Messages>, last: Messages)
    requires t <= es && t != [] && t[|t| - 1] == last
    ensures CopyUntil(es, last) <= t
  {
    if es[0] != last {
      assert t[1..] <= es[1..];
      CopyPrefix(es[1..], t[1..], last);
    }
  }

  /**
    The loop as written reports the intended list exactly when the last
    error occurs once: an earlier equal entry stops the copy before it.
   */
  lemma {:induction false} AsWrittenAgreesExactlyWhenLastIsUnique(es: seq<Messages>)
    requires !AllEmpty(es)
    ensures TruncateAsWritten(es) == Truncate(es) <==>
              forall i, j :: 0 <= i < j < |es| && es[i] == es[j] ==> es[i] != LastError(es).value
  {
    var t := Truncate(es);
    var w := TruncateAsWritten(es);
    var last := LastError(es).value;
    if forall i, j :: 0 <= i < j < |es| && es[i] == es[j] ==> es[i] != last {
      assert |w| <= |t| && w == t[..|w|];
      if |w| < |t| {
        assert false;
      }
    } else {
      var i, j :| 0 <= i < j < |es| && es[i] == es[j] && es[i] == last;
      assert j < |t|;
      assert forall k :: 0 <= k < |w| - 1 ==> w[..|w| - 1][k] == es[k];
      assert |w| <= i + 1;
      assert |w| < |t|;
    }
  }

  /**
    Two children rejected with the same messages, one stored in between:
    the loop as written reports only the first one.
   */
  lemma AsWrittenDropsRepeatedError()
    ensures var e: Messages := map["title" := ["This field is required."]];
            TruncateAsWritten([e, map[], e]) == [e] && Truncate([e, map[], e]) == [e, map[], e]
  {
    var e: Messages := map["title" := ["This field is required."]];
    var es := [e, map[], e];
    assert "title" in es[2];
    assert CopyUntil(es, e) == [e];
  }

  /**
    After the loop: when some item was rejected, the entries up to the last
    non-empty one are reported; when every rejection carried an empty
    dictionary, the search for a non-empty one raises and the request aborts.
   */
  function Finish(p: Progress): (r: Outcome<Applied>)
    ensures r.Abort? <==> p.found && AllEmpty(p.entries)
    ensures r.Done? ==> r.value.table == p.table && r.value.errors == Truncate(p.entries)
  {
    if p.found && AllEmpty(p.entries) then Abort else Done(Applied(p.table, Truncate(p.entries)))
  }
}
