# Nested relation reconciliation of `BaseNestedSerializer`

This project is a Dafny model of the write path of the Django REST Framework
nested serializer in `django_rest_nested_serializer/serializers.py`. A
request names a parent record and, for each declared relation, the related
items the client wants. The serializer decides which existing related rows
are unlinked, blanked, deleted, updated in place or created. It also decides
which per-item errors are reported back.

The ORM is modelled as abstract tables (`Store`). A table maps primary keys
to rows. Each row carries the value of its inverse foreign key, which is
`Null`, `Blank` or `Ref(parent)`, plus an opaque map of other fields. Keys
come from an auto-increment counter. Creating a row allocates a fresh key;
updating keeps the key and overwrites only the fields it is given.

The bodies of the nested serializers' `create` and `update` and the DRF
field validation are not modelled. Instead each item carries a `Verdict`:

- `Accept`: the item is stored.
- `Reject(messages)`: an exception with a message dictionary is raised and
  recorded.
- `Crash`: any other exception. It is re-raised, so the request ends in
  `Abort`.

Every other exception the Python code lets escape is also modelled as
`Abort`, on the branch where it happens. Examples:

- a membership test `"pk" in obj` on a model object or on `None`;
- `.Meta` read on a missing serializer;
- a `DoesNotExist` that nothing catches;
- the `StopIteration` from `next(...)` when every recorded error dictionary
  is empty.

Modules, following the source's structure:

| module | file | models |
|---|---|---|
| `Store` | store.dfy | tables, rows, create/update/insert, the shared null/blank/delete detach phase |
| `ErrorTrail` | error_trail.dfy | the per-item error list and its truncation after the last error |
| `OneToMany` | one_to_many.dfy | `_manage_one_to_many_assignment`, `_manage_one_to_many_child` |
| `ManyToOne` | many_to_one.dfy | `_manage_many_to_one_assignment`, `process_many_to_one_fields` |
| `ManyToManyThrough` | many_to_many_through.dfy | `_manage_many_to_many_assignment` (join model) |
| `ManyToManyDirect` | many_to_many_direct.dfy | the item loop and link update of `process_many_to_many_direct_fields` |
| `OneToOne` | one_to_one.dfy | `_manage_one_to_one_assignment` |
| `Extract` | extract.dfy | `extract_relation_data` |
| `Assignments` | assignments.dfy | the `process_*` loops and `manage_assignments` |

## Model

| member | source | states |
|---|---|---|
| Store.Insert | django_rest_nested_serializer/serializers.py:301-304 | storing a row under an explicit key adds exactly that key, leaves every other row as it was, and keeps the key counter above every stored key |
| Store.Create | django_rest_nested_serializer/serializers.py:150-152 | a created row gets a key no row had before; the table gains exactly that key and no other row changes |
| Store.Update | django_rest_nested_serializer/serializers.py:155-156 | updating keeps the set of keys, overwrites exactly the given fields and the link, and keeps the row's other fields and every other row |
| Store.Detach | django_rest_nested_serializer/serializers.py:53-80 | rows linked to the parent and not named are set to null (still present) when the inverse field is nullable, set to blank when it is blank-only, and otherwise deleted exactly when they match the delete filter; every other row is untouched; when the inverse field is nullable or blank-only, or no filter applies, the parent keeps exactly those of its rows that are named |
| ErrorTrail.Truncate | django_rest_nested_serializer/serializers.py:130-135 | the reported list is a prefix of the per-item list, empty exactly when every entry is empty, ends in a non-empty entry, and only empty entries follow it |
| ErrorTrail.LastError | django_rest_nested_serializer/serializers.py:131 | the backwards search finds nothing exactly when every entry is empty, and otherwise returns the entry that ends the intended report |
| ErrorTrail.CopyUntil | django_rest_nested_serializer/serializers.py:132-135 | copying stops right after the first entry equal to the target, which appears nowhere earlier in the copy; without the target the whole list is copied |
| ErrorTrail.TruncateAsWritten | django_rest_nested_serializer/serializers.py:130-135 | the list the loop actually appends is a prefix of the intended report, is empty exactly when every entry is empty, and ends in the last error |
| ErrorTrail.AsWrittenAgreesExactlyWhenLastIsUnique | django_rest_nested_serializer/serializers.py:130-135 | the loop as written appends exactly the intended report if and only if the last non-empty error dictionary occurs only once in the list |
| ErrorTrail.AsWrittenDropsRepeatedError | django_rest_nested_serializer/serializers.py:130-135 | for entries `[E, {}, E]` the loop as written appends `[E]` while the intended report is `[E, {}, E]` |
| ErrorTrail.Finish | django_rest_nested_serializer/serializers.py:130-135 | after the loop the relation aborts exactly when an error was flagged but every recorded dictionary is empty; otherwise it reports the truncated list and keeps the table |
| Store.NamedPksMembers | django_rest_nested_serializer/serializers.py:38-44 | a key is among the request's kept keys exactly when some item, dictionary or model object, carries it |
| OneToMany.Entries | django_rest_nested_serializer/serializers.py:87-128 | the per-item error list has one entry per requested item |
| OneToMany.ManageChild | django_rest_nested_serializer/serializers.py:137-160 | an item without `pk`, or with the `pk` of a row not linked to the parent, becomes a new row linked to the parent; an item naming a linked row updates it under its key; the parent's linked set grows by the new row or stays the same; no other row changes, and when the named row is not linked to the parent (a row of another parent, say) no existing row changes at all |
| OneToMany.SaveObject | django_rest_nested_serializer/serializers.py:89-94 | a model object is saved with its inverse key pointing at the parent, under its own key or a fresh one, and no other row changes |
| OneToMany.ChildStep | django_rest_nested_serializer/serializers.py:87-128 | one item aborts exactly when its store raises a non-validation exception; it records its messages exactly when it is rejected; only the row it names can change, and a row not linked to the parent only when a model object names it; any new key is fresh or the item's own key |
| OneToMany.Process | django_rest_nested_serializer/serializers.py:87-128 | the loop aborts exactly when some item crashes; entry i is item i's messages or empty; an error is flagged exactly when some item was rejected; rows the request does not name are untouched, and so are rows not linked to the parent that no model object names |
| OneToMany.Reconcile | django_rest_nested_serializer/serializers.py:38-128 | detach followed by the item loop aborts exactly when some item crashes, and records one entry per item |
| OneToMany.Assign | django_rest_nested_serializer/serializers.py:12-135 | the relation aborts exactly when the delete branch needs a missing serializer, some item crashes, or an error is flagged with only empty dictionaries; otherwise it reports the truncated per-item list |
| OneToMany.DetachedRowsStayDetached | django_rest_nested_serializer/serializers.py:53-128 | after the whole relation, rows not linked to the parent are untouched unless a model object names them, even when a dictionary item names them; unnamed rows of this parent end null, blank, or deleted exactly when they match the filter |
| OneToMany.ProcessCountsLinked | django_rest_nested_serializer/serializers.py:87-128 | with all items accepted and distinct keys, every item adds one linked row except those naming a row already linked, which reuse it |
| OneToMany.OneRowPerPayload | django_rest_nested_serializer/serializers.py:53-135 | when every item is an accepted dictionary with a distinct key and no filter applies, the parent ends with exactly one linked row per item and no errors, whatever the inverse field's nullability |
| OneToMany.DetachedCount | django_rest_nested_serializer/serializers.py:53-128 | after the detach phase only named rows stay linked, so the loop over accepted items with distinct keys leaves exactly one linked row per item |
| OneToMany.NoAbortWhenAllAccepted | django_rest_nested_serializer/serializers.py:87-135 | a request whose items are all accepted dictionaries neither aborts nor reports errors |
| OneToMany.UpdateBookWithChapters | tests/testapp/tests/test_one_to_many_fields.py:58-144 | the book-update scenario ends with the kept chapter updated under its key, a new row for the chapter sent without key, the other chapters deleted, and no errors |
| ManyToOne.Assign | django_rest_nested_serializer/serializers.py:162-214 | without a serializer nothing happens; a null item or model object aborts; a rejected item records its messages and gives no target; an accepted item ends stored in the target row, which keeps its key when it names any existing row and is fresh otherwise; no other row changes |
| ManyToOne.Process | django_rest_nested_serializer/serializers.py:490-506 | a refusal reports exactly one relation of the bucket, with a non-empty list; when the request proceeds every relation of the bucket is replaced in the data by a plain value and other data keys are untouched; the parent table and links never change |
| ManyToOne.ProcessKeepsOtherTables | django_rest_nested_serializer/serializers.py:490-506 | no relation loses its table, and a relation outside the bucket keeps its rows |
| ManyToOne.FirstUnstored | django_rest_nested_serializer/serializers.py:490-506 | the position of the first relation that is not a declared single accepted dictionary, with every earlier relation being one |
| ManyToOne.FirstUnstoredDecides | django_rest_nested_serializer/serializers.py:490-506 | the request proceeds exactly when every relation is stored; it is refused exactly when the first relation not stored holds a rejected dictionary, and then the error map is that relation's name with exactly its messages; anything else aborts |
| ManyToOne.ProceedPointsAtStoredRow | django_rest_nested_serializer/serializers.py:490-502 | when the request proceeds, each relation's data holds the key of a row of its table, and that row holds every field of the relation's item |
| ManyToManyThrough.FirstMatchFrom | django_rest_nested_serializer/serializers.py:312-319 | the search returns the least key at or after its start whose join row links the parent to the value, or nothing when there is none |
| ManyToManyThrough.FirstMatch | django_rest_nested_serializer/serializers.py:312-319 | `first()` returns the least-keyed join row of the pair, and nothing exactly when the pair has no row |
| ManyToManyThrough.PayloadStep | django_rest_nested_serializer/serializers.py:283-327 | a payload without `pk` and without the other-side field aborts; one naming no existing row is inserted under its own or a fresh key; an existing pair without a serializer aborts; a pair that already exists updates its first row instead of inserting; a `pk` naming an existing row updates that row under its key, relinked to the parent with the payload's fields merged in; a row of another parent is touched only when the payload names it, and a deleted key is revived only when the payload names it |
| ManyToManyThrough.Process | django_rest_nested_serializer/serializers.py:281-350 | with a serializer the loop aborts exactly when some payload lacks its pair or crashes; entries align with the payloads; no key disappears |
| ManyToManyThrough.Assign | django_rest_nested_serializer/serializers.py:216-357 | any model object aborts; with a serializer the relation aborts exactly when a payload lacks its pair, crashes, or all flagged errors are empty; otherwise it reports the truncated per-payload list |
| ManyToManyThrough.ProcessLeavesUnnamed | django_rest_nested_serializer/serializers.py:281-327 | the loop leaves a key that no payload names alone: a row not linked to the parent keeps its contents, and an absent key stays absent |
| ManyToManyThrough.DetachedJoinRowsStayDetached | django_rest_nested_serializer/serializers.py:242-327 | after the whole relation, unnamed join rows of other parents are untouched, and unnamed join rows of this parent end null, blank or deleted as the inverse field allows |
| ManyToManyThrough.PairStepKeepsPairsUnique | django_rest_nested_serializer/serializers.py:285-327 | storing one payload without `pk` never creates a second join row for a pair of the parent |
| ManyToManyThrough.ProcessKeepsPairsUnique | django_rest_nested_serializer/serializers.py:281-350 | the loop over payloads without `pk` keeps at most one join row per pair of the parent |
| ManyToManyThrough.NoDuplicateJoinRows | django_rest_nested_serializer/serializers.py:242-350 | a request of payloads without `pk` leaves the parent with at most one join row per other-side value |
| ManyToManyThrough.NoPksNamesNothing | django_rest_nested_serializer/serializers.py:242-245 | payloads without `pk` keep no key through the detach phase |
| ManyToManyDirect.Collect | django_rest_nested_serializer/serializers.py:568-583 | a model object or a rejected item aborts, as does a `pk` of a missing row; the created keys are exactly the new keys of the table and are fresh; rows the request does not name are untouched |
| ManyToManyDirect.NamedRowHoldsFields | django_rest_nested_serializer/serializers.py:569-577 | an existing row the request names by `pk` is still present after the loop and holds every field of the last item naming it |
| ManyToManyDirect.Assign | django_rest_nested_serializer/serializers.py:566-593 | without a serializer nothing changes; otherwise the parent ends linked exactly to the rows it was linked to and the request named, plus the rows the request created; links of other parents are untouched |
| ManyToManyDirect.CollectNamesExisting | django_rest_nested_serializer/serializers.py:569-577 | a request naming only existing rows creates nothing and keeps every key |
| ManyToManyDirect.ResubmittingLinksKeepsThem | django_rest_nested_serializer/serializers.py:566-593 | sending back exactly the rows the parent is linked to leaves its links unchanged |
| OneToOne.Place | django_rest_nested_serializer/serializers.py:428-447 | an item naming the row linked to the parent updates it under its key; any other item creates a fresh row linked to the parent and leaves every existing row alone, including a row of another parent that it names; no other row changes |
| OneToOne.PlaceLinksOne | django_rest_nested_serializer/serializers.py:389-447 | after the detach phase, storing leaves the parent linked to exactly one row, which holds the item's fields |
| OneToOne.AssignData | django_rest_nested_serializer/serializers.py:389-464 | an empty item unlinks every related row; a truthy item without a nested serializer or with a crash aborts; a rejection merges its messages and keeps only the named row linked; an acceptance links exactly one row |
| OneToOne.Assign | django_rest_nested_serializer/serializers.py:359-464 | aborts exactly for a model object or a truthy item that cannot be stored; a null or empty item leaves the parent with no related row; an accepted item leaves exactly one; the reported messages are exactly those of a truthy rejected item and empty otherwise |
| OneToOne.DetachedRowFollowsInverse | django_rest_nested_serializer/serializers.py:381-447 | rows not linked to the parent keep their contents, even one the item names; the parent's related rows other than the named one end null, blank or deleted as the inverse field allows |
| OneToOne.AtMostOneRelated | django_rest_nested_serializer/serializers.py:359-464 | whatever the table held before, the parent never ends with more than one related row |
| OneToOne.ResendingLinkedRowKeepsKeys | django_rest_nested_serializer/serializers.py:389-447 | resending the parent's current row with a nullable or blank inverse keeps every key, creates nothing, and leaves the parent linked to exactly that row |
| Extract.Take | django_rest_nested_serializer/serializers.py:629-632 | the bucket holds each declared name present in the data once, with its value, and exactly those names leave the data |
| Extract.TakeKeepsDeclarationOrder | django_rest_nested_serializer/serializers.py:629-632 | a bucket lists its relations in the order in which the declaration list first names them, as the loop over the declared names pops them |
| Extract.SplitKeepsDeclarationOrder | django_rest_nested_serializer/serializers.py:620-657 | each of the five buckets follows its own kind's declaration order |
| Extract.Split | django_rest_nested_serializer/serializers.py:620-657 | each key of the data ends in exactly one place: the bucket of the first kind declaring it in the order one-to-many, many-to-one, through, direct, one-to-one, or the remaining data, unchanged |
| Assignments.AssignList | django_rest_nested_serializer/serializers.py:508-556 | a list-valued relation reports the truncated list of its own items' errors, whatever its table held |
| Assignments.ProcessLists | django_rest_nested_serializer/serializers.py:508-529 | with one list per relation, keys outside the bucket keep their errors and tables, and the parent table and links stay as they were |
| Assignments.ReportsOwnErrors | django_rest_nested_serializer/serializers.py:508-529 | with one list per relation and distinct names, a relation is reported exactly when its own items left errors, and then under exactly those errors |
| Assignments.ProcessListsAsWritten | django_rest_nested_serializer/serializers.py:508-529 | the loop with one shared list keeps the parent table and links, and only reports keys of the bucket |
| Assignments.SharedListLeaksErrors | django_rest_nested_serializer/serializers.py:508-529 | with a rejected chapter and no pages, the shared list reports the chapter's error under both `chapters` and `pages` |
| Assignments.OwnListsReportOnlyChapters | django_rest_nested_serializer/serializers.py:508-529 | the same request with one list per relation reports only `chapters` |
| Assignments.ListTablesAreOwn | django_rest_nested_serializer/serializers.py:508-556 | with distinct names, each list-valued relation of the bucket ends with exactly the table its own reconciliation produces from the table it held when the loop started |
| Assignments.ProcessDirect | django_rest_nested_serializer/serializers.py:558-596 | every relation of the bucket is declared; relations outside the bucket keep their table and links; the parent table never changes and no error is ever reported |
| Assignments.DirectRelationsAreOwn | django_rest_nested_serializer/serializers.py:558-596 | with distinct names, each direct relation with a nested serializer ends with exactly the table and join links of its own reconciliation on what it held when the loop started; one without a serializer keeps both |
| Assignments.ProcessOneToOne | django_rest_nested_serializer/serializers.py:598-618 | every key it adds holds a merged, non-empty dictionary; keys outside the bucket, their tables, and the parent table stay as they were |
| Assignments.OneToOneTablesAreOwn | django_rest_nested_serializer/serializers.py:598-618 | with distinct names, each one-to-one relation ends with exactly the table its own assignment produces from the table it held when the loop started |
| Assignments.OneToOneReportsOwnErrors | django_rest_nested_serializer/serializers.py:598-618 | with distinct names, a one-to-one relation is reported exactly when its own item is a truthy rejected dictionary, and then under exactly that item's messages; an accepted, empty or null item adds no key |
| Assignments.StoreParent | django_rest_nested_serializer/serializers.py:674-677 | without an instance the parent is created under a fresh key; with one it is stored under the instance's key; it holds every given field and no other parent row changes |
| Assignments.AfterParent | django_rest_nested_serializer/serializers.py:679-683 | the relations handled after the parent never change the parent table and report only list-valued and one-to-one relations of the request |
| Assignments.StoreAndRelate | django_rest_nested_serializer/serializers.py:673-687 | leftover data that is not a plain field makes storing the parent abort; the request is invalid only with a non-empty error map of list-valued and one-to-one relations, and a saved parent exists, freshly created when there was no instance |
| Assignments.ManageAssignments | django_rest_nested_serializer/serializers.py:659-687 | the request ends invalid only with a non-empty error map keyed by relations it sent; a saved request names a stored parent, freshly created when there was no instance and the given instance otherwise |
| Assignments.AfterParentReportsOwn | django_rest_nested_serializer/serializers.py:679-683 | with the kinds holding distinct, disjoint names, a relation is reported after the parent is stored exactly when its own items call for a report, and with exactly that report: its truncated item list, or its item's merged messages |
| Assignments.ReportedRelationInvalidates | django_rest_nested_serializer/serializers.py:679-687 | once the many-to-one stage proceeds, a relation whose own items call for a report makes the request invalid under its name with that report, and an invalid request reports no other relation |
| Assignments.InvalidExactlyWhenReported | django_rest_nested_serializer/serializers.py:679-687 | once the many-to-one stage proceeds, the request ends invalid exactly when some relation's own items call for a report, and a saved request had no relation calling for one |
| Assignments.RefusalStoresNoParent | django_rest_nested_serializer/serializers.py:667-677 | a rejected many-to-one item makes the request invalid before the parent is written, with that relation as the only key |
| Assignments.SavedParentHoldsPlainFields | django_rest_nested_serializer/serializers.py:667-677 | when the request is saved, the parent row holds every plain field of the data that is not a declared relation |

## Left out

- Database transactions: the source opens none, so rows written before a validation error stay written. The `Invalid` outcome carries the database as it was left. An `Abort` carries no database at all: the rows that earlier items or the parent had already written before the uncaught exception stay written in the real database, and the model does not say which.
- The query engine, cascades on delete and integrity constraints: tables are maps, and `filter`/`get`/`exists` are direct lookups.
- Relations that share one model: each relation name has its own table in `Db`. In Django two relations over one model share that model's table.
- Field validation and the bodies of nested `create` and `update`: replaced by each item's `Verdict`.
- The exception-class dispatch: it is collapsed to "messages recorded" (`Reject`) versus "re-raised" (`Crash` and the other aborts).
- `_get_m2m_fields` and all `_meta`/`.rel` reflection: the resolved facts are passed in as a `Relation` (inverse nullability, presence of a nested serializer, delete filter, other-side field name).
- The mutable default `errors=[]` of `_manage_many_to_one_assignment`: every caller passes its own list.
- `NestedCreateSerializer.create` and `NestedUpdateSerializer.update`: they only call `manage_assignments` with no instance or with one, which is the `instance` parameter of `Assignments.ManageAssignments`.
- Values inside the payloads: a payload's fields are an opaque map. The `pk` key and the inverse key are modelled separately.
- Model objects among the items: only their key, fields and verdict are modelled. Their `save` is an insert under their own key, or under a fresh key when they have none.
- Store.Insert: moves the key counter past an explicit key, so key allocation is modelled as always fresh. A database sequence is not advanced by an explicit key, so a later insert without a key can collide with it and raise an integrity error; the model has no such collision.
- ErrorTrail.Finish: the all-empty-dictionaries case is an abort, not a precondition. This follows the code, where `next(...)` raises `StopIteration`. It reports the corrected list `ErrorTrail.Truncate` rather than the list lines 132-135 append (see "Findings"); the two agree exactly when the last non-empty error dictionary occurs only once (`ErrorTrail.AsWrittenAgreesExactlyWhenLastIsUnique`).
- OneToMany.Assign: reports the corrected list through `ErrorTrail.Finish`; for entries such as `[E, {}, E]` the source appends `[E]` instead.
- ManyToManyThrough.Assign: reports the corrected list through `ErrorTrail.Finish`, as `OneToMany.Assign` does; the same loop as written is at lines 352-357.
- Assignments.AssignList: reports the corrected per-relation list of `OneToMany.Assign` and `ManyToManyThrough.Assign`, so `Assignments.ProcessListsAsWritten` and `Assignments.SharedListLeaksErrors` isolate the sharing defect from the truncation one.
- ManyToManyThrough.FirstMatch: `.first()` is taken as the least key; a join model whose `Meta.ordering` sorts otherwise would pick another row.
- ManyToManyDirect.Collect: states the abort conditions one way only. A `pk` at or above the table's counter may name a row that an earlier item of the same request created.
- Assignments.ProcessListsAsWritten: its contract only states what the loop keeps. The leak is shown on a concrete request by `Assignments.SharedListLeaksErrors`.
- Assignments.AfterParent: does not restate each kind's own guarantees. Each relation's resulting table (and, for direct relations, its links) is tied to its own assignment per stage by `Assignments.ListTablesAreOwn`, `Assignments.DirectRelationsAreOwn` and `Assignments.OneToOneTablesAreOwn`; that a later stage keeps an earlier stage's relations follows from the frame clauses of each stage's contract and is not stated as one lemma over all four stages. It composes the corrected `Assignments.ProcessLists`, one error list per relation, where lines 508-529 and 531-556 share one list across relations of a kind (see "Findings").
- Assignments.StoreAndRelate: reports the corrected per-relation errors of `Assignments.AfterParent`. Any leftover data that is not a plain field aborts, including a model object given for an undeclared foreign key or many-to-many field, which DRF's `ModelSerializer.create` would accept; only nested-serializer data makes it raise.
- Assignments.ManageAssignments: states the shape of the outcome and the parent row; which relations make it invalid is stated by `Assignments.InvalidExactlyWhenReported`, and each relation's effect on its table by its own module. Its error map is the corrected one: `{chapters: [E]}` where the source reports `{chapters: [E], pages: [E]}` for the request of `Assignments.SharedListLeaksErrors`.

## Findings

| source | as written | input that shows it | evidently intended | confidence | as-written member | corrected member |
|---|---|---|---|---|---|---|
| django_rest_nested_serializer/serializers.py:130-135 | the copy loop stops at the FIRST entry equal to the last non-empty error dictionary | three children whose entries are `[E, {}, E]` with `E = {"title": ["This field is required."]}`: the loop appends `[E]` | report every entry up to and including the last non-empty one, `[E, {}, E]`, so positions match the request (the same loop is at lines 352-357) | high; not executed | ErrorTrail.TruncateAsWritten, ErrorTrail.AsWrittenDropsRepeatedError | ErrorTrail.Truncate |
| django_rest_nested_serializer/serializers.py:508-529 | one `relation_errors` list is shared by all relations of the kind and stored by reference under each key whose turn ends with it non-empty | relation `chapters` with one rejected child (`E`), then relation `pages` with no items: the report is `{chapters: [E], pages: [E]}` | each relation reports only its own items, `{chapters: [E]}`, as the one-to-one loop at lines 599-618 does with a fresh dictionary per relation (the same sharing is at lines 531-556) | high; not executed | Assignments.ProcessListsAsWritten, Assignments.SharedListLeaksErrors | Assignments.ProcessLists, Assignments.OwnListsReportOnlyChapters |
