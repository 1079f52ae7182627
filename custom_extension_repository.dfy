/**
 * `customExtensionRepository`: the custom-extension table and the queries
 * the service runs against it. Every query goes through the soft-delete
 * extension of the client, so reads see active rows only; writes address a
 * row by id whatever its `deletedAt`.
 *
 * `findUnique({ where: { extension } })` is only accepted by Prisma when
 * `extension` is a unique column, so the table carries a unique index on
 * `extension` (over all rows, soft-deleted or not) besides its primary key.
 */
module CustomExtensionRepository {
  import opened Optional
  import opened Assertions
  import opened Prisma
  import opened QueryEngine
  import opened ExtensionTypes

  /**
   * How `findByExtensionIncludeDeleted` is resolved. As the repository is
   * wired it runs through the soft-delete extension like every read; its
   * comment says it is meant to include soft-deleted rows.
   */
  datatype Lookup = ThroughSoftDeleteFilter | IncludingDeleted

  function ColumnsOf(row: CustomExtension): Columns
  {
    row.AsColumns()
  }

  /** Reference view: the rows that are not soft-deleted, in table order. */
  function ActiveRows(rows: seq<CustomExtension>): seq<CustomExtension>
  {
    if rows == [] then []
    else (if rows[0].IsActive() then [rows[0]] else []) + ActiveRows(rows[1..])
  }

  /** The constraints the database enforces: primary key and unique extension. */
  predicate TableConstraints(rows: seq<CustomExtension>)
  {
    && (forall i, j :: 0 <= i < j < |rows| ==> rows[i].id != rows[j].id)
    && (forall i, j :: 0 <= i < j < |rows| ==> rows[i].extension != rows[j].extension)
  }

  /** `{ deletedAt: null }` selects a row exactly when it is active. */
  lemma SelectedByDeletedAt(row: CustomExtension)
    ensures Selected(ColumnsOf(row), Some(map[DeletedAt := Null])) <==> row.IsActive()
  {
    var c := ColumnsOf(row);
    assert DeletedAt in c && c[DeletedAt] == DeletedAtValue(row.deletedAt);
  }

  /** `{ extension }` selects a row exactly when it holds that value; with the soft-delete filter, an active one. */
  lemma SelectedByExtension(row: CustomExtension, extension: string)
    ensures Selected(ColumnsOf(row), Some(map["extension" := Text(extension)])) <==> row.extension == extension
    ensures Selected(ColumnsOf(row), Some(map["extension" := Text(extension), DeletedAt := Null]))
        <==> row.extension == extension && row.IsActive()
  {
    var c := ColumnsOf(row);
    assert "extension" in c && c["extension"] == Text(row.extension);
    assert DeletedAt in c && c[DeletedAt] == DeletedAtValue(row.deletedAt);
    var w := map["extension" := Text(extension), DeletedAt := Null];
    assert "extension" in w && DeletedAt in w;
  }

  /** `{ id }` selects a row exactly when it has that id. */
  lemma SelectedById(row: CustomExtension, id: string)
    ensures Selected(ColumnsOf(row), Some(map["id" := Text(id)])) <==> row.id == id
  {
    var c := ColumnsOf(row);
    assert "id" in c && c["id"] == Text(row.id);
  }

  /** The read filter `{ deletedAt: null }` selects exactly the active rows. */
  lemma {:induction false} FilterIsActiveRows(rows: seq<CustomExtension>)
    ensures Filter(rows, ColumnsOf, Some(map[DeletedAt := Null])) == ActiveRows(rows)
  {
    if rows != [] {
      SelectedByDeletedAt(rows[0]);
      FilterIsActiveRows(rows[1..]);
    }
  }

  lemma ActiveRowsMembers(rows: seq<CustomExtension>)
    ensures forall x :: x in ActiveRows(rows) <==> x in rows && x.IsActive()
  {
    FilterIsActiveRows(rows);
  }

  /** `orderBy: { createdAt: "desc" }` puts a row before another exactly when it is not older. */
  lemma NewestFirst(a: CustomExtension, b: CustomExtension)
    ensures RowOrder(ColumnsOf, OrderBy("createdAt", Desc))(a, b) <==> a.createdAt >= b.createdAt
  {
    var ob := OrderBy("createdAt", Desc);
    assert RowOrder(ColumnsOf, ob)(a, b) == ColumnLe(ColumnsOf(a), ColumnsOf(b), ob);
    assert Get(ColumnsOf(a), "createdAt") == Time(a.createdAt);
    assert Get(ColumnsOf(b), "createdAt") == Time(b.createdAt);
  }

  /** `findAll`: the active rows, newest first. */
  function FindAll(rows: seq<CustomExtension>): (r: seq<CustomExtension>)
    ensures multiset(r) == multiset(ActiveRows(rows))
    ensures forall i, j :: 0 <= i < j < |r| ==> r[i].createdAt >= r[j].createdAt
  {
    var args := Args(None, Some(OrderBy("createdAt", Desc)));
    var r := AllOperations(FindMany, args, (a: Args) => EvalFindMany(rows, ColumnsOf, a));
    assert SoftDeleteArgs(FindMany, args) == Args(Some(map[DeletedAt := Null]), args.orderBy);
    FilterIsActiveRows(rows);
    forall i, j | 0 <= i < j < |r| ensures r[i].createdAt >= r[j].createdAt {
      NewestFirst(r[i], r[j]);
    }
    r
  }

  /** `findByExtensionIncludeDeleted`: the row holding `extension`, as `lookup` lets the query see the table. */
  function FindByExtensionIncludeDeleted(rows: seq<CustomExtension>, lookup: Lookup, extension: string)
    : (r: Option<CustomExtension>)
    ensures r.Some? ==> r.value in rows && r.value.extension == extension
    ensures r.Some? && lookup == ThroughSoftDeleteFilter ==> r.value.IsActive()
    ensures r.None? && lookup == IncludingDeleted ==> forall x :: x in rows ==> x.extension != extension
    ensures r.None? && lookup == ThroughSoftDeleteFilter ==>
      forall x :: x in rows && x.IsActive() ==> x.extension != extension
  {
    var args := Args(Some(map["extension" := Text(extension)]), None);
    match lookup
    case ThroughSoftDeleteFilter =>
      assert SoftDeleteArgs(FindUnique, args).where == Some(map["extension" := Text(extension), DeletedAt := Null]);
      forall x | x in rows {
        SelectedByExtension(x, extension);
      }
      AllOperations(FindUnique, args, (a: Args) => EvalFindFirst(rows, ColumnsOf, a.where))
    case IncludingDeleted =>
      forall x | x in rows {
        SelectedByExtension(x, extension);
      }
      EvalFindFirst(rows, ColumnsOf, args.where)
  }

  /** `count`: the number of active rows. */
  function Count(rows: seq<CustomExtension>): (n: nat)
    ensures n == |ActiveRows(rows)|
  {
    var args := Args(None, None);
    assert SoftDeleteArgs(Operation.Count, args).where == Some(map[DeletedAt := Null]);
    FilterIsActiveRows(rows);
    AllOperations(Operation.Count, args, (a: Args) => EvalCount(rows, ColumnsOf, a.where))
  }

  /** The row `create({ data: { extension } })` inserts: fresh timestamps, not deleted. */
  function NewRow(extension: string, id: string, now: Instant): CustomExtension
  {
    CustomExtension(id, extension, now, now, None)
  }

  /** Neither the id nor the extension is taken by any row, deleted or not. */
  predicate Insertable(rows: seq<CustomExtension>, id: string, extension: string)
  {
    forall x :: x in rows ==> x.id != id && x.extension != extension
  }

  /**
   * `create`: appends exactly one active row with the given value, or fails
   * on a unique index and leaves the table as it was. `create` is not a
   * read, so the soft-delete extension passes it through untouched.
   */
  function CreateResult(rows: seq<CustomExtension>, extension: string, id: string, now: Instant)
    : (w: Write<CustomExtension>)
    ensures w.outcome.Returned? <==> Insertable(rows, id, extension)
    ensures w.outcome.Returned? ==>
      && w.rows == rows + [w.outcome.value]
      && w.outcome.value.extension == extension && w.outcome.value.id == id
      && w.outcome.value.IsActive() && w.outcome.value.createdAt == now
    ensures w.outcome.Threw? ==> w.rows == rows && w.outcome.thrown == Unexpected(UniqueConstraintFailed)
    ensures TableConstraints(rows) ==> TableConstraints(w.rows)
  {
    if Insertable(rows, id, extension) then
      var row := NewRow(extension, id, now);
      Write(Returned(row), rows + [row])
    else
      Write(Threw(Unexpected(UniqueConstraintFailed)), rows)
  }

  /** Where `update({ where: { id } })` lands: `update` is not a read, so soft-deleted rows are found too. */
  function IndexOfId(rows: seq<CustomExtension>, id: string): (i: Option<nat>)
    ensures i.Some? ==> i.value < |rows| && rows[i.value].id == id
    ensures i.None? ==> forall x :: x in rows ==> x.id != id
  {
    var args := Args(Some(map["id" := Text(id)]), None);
    forall x | x in rows {
      SelectedById(x, id);
    }
    AllOperations(Update, args, (a: Args) => FirstMatch(rows, ColumnsOf, a.where))
  }

  /** With unique ids, looking a stored row up by its id finds that very row. */
  lemma IndexOfStoredRow(rows: seq<CustomExtension>, x: CustomExtension)
    requires TableConstraints(rows)
    requires x in rows
    ensures IndexOfId(rows, x.id).Some? && rows[IndexOfId(rows, x.id).value] == x
  {
    var k :| 0 <= k < |rows| && rows[k] == x;
    var i := IndexOfId(rows, x.id).value;
    assert !(i < k) && !(k < i);
  }

  /**
   * `update({ where: { id }, data: { deletedAt } })`: the row with that id
   * gets the new `deletedAt` (and a fresh `updatedAt`) and keeps its id,
   * extension and `createdAt`; every other row is untouched. No such row:
   * the update throws and nothing changes.
   */
  function UpdateDeletedAt(rows: seq<CustomExtension>, id: string, deletedAt: Option<Instant>, now: Instant)
    : (w: Write<CustomExtension>)
    ensures w.outcome.Returned? <==> exists x :: x in rows && x.id == id
    ensures w.outcome.Threw? ==> w.rows == rows && w.outcome.thrown == Unexpected(RecordNotFound)
    ensures w.outcome.Returned? ==>
      var prior := rows[IndexOfId(rows, id).value];
      && w.outcome.value == CustomExtension(prior.id, prior.extension, prior.createdAt, now, deletedAt)
      && w.rows == rows[IndexOfId(rows, id).value := w.outcome.value]
    ensures TableConstraints(rows) ==> TableConstraints(w.rows)
  {
    match IndexOfId(rows, id)
    case None => Write(Threw(Unexpected(RecordNotFound)), rows)
    case Some(i) =>
      var row := rows[i].(deletedAt := deletedAt, updatedAt := now);
      Write(Returned(row), rows[i := row])
  }

  function ActiveBit(row: CustomExtension): nat
  {
    if row.IsActive() then 1 else 0
  }

  /** Replacing one row changes the active count by the difference of the two rows' states. */
  lemma {:induction false} ActiveCountAfterReplace(rows: seq<CustomExtension>, i: nat, row: CustomExtension)
    requires i < |rows|
    ensures |ActiveRows(rows[i := row])| + ActiveBit(rows[i]) == |ActiveRows(rows)| + ActiveBit(row)
  {
    if i > 0 {
      ActiveCountAfterReplace(rows[1..], i - 1, row);
      assert rows[i := row][1..] == rows[1..][i - 1 := row];
    } else {
      assert rows[i := row][1..] == rows[1..];
    }
  }

  /** Appending one row adds one to the active count exactly when the row is active. */
  lemma {:induction false} ActiveCountAfterAppend(rows: seq<CustomExtension>, row: CustomExtension)
    ensures |ActiveRows(rows + [row])| == |ActiveRows(rows)| + ActiveBit(row)
  {
    if rows != [] {
      ActiveCountAfterAppend(rows[1..], row);
      assert (rows + [row])[1..] == rows[1..] + [row];
    }
  }

  /** `findAll` lists a row exactly when the row is in the table and active. */
  lemma FindAllMembers(rows: seq<CustomExtension>)
    ensures forall x :: x in FindAll(rows) <==> x in rows && x.IsActive()
  {
    ActiveRowsMembers(rows);
    var r := FindAll(rows);
    forall x ensures x in r <==> x in ActiveRows(rows) {
      assert x in r <==> x in multiset(r);
      assert x in ActiveRows(rows) <==> x in multiset(ActiveRows(rows));
    }
  }

  /**
   * `softDelete` keeps the row but hides it: it is no longer returned by
   * `findAll`, and `count` drops by one unless the row was already deleted,
   * in which case only its timestamp is re-stamped.
   */
  lemma SoftDeleteHidesRow(rows: seq<CustomExtension>, id: string, now: Instant)
    requires TableConstraints(rows)
    requires exists x :: x in rows && x.id == id
    ensures var w := UpdateDeletedAt(rows, id, Some(now), now);
      var before := rows[IndexOfId(rows, id).value];
      && w.outcome.Returned? && w.outcome.value.id == id && w.outcome.value in w.rows
      && (forall x :: x in FindAll(w.rows) ==> x.id != id)
      && Count(w.rows) + ActiveBit(before) == Count(rows)
  {
    var w := UpdateDeletedAt(rows, id, Some(now), now);
    var i := IndexOfId(rows, id).value;
    ActiveCountAfterReplace(rows, i, w.outcome.value);
    FindAllMembers(w.rows);
    assert w.rows[i] == w.outcome.value;
    forall k | 0 <= k < |w.rows| && w.rows[k].IsActive() ensures w.rows[k].id != id {
      assert k != i;
      assert w.rows[k] == rows[k];
    }
  }

  /** `restore` makes the row active again under its old id and adds one to `count` if it was deleted. */
  lemma RestoreRevealsRow(rows: seq<CustomExtension>, id: string, now: Instant)
    requires TableConstraints(rows)
    requires exists x :: x in rows && x.id == id
    ensures var w := UpdateDeletedAt(rows, id, None, now);
      var before := rows[IndexOfId(rows, id).value];
      && w.outcome.Returned? && w.outcome.value.id == id
      && w.outcome.value.createdAt == before.createdAt && w.outcome.value.extension == before.extension
      && w.outcome.value in multiset(FindAll(w.rows))
      && Count(w.rows) == Count(rows) + 1 - ActiveBit(before)
  {
    var w := UpdateDeletedAt(rows, id, None, now);
    var i := IndexOfId(rows, id).value;
    ActiveCountAfterReplace(rows, i, w.outcome.value);
    ActiveRowsMembers(w.rows);
    assert w.rows[i] == w.outcome.value;
    assert w.outcome.value in ActiveRows(w.rows);
  }

  /** The table as a mutable object: `create`, `restore` and `softDelete` change it in place. */
  class CustomExtensionTable {
    var rows: seq<CustomExtension>

    ghost predicate Valid()
      reads this
    {
      TableConstraints(rows)
    }

    constructor (initial: seq<CustomExtension>)
      requires TableConstraints(initial)
      ensures Valid() && rows == initial
    {
      rows := initial;
    }

    method Create(extension: string, id: string, now: Instant) returns (r: Outcome<CustomExtension>)
      requires Valid()
      modifies this
      ensures Valid()
      ensures Write(r, rows) == CreateResult(old(rows), extension, id, now)
    {
      if !Insertable(rows, id, extension) {
        return Threw(Unexpected(UniqueConstraintFailed));
      }
      var row := NewRow(extension, id, now);
      rows := rows + [row];
      r := Returned(row);
    }

    /** `update({ where: { id }, data: { deletedAt } })`, in place. */
    method SetDeletedAt(id: string, deletedAt: Option<Instant>, now: Instant) returns (r: Outcome<CustomExtension>)
      requires Valid()
      modifies this
      ensures Valid()
      ensures Write(r, rows) == UpdateDeletedAt(old(rows), id, deletedAt, now)
    {
      var i := IndexOfId(rows, id);
      if i.None? {
        return Threw(Unexpected(RecordNotFound));
      }
      var row := rows[i.value].(deletedAt := deletedAt, updatedAt := now);
      rows := rows[i.value := row];
      r := Returned(row);
    }

    method Restore(id: string, now: Instant) returns (r: Outcome<CustomExtension>)
      requires Valid()
      modifies this
      ensures Valid()
      ensures Write(r, rows) == UpdateDeletedAt(old(rows), id, None, now)
    {
      r := SetDeletedAt(id, None, now);
    }

    method SoftDelete(id: string, now: Instant) returns (r: Outcome<CustomExtension>)
      requires Valid()
      modifies this
      ensures Valid()
      ensures Write(r, rows) == UpdateDeletedAt(old(rows), id, Some(now), now)
    {
      r := SetDeletedAt(id, Some(now), now);
    }
  }
}
