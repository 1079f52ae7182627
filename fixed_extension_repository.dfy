/**
 * `fixedExtensionRepository`: the seeded extensions. Reads go through the
 * soft-delete extension; the only write flips `isBlocked` on one row.
 * The seed script upserts on `extension`, so that column is unique here too.
 */
module FixedExtensionRepository {
  import opened Optional
  import opened Assertions
  import opened Prisma
  import opened QueryEngine
  import opened ExtensionTypes

  function ColumnsOf(row: FixedExtension): Columns
  {
    row.AsColumns()
  }

  /** Reference view: the rows that are not soft-deleted, in table order. */
  function ActiveRows(rows: seq<FixedExtension>): seq<FixedExtension>
  {
    if rows == [] then []
    else (if rows[0].IsActive() then [rows[0]] else []) + ActiveRows(rows[1..])
  }

  /** A table with no soft-deleted row is its own active view. */
  lemma {:induction false} ActiveRowsOfActive(rows: seq<FixedExtension>)
    requires forall x :: x in rows ==> x.IsActive()
    ensures ActiveRows(rows) == rows
  {
    if rows != [] {
      assert rows[0] in rows;
      assert forall x :: x in rows[1..] ==> x in rows;
      ActiveRowsOfActive(rows[1..]);
      assert rows == [rows[0]] + rows[1..];
    }
  }

  /** Primary key and unique extension. */
  predicate TableConstraints(rows: seq<FixedExtension>)
  {
    && (forall i, j :: 0 <= i < j < |rows| ==> rows[i].id != rows[j].id)
    && (forall i, j :: 0 <= i < j < |rows| ==> rows[i].extension != rows[j].extension)
  }

  lemma SelectedByDeletedAt(row: FixedExtension)
    ensures Selected(ColumnsOf(row), Some(map[DeletedAt := Null])) <==> row.IsActive()
  {
    var c := ColumnsOf(row);
    assert DeletedAt in c && c[DeletedAt] == DeletedAtValue(row.deletedAt);
  }

  lemma SelectedByActiveExtension(row: FixedExtension, extension: string)
    ensures Selected(ColumnsOf(row), Some(map["extension" := Text(extension), DeletedAt := Null]))
        <==> row.extension == extension && row.IsActive()
  {
    var c := ColumnsOf(row);
    assert "extension" in c && c["extension"] == Text(row.extension);
    assert DeletedAt in c && c[DeletedAt] == DeletedAtValue(row.deletedAt);
    var w := map["extension" := Text(extension), DeletedAt := Null];
    assert "extension" in w && DeletedAt in w;
  }

  lemma SelectedById(row: FixedExtension, id: string)
    ensures Selected(ColumnsOf(row), Some(map["id" := Text(id)])) <==> row.id == id
  {
    var c := ColumnsOf(row);
    assert "id" in c && c["id"] == Text(row.id);
  }

  lemma {:induction false} FilterIsActiveRows(rows: seq<FixedExtension>)
    ensures Filter(rows, ColumnsOf, Some(map[DeletedAt := Null])) == ActiveRows(rows)
  {
    if rows != [] {
      SelectedByDeletedAt(rows[0]);
      FilterIsActiveRows(rows[1..]);
    }
  }

  /** `orderBy: { extension: "asc" }` puts a row before another exactly when its value is not greater. */
  lemma ByExtension(a: FixedExtension, b: FixedExtension)
    ensures RowOrder(ColumnsOf, OrderBy("extension", Asc))(a, b) <==> LexLe(a.extension, b.extension)
  {
    var ob := OrderBy("extension", Asc);
    assert RowOrder(ColumnsOf, ob)(a, b) == ColumnLe(ColumnsOf(a), ColumnsOf(b), ob);
    assert Get(ColumnsOf(a), "extension") == Text(a.extension);
    assert Get(ColumnsOf(b), "extension") == Text(b.extension);
  }

  /** `findAll`: the active rows, in ascending order of their extension. */
  function FindAll(rows: seq<FixedExtension>): (r: seq<FixedExtension>)
    ensures multiset(r) == multiset(ActiveRows(rows))
    ensures forall i, j :: 0 <= i < j < |r| ==> LexLe(r[i].extension, r[j].extension)
  {
    var args := Args(None, Some(OrderBy("extension", Asc)));
    var r := AllOperations(FindMany, args, (a: Args) => EvalFindMany(rows, ColumnsOf, a));
    assert SoftDeleteArgs(FindMany, args) == Args(Some(map[DeletedAt := Null]), args.orderBy);
    FilterIsActiveRows(rows);
    forall i, j | 0 <= i < j < |r| ensures LexLe(r[i].extension, r[j].extension) {
      ByExtension(r[i], r[j]);
    }
    r
  }

  /** `findByExtension`: an active row holding the value, or none when no active row does. */
  function FindByExtension(rows: seq<FixedExtension>, extension: string): (r: Option<FixedExtension>)
    ensures r.Some? ==> r.value in rows && r.value.extension == extension && r.value.IsActive()
    ensures r.None? ==> forall x :: x in rows && x.IsActive() ==> x.extension != extension
  {
    var args := Args(Some(map["extension" := Text(extension)]), None);
    assert SoftDeleteArgs(FindFirst, args).where == Some(map["extension" := Text(extension), DeletedAt := Null]);
    forall x | x in rows {
      SelectedByActiveExtension(x, extension);
    }
    AllOperations(FindFirst, args, (a: Args) => EvalFindFirst(rows, ColumnsOf, a.where))
  }

  /** Where `update({ where: { id } })` lands; `update` is not a read, so it is not filtered. */
  function IndexOfId(rows: seq<FixedExtension>, id: string): (i: Option<nat>)
    ensures i.Some? ==> i.value < |rows| && rows[i.value].id == id
    ensures i.Some? ==> forall j :: 0 <= j < i.value ==> rows[j].id != id
    ensures i.None? ==> forall x :: x in rows ==> x.id != id
  {
    var args := Args(Some(map["id" := Text(id)]), None);
    forall x | x in rows {
      SelectedById(x, id);
    }
    AllOperations(Update, args, (a: Args) => FirstMatch(rows, ColumnsOf, a.where))
  }

  /**
   * `updateBlockStatus`: the row with that id gets the flag (and a fresh
   * `updatedAt`); its id, extension, `createdAt` and `deletedAt` and every
   * other row stay as they were. No such row: the update throws.
   */
  function UpdateBlockStatusResult(rows: seq<FixedExtension>, id: string, isBlocked: bool, now: Instant)
    : (w: Write<FixedExtension>)
    ensures w.outcome.Returned? <==> exists x :: x in rows && x.id == id
    ensures w.outcome.Threw? ==> w.rows == rows && w.outcome.thrown == Unexpected(RecordNotFound)
    ensures w.outcome.Returned? ==>
      var i := IndexOfId(rows, id).value;
      && w.outcome.value == FixedExtension(id, rows[i].extension, isBlocked, rows[i].createdAt, now, rows[i].deletedAt)
      && |w.rows| == |rows| && w.rows[i] == w.outcome.value
      && forall j :: 0 <= j < |rows| && j != i ==> w.rows[j] == rows[j]
    ensures TableConstraints(rows) ==> TableConstraints(w.rows)
  {
    match IndexOfId(rows, id)
    case None => Write(Threw(Unexpected(RecordNotFound)), rows)
    case Some(i) =>
      var row := rows[i].(isBlocked := isBlocked, updatedAt := now);
      Write(Returned(row), rows[i := row])
  }

  /** Rewriting the row an id is found at, keeping the id, leaves the id found at the same place. */
  lemma IndexOfIdKept(rows: seq<FixedExtension>, id: string, i: nat, row: FixedExtension)
    requires IndexOfId(rows, id) == Some(i) && row.id == id
    ensures IndexOfId(rows[i := row], id) == Some(i)
  {
    var after := rows[i := row];
    assert after[i] in after;
  }

  /** Setting the flag to the opposite and back leaves every row as it was, up to `updatedAt`. */
  lemma ToggleRoundTrip(rows: seq<FixedExtension>, id: string, first: Instant, second: Instant)
    requires exists x :: x in rows && x.id == id
    ensures var i := IndexOfId(rows, id).value;
      var flipped := UpdateBlockStatusResult(rows, id, !rows[i].isBlocked, first);
      var back := UpdateBlockStatusResult(flipped.rows, id, rows[i].isBlocked, second);
      && flipped.outcome.Returned? && flipped.outcome.value.isBlocked != rows[i].isBlocked
      && back.rows == rows[i := rows[i].(updatedAt := second)]
  {
    var i := IndexOfId(rows, id).value;
    var flipped := UpdateBlockStatusResult(rows, id, !rows[i].isBlocked, first);
    IndexOfIdKept(rows, id, i, flipped.outcome.value);
  }

  /** Setting the same flag twice is the same as setting it once (at the later time). */
  lemma SetTwiceIsSetOnce(rows: seq<FixedExtension>, id: string, isBlocked: bool, first: Instant, second: Instant)
    ensures var once := UpdateBlockStatusResult(rows, id, isBlocked, first);
      UpdateBlockStatusResult(once.rows, id, isBlocked, second) == UpdateBlockStatusResult(rows, id, isBlocked, second)
  {
    var once := UpdateBlockStatusResult(rows, id, isBlocked, first);
    if exists x :: x in rows && x.id == id {
      var i := IndexOfId(rows, id).value;
      IndexOfIdKept(rows, id, i, once.outcome.value);
    }
  }

  /** The extensions the seed script installs, all initially unblocked. */
  const SeededExtensions: seq<string> := ["bat", "cmd", "com", "cpl", "exe", "scr", "js"]

  /** The seeded table; the ids stand in for the ones the database generates. */
  function SeedRows(now: Instant): (rows: seq<FixedExtension>)
    ensures |rows| == |SeededExtensions|
    ensures forall i :: 0 <= i < |rows| ==>
      rows[i].extension == SeededExtensions[i] && !rows[i].isBlocked && rows[i].IsActive()
  {
    seq(|SeededExtensions|, i requires 0 <= i < |SeededExtensions| =>
      FixedExtension("seed-" + SeededExtensions[i], SeededExtensions[i], false, now, now, None))
  }

  lemma SeedRowsSatisfyConstraints(now: Instant)
    ensures TableConstraints(SeedRows(now))
  {
    var rows := SeedRows(now);
    forall i, j | 0 <= i < j < |rows| ensures rows[i].id != rows[j].id && rows[i].extension != rows[j].extension {
      assert rows[i].id == "seed-" + rows[i].extension;
      assert rows[j].id == "seed-" + rows[j].extension;
      assert rows[i].id[5..] == rows[i].extension;
      assert rows[j].id[5..] == rows[j].extension;
    }
  }

  /** The table as a mutable object: `updateBlockStatus` changes one row in place. */
  class FixedExtensionTable {
    var rows: seq<FixedExtension>

    ghost predicate Valid()
      reads this
    {
      TableConstraints(rows)
    }

    constructor (initial: seq<FixedExtension>)
      requires TableConstraints(initial)
      ensures Valid() && rows == initial
    {
      rows := initial;
    }

    method UpdateBlockStatus(id: string, isBlocked: bool, now: Instant) returns (r: Outcome<FixedExtension>)
      requires Valid()
      modifies this
      ensures Valid()
      ensures Write(r, rows) == UpdateBlockStatusResult(old(rows), id, isBlocked, now)
    {
      var i := IndexOfId(rows, id);
      if i.None? {
        return Threw(Unexpected(RecordNotFound));
      }
      var row := rows[i.value].(isBlocked := isBlocked, updatedAt := now);
      rows := rows[i.value := row];
      r := Returned(row);
    }
  }
}
