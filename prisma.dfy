/**
 * The soft-delete extension of the Prisma client. Every query on every
 * model passes through `AllOperations`; for the eight read operations the
 * `where` filter gains `deletedAt: null`, every other operation is passed
 * on untouched.
 */
module Prisma {
  import opened Optional

  /** The Prisma actions a model delegate can run. */
  datatype Operation =
    | FindUnique | FindUniqueOrThrow | FindFirst | FindFirstOrThrow | FindMany
    | Create | CreateMany | CreateManyAndReturn
    | Update | UpdateMany | UpdateManyAndReturn | Upsert
    | Delete | DeleteMany
    | Aggregate | Count | GroupBy
    | ExecuteRaw | QueryRaw | FindRaw | RunCommandRaw

  /** `READ_OPERATIONS`, in the source's order. */
  const ReadOperations: seq<Operation> :=
    [FindFirst, FindFirstOrThrow, FindUnique, FindUniqueOrThrow, FindMany, Count, Aggregate, GroupBy]

  /** `isReadOperation`: membership in `READ_OPERATIONS`. */
  function IsReadOperation(op: Operation): (r: bool)
    ensures r <==> (|| op == FindFirst || op == FindFirstOrThrow || op == FindUnique || op == FindUniqueOrThrow
                    || op == FindMany || op == Count || op == Aggregate || op == GroupBy)
  {
    op in ReadOperations
  }

  /** A column value as it appears in a filter or a row. */
  datatype Value = Null | Bool(b: bool) | Time(t: nat) | Text(s: string)

  /** A `where` object: column name to required value (`null` means "is null"). */
  type Where = map<string, Value>

  /** A row seen as a record of column values. */
  type Columns = map<string, Value>

  datatype Direction = Asc | Desc

  datatype OrderBy = OrderBy(field: string, direction: Direction)

  /** The query arguments the extension can see: the filter and the ordering. */
  datatype Args = Args(where: Option<Where>, orderBy: Option<OrderBy>)

  const DeletedAt: string := "deletedAt"

  function KeysOf(where: Option<Where>): set<string>
  {
    if where.Some? then where.value.Keys else {}
  }

  /**
   * `args.where = { ...args.where, deletedAt: null }` on reads. The spread
   * keeps every key of the old filter (none if there was no filter) and,
   * because `deletedAt` comes last, overrides whatever the caller asked of
   * `deletedAt`.
   */
  function SoftDeleteArgs(op: Operation, args: Args): (r: Args)
    ensures r.orderBy == args.orderBy
    ensures !IsReadOperation(op) ==> r == args
    ensures IsReadOperation(op) ==> r.where.Some?
    ensures IsReadOperation(op) ==> r.where.value.Keys == KeysOf(args.where) + {DeletedAt}
    ensures IsReadOperation(op) ==> r.where.value[DeletedAt] == Null
    ensures IsReadOperation(op) ==>
      forall k :: k in KeysOf(args.where) && k != DeletedAt ==> r.where.value[k] == args.where.value[k]
  {
    if IsReadOperation(op) then
      var given := if args.where.Some? then args.where.value else map[];
      Args(Some(given[DeletedAt := Null]), args.orderBy)
    else
      args
  }

  /** `$allOperations`: run the query once, on the possibly rewritten arguments. */
  function AllOperations<Q>(op: Operation, args: Args, query: Args -> Q): Q
  {
    query(SoftDeleteArgs(op, args))
  }

  /** Writes reach the database with the caller's arguments. */
  lemma WritesPassThrough<Q>(op: Operation, args: Args, query: Args -> Q)
    requires !IsReadOperation(op)
    ensures AllOperations(op, args, query) == query(args)
  {
  }

  /** A read with no filter is run with the filter `{ deletedAt: null }` alone. */
  lemma UnfilteredReadSeesActiveOnly<Q>(op: Operation, orderBy: Option<OrderBy>, query: Args -> Q)
    requires IsReadOperation(op)
    ensures AllOperations(op, Args(None, orderBy), query) == query(Args(Some(map[DeletedAt := Null]), orderBy))
  {
  }

  /** A caller's own `deletedAt` condition on a read is replaced by `null`. */
  lemma CallerDeletedAtOverridden(op: Operation, where: Where, v: Value)
    requires IsReadOperation(op)
    ensures SoftDeleteArgs(op, Args(Some(where[DeletedAt := v]), None)).where == Some(where[DeletedAt := Null])
  {
    assert where[DeletedAt := v][DeletedAt := Null] == where[DeletedAt := Null];
  }
}
