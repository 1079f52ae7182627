/**
 * The two record kinds the store holds. Both carry a nullable `deletedAt`:
 * a row whose `deletedAt` is set is soft-deleted, kept in the table but
 * hidden from reads.
 */
module ExtensionTypes {
  import opened Optional
  import opened Prisma

  /** An abstract clock reading; the model never looks inside a date. */
  type Instant = nat

  function DeletedAtValue(deletedAt: Option<Instant>): Value
  {
    if deletedAt.None? then Null else Time(deletedAt.value)
  }

  /** A user-defined blocked extension. */
  datatype CustomExtension = CustomExtension(
    id: string,
    extension: string,
    createdAt: Instant,
    updatedAt: Instant,
    deletedAt: Option<Instant>)
  {
    predicate IsActive()
    {
      deletedAt.None?
    }

    /** The row as the database's filters see it. */
    function AsColumns(): Columns
    {
      map["id" := Text(id), "extension" := Text(extension), "createdAt" := Time(createdAt),
          "updatedAt" := Time(updatedAt), DeletedAt := DeletedAtValue(deletedAt)]
    }
  }

  /** One of the seeded extensions whose blocking the user toggles. */
  datatype FixedExtension = FixedExtension(
    id: string,
    extension: string,
    isBlocked: bool,
    createdAt: Instant,
    updatedAt: Instant,
    deletedAt: Option<Instant>)
  {
    predicate IsActive()
    {
      deletedAt.None?
    }

    function AsColumns(): Columns
    {
      map["id" := Text(id), "extension" := Text(extension), "isBlocked" := Bool(isBlocked),
          "createdAt" := Time(createdAt), "updatedAt" := Time(updatedAt), DeletedAt := DeletedAtValue(deletedAt)]
    }
  }
}
