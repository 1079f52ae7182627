/**
 * What `add`, `remove` and the block-status update promise together: the
 * outcome of `add` in each of its situations, the consequence of the
 * include-deleted lookup running through the soft-delete filter, and the
 * invariant the three writes keep over both tables.
 */
module AdmissionProperties {
  import opened Optional
  import opened Assertions
  import opened QueryEngine
  import opened ExtensionTypes
  import opened CustomExtensionRepository
  import opened CustomExtensionService
  import Fixed = FixedExtensionRepository

  /** Past validation, `add` is `Admit` on the normalised value. */
  lemma AddResultAdmits(custom: seq<CustomExtension>, fixed: seq<FixedExtension>, lookup: Lookup,
                        raw: string, now: Instant, newId: string)
    requires WellFormed(Normalize(raw))
    ensures AddResult(custom, fixed, lookup, raw, now, newId) == Admit(custom, fixed, lookup, Normalize(raw), now, newId)
  {
  }

  /** A value that fails validation leaves the table alone. */
  lemma AddResultRejectsMalformed(custom: seq<CustomExtension>, fixed: seq<FixedExtension>, lookup: Lookup,
                                  raw: string, now: Instant, newId: string)
    requires !WellFormed(Normalize(raw))
    ensures AddResult(custom, fixed, lookup, raw, now, newId) == Write(Validate(Normalize(raw)).PropagateFailure(), custom)
  {
  }

  /** An active custom row already holds the value: 409, nothing written, under either lookup. */
  lemma DuplicateRejected(custom: seq<CustomExtension>, fixed: seq<FixedExtension>, lookup: Lookup,
                          raw: string, now: Instant, newId: string, i: nat)
    requires TableConstraints(custom)
    requires WellFormed(Normalize(raw))
    requires i < |custom| && custom[i].extension == Normalize(raw) && custom[i].IsActive()
    ensures AddResult(custom, fixed, lookup, raw, now, newId)
         == Write(Threw(Api(ApiError(DuplicateMessage, 409))), custom)
  {
    AddResultAdmits(custom, fixed, lookup, raw, now, newId);
    var found := FindByExtensionIncludeDeleted(custom, lookup, Normalize(raw));
    assert custom[i] in custom;
    var k :| 0 <= k < |custom| && custom[k] == found.value;
    assert k == i;
  }

  /**
   * With the lookup seeing soft-deleted rows, re-adding a removed value
   * brings back the same row (same id and creation time), whatever the
   * fixed list holds and however full the custom list is.
   */
  lemma RestoreReusesRecord(custom: seq<CustomExtension>, fixed: seq<FixedExtension>,
                            raw: string, now: Instant, newId: string, i: nat)
    requires TableConstraints(custom)
    requires WellFormed(Normalize(raw))
    requires i < |custom| && custom[i].extension == Normalize(raw) && !custom[i].IsActive()
    ensures var restored := custom[i].(deletedAt := None, updatedAt := now);
      AddResult(custom, fixed, IncludingDeleted, raw, now, newId) == Write(Returned(restored), custom[i := restored])
  {
    AddResultAdmits(custom, fixed, IncludingDeleted, raw, now, newId);
    var found := FindByExtensionIncludeDeleted(custom, IncludingDeleted, Normalize(raw));
    assert custom[i] in custom;
    var k :| 0 <= k < |custom| && custom[k] == found.value;
    assert k == i;
    IndexOfStoredRow(custom, custom[i]);
  }

  /** The value is an active fixed extension (blocked or not) and no custom row holds it: 409. */
  lemma FixedCollisionRejected(custom: seq<CustomExtension>, fixed: seq<FixedExtension>, lookup: Lookup,
                               raw: string, now: Instant, newId: string, j: nat)
    requires WellFormed(Normalize(raw))
    requires forall x :: x in custom ==> x.extension != Normalize(raw)
    requires j < |fixed| && fixed[j].extension == Normalize(raw) && fixed[j].IsActive()
    ensures AddResult(custom, fixed, lookup, raw, now, newId)
         == Write(Threw(Api(ApiError(FixedCollisionMessage, 409))), custom)
  {
    AddResultAdmits(custom, fixed, lookup, raw, now, newId);
    assert fixed[j] in fixed;
  }

  /** A new value while 200 custom extensions are active: 400 (not 409), nothing written. */
  lemma CapacityRejected(custom: seq<CustomExtension>, fixed: seq<FixedExtension>, lookup: Lookup,
                         raw: string, now: Instant, newId: string)
    requires WellFormed(Normalize(raw))
    requires forall x :: x in custom ==> x.extension != Normalize(raw)
    requires forall y :: y in fixed && y.IsActive() ==> y.extension != Normalize(raw)
    requires Count(custom) >= MaxCustomExtensions
    ensures AddResult(custom, fixed, lookup, raw, now, newId)
         == Write(Threw(Api(ApiError(CapacityMessage, 400))), custom)
  {
    AddResultAdmits(custom, fixed, lookup, raw, now, newId);
  }

  /** A new value, below capacity, with a fresh id: one active row is appended and the count grows by one. */
  lemma CreatesNewRecord(custom: seq<CustomExtension>, fixed: seq<FixedExtension>, lookup: Lookup,
                         raw: string, now: Instant, newId: string)
    requires WellFormed(Normalize(raw))
    requires forall x :: x in custom ==> x.extension != Normalize(raw) && x.id != newId
    requires forall y :: y in fixed && y.IsActive() ==> y.extension != Normalize(raw)
    requires Count(custom) < MaxCustomExtensions
    ensures var row := CustomExtension(newId, Normalize(raw), now, now, None);
      && AddResult(custom, fixed, lookup, raw, now, newId) == Write(Returned(row), custom + [row])
      && Count(custom + [row]) == Count(custom) + 1
  {
    AddResultAdmits(custom, fixed, lookup, raw, now, newId);
    var extension := Normalize(raw);
    var row := CustomExtension(newId, extension, now, now, None);
    assert FindByExtensionIncludeDeleted(custom, lookup, extension).None? by {
      var found := FindByExtensionIncludeDeleted(custom, lookup, extension);
      if found.Some? { assert found.value in custom; }
    }
    assert Fixed.FindByExtension(fixed, extension).None?;
    assert Insertable(custom, newId, extension);
    assert Admit(custom, fixed, lookup, extension, now, newId) == CreateResult(custom, extension, newId, now);
    ActiveCountAfterAppend(custom, row);
  }

  /**
   * As wired (the lookup runs through the soft-delete filter), `add` never
   * restores: it either leaves the table alone or appends one row.
   */
  lemma RestoreUnreachableAsWired(custom: seq<CustomExtension>, fixed: seq<FixedExtension>,
                                  raw: string, now: Instant, newId: string)
    ensures var w := AddResult(custom, fixed, ThroughSoftDeleteFilter, raw, now, newId);
      w.rows == custom || (w.outcome.Returned? && w.rows == custom + [w.outcome.value])
  {
    var extension := Normalize(raw);
    if WellFormed(extension) {
      AddResultAdmits(custom, fixed, ThroughSoftDeleteFilter, raw, now, newId);
      var found := FindByExtensionIncludeDeleted(custom, ThroughSoftDeleteFilter, extension);
      if found.Some? {
        assert found.value.IsActive();
      } else {
        var notFixed := Assert(Fixed.FindByExtension(fixed, extension).None?, FixedCollisionMessage, 409);
        var room := Assert(Count(custom) < MaxCustomExtensions, CapacityMessage);
        if notFixed.Returned? && room.Returned? {
          assert Admit(custom, fixed, ThroughSoftDeleteFilter, extension, now, newId)
              == CreateResult(custom, extension, newId, now);
        }
      }
    } else {
      AddResultRejectsMalformed(custom, fixed, ThroughSoftDeleteFilter, raw, now, newId);
    }
  }

  /**
   * As wired, re-adding a removed value that is otherwise admissible skips
   * the restore, tries to create, and hits the unique index on the value:
   * an unexpected fault (answered with 500), nothing written.
   */
  lemma ReAddAfterRemoveFailsAsWired(custom: seq<CustomExtension>, fixed: seq<FixedExtension>,
                                     raw: string, now: Instant, newId: string, i: nat)
    requires TableConstraints(custom)
    requires WellFormed(Normalize(raw))
    requires i < |custom| && custom[i].extension == Normalize(raw) && !custom[i].IsActive()
    requires forall y :: y in fixed && y.IsActive() ==> y.extension != Normalize(raw)
    requires Count(custom) < MaxCustomExtensions
    ensures AddResult(custom, fixed, ThroughSoftDeleteFilter, raw, now, newId)
         == Write(Threw(Unexpected(UniqueConstraintFailed)), custom)
  {
    AddResultAdmits(custom, fixed, ThroughSoftDeleteFilter, raw, now, newId);
    AdmitSoftDeletedAsWired(custom, fixed, Normalize(raw), now, newId, i);
  }

  /** The admission steps of `ReAddAfterRemoveFailsAsWired`, on the normalised value. */
  lemma AdmitSoftDeletedAsWired(custom: seq<CustomExtension>, fixed: seq<FixedExtension>,
                                extension: string, now: Instant, newId: string, i: nat)
    requires TableConstraints(custom)
    requires i < |custom| && custom[i].extension == extension && !custom[i].IsActive()
    requires forall y :: y in fixed && y.IsActive() ==> y.extension != extension
    requires Count(custom) < MaxCustomExtensions
    ensures Admit(custom, fixed, ThroughSoftDeleteFilter, extension, now, newId)
         == Write(Threw(Unexpected(UniqueConstraintFailed)), custom)
  {
    assert custom[i] in custom;
  }

  /**
   * What holds of the two tables between requests: the database constraints,
   * every stored custom value well formed, no custom value equal to an
   * active fixed extension, and at most 200 active custom extensions.
   */
  predicate SystemInvariant(custom: seq<CustomExtension>, fixed: seq<FixedExtension>)
  {
    && TableConstraints(custom)
    && Fixed.TableConstraints(fixed)
    && (forall x :: x in custom ==> WellFormed(x.extension))
    && (forall x, y :: x in custom && y in fixed && y.IsActive() ==> x.extension != y.extension)
    && Count(custom) <= MaxCustomExtensions
  }

  /**
   * As wired, an `add` that succeeds has passed the fixed-list check and the
   * capacity check and has created a new row.
   */
  lemma AdmittedAsWired(custom: seq<CustomExtension>, fixed: seq<FixedExtension>,
                        extension: string, now: Instant, newId: string)
    requires Admit(custom, fixed, ThroughSoftDeleteFilter, extension, now, newId).outcome.Returned?
    ensures forall y :: y in fixed && y.IsActive() ==> y.extension != extension
    ensures Count(custom) < MaxCustomExtensions
    ensures Admit(custom, fixed, ThroughSoftDeleteFilter, extension, now, newId) == CreateResult(custom, extension, newId, now)
  {
    var found := FindByExtensionIncludeDeleted(custom, ThroughSoftDeleteFilter, extension);
    assert found.None? by {
      if found.Some? {
        assert found.value.IsActive();
      }
    }
  }

  /** `add` as wired keeps the invariant. */
  lemma AddPreservesInvariant(custom: seq<CustomExtension>, fixed: seq<FixedExtension>,
                              raw: string, now: Instant, newId: string)
    requires SystemInvariant(custom, fixed)
    ensures SystemInvariant(AddResult(custom, fixed, ThroughSoftDeleteFilter, raw, now, newId).rows, fixed)
  {
    var w := AddResult(custom, fixed, ThroughSoftDeleteFilter, raw, now, newId);
    if w.outcome.Returned? {
      var extension := Normalize(raw);
      var row := w.outcome.value;
      assert WellFormed(extension) && row.extension == extension;
      AddResultAdmits(custom, fixed, ThroughSoftDeleteFilter, raw, now, newId);
      AdmittedAsWired(custom, fixed, extension, now, newId);
      assert w.rows == custom + [row];
      AppendKeepsInvariant(custom, fixed, row);
    }
  }

  /** Appending an active, well-formed row that no active fixed extension holds, below capacity, keeps the invariant. */
  lemma AppendKeepsInvariant(custom: seq<CustomExtension>, fixed: seq<FixedExtension>, row: CustomExtension)
    requires SystemInvariant(custom, fixed)
    requires TableConstraints(custom + [row])
    requires row.IsActive() && WellFormed(row.extension)
    requires forall y :: y in fixed && y.IsActive() ==> y.extension != row.extension
    requires Count(custom) < MaxCustomExtensions
    ensures SystemInvariant(custom + [row], fixed)
  {
    ActiveCountAfterAppend(custom, row);
    forall x | x in custom + [row] ensures x in custom || x == row {
    }
  }

  /**
   * With the lookup seeing soft-deleted rows, a restore is not counted
   * against the capacity: with 200 active rows, re-adding a removed value
   * leaves 201 active.
   */
  lemma RestoreCanExceedCapacity(custom: seq<CustomExtension>, fixed: seq<FixedExtension>,
                                 raw: string, now: Instant, newId: string, i: nat)
    requires TableConstraints(custom)
    requires WellFormed(Normalize(raw))
    requires i < |custom| && custom[i].extension == Normalize(raw) && !custom[i].IsActive()
    requires Count(custom) == MaxCustomExtensions
    ensures Count(AddResult(custom, fixed, IncludingDeleted, raw, now, newId).rows) == MaxCustomExtensions + 1
  {
    RestoreReusesRecord(custom, fixed, raw, now, newId, i);
    ActiveCountAfterReplace(custom, i, custom[i].(deletedAt := None, updatedAt := now));
  }

  /**
   * Removing a stored row by its id marks that row, and only it, as deleted
   * (keeping its id, value and creation time); when it was active, one
   * fewer extension is active.
   */
  lemma RemoveMarksRow(custom: seq<CustomExtension>, i: nat, now: Instant)
    requires TableConstraints(custom)
    requires i < |custom|
    ensures var w := RemoveResult(custom, custom[i].id, now);
      && w.outcome == Returned(custom[i].(deletedAt := Some(now), updatedAt := now))
      && w.rows == custom[i := w.outcome.value]
      && (custom[i].IsActive() ==> Count(w.rows) == Count(custom) - 1)
  {
    var w := RemoveResult(custom, custom[i].id, now);
    assert custom[i] in custom;
    IndexOfStoredRow(custom, custom[i]);
    ActiveCountAfterReplace(custom, i, w.outcome.value);
  }

  /** `remove` keeps the invariant. */
  lemma RemovePreservesInvariant(custom: seq<CustomExtension>, fixed: seq<FixedExtension>, id: string, now: Instant)
    requires SystemInvariant(custom, fixed)
    ensures SystemInvariant(RemoveResult(custom, id, now).rows, fixed)
  {
    var w := RemoveResult(custom, id, now);
    if w.outcome.Returned? {
      var i := IndexOfId(custom, id).value;
      assert w.rows == custom[i := w.outcome.value];
      assert custom[i] in custom;
      forall x | x in w.rows ensures x in custom || x.extension == custom[i].extension {
      }
    }
  }

  /** Changing a fixed extension's block status keeps the invariant. */
  lemma BlockStatusPreservesInvariant(custom: seq<CustomExtension>, fixed: seq<FixedExtension>,
                                      id: string, isBlocked: bool, now: Instant)
    requires SystemInvariant(custom, fixed)
    ensures SystemInvariant(custom, Fixed.UpdateBlockStatusResult(fixed, id, isBlocked, now).rows)
  {
    var w := Fixed.UpdateBlockStatusResult(fixed, id, isBlocked, now);
    if w.outcome.Returned? {
      var i := Fixed.IndexOfId(fixed, id).value;
      assert fixed[i] in fixed;
      forall y | y in w.rows && y.IsActive() ensures exists z :: z in fixed && z.IsActive() && z.extension == y.extension {
        var j :| 0 <= j < |w.rows| && w.rows[j] == y;
        assert fixed[j] in fixed;
      }
    }
  }
}
