/**
 * `customExtensionService`: admission of a user-typed extension into the
 * custom list. `add` normalises the raw text, validates it (empty, then too
 * long, then bad characters), looks for the value among the custom rows
 * (restoring a soft-deleted row, rejecting an active one), rejects a value
 * that is a fixed extension, enforces the capacity, and only then creates.
 * Each step either throws or moves on; at most one write happens, and only
 * as the last step.
 */
module CustomExtensionService {
  import opened Optional
  import opened Assertions
  import opened QueryEngine
  import opened ExtensionTypes
  import opened JsString
  import opened CustomExtensionRepository
  import Fixed = FixedExtensionRepository

  const MaxExtensionLength: nat := 20
  const MaxCustomExtensions: nat := 200

  const EmptyMessage: string := "확장자를 입력해주세요."
  /** The length message with the maximum (20) filled in. */
  const TooLongMessage: string := "확장자는 20자 이하로 입력해주세요."
  const CharsetMessage: string := "확장자는 영문과 숫자만 입력 가능합니다."
  const DuplicateMessage: string := "이미 등록된 확장자입니다."
  const FixedCollisionMessage: string := "고정 확장자에 이미 존재하는 확장자입니다."
  /** The capacity message with the maximum (200) filled in. */
  const CapacityMessage: string := "커스텀 확장자는 최대 200개까지 추가 가능합니다."

  /** `.replace(/^\./, "")`: removes one leading dot, if there is one. */
  function StripLeadingDot(s: string): string
  {
    if s != [] && s[0] == '.' then s[1..] else s
  }

  /** `raw.toLowerCase().trim().replace(/^\./, "")`. */
  function Normalize(raw: string): (r: string)
    ensures |r| <= |raw|
  {
    StripLeadingDot(Trim(ToLowerCase(raw)))
  }

  /** A normalised value has no upper-case ASCII letter. */
  lemma NormalizedIsLowerCase(raw: string)
    ensures forall i :: 0 <= i < |Normalize(raw)| ==> !IsAsciiUpper(Normalize(raw)[i])
  {
    var lower := ToLowerCase(raw);
    var t := Trim(lower);
    var k := |lower| - |TrimStart(lower)|;
    forall i | 0 <= i < |t| ensures !IsAsciiUpper(t[i]) {
      assert t[i] == lower[k + i];
    }
    var r := StripLeadingDot(t);
    assert r == t || r == t[1..];
  }

  /** A normalised value does not end in white space. */
  lemma NormalizedEndsClean(raw: string)
    ensures Normalize(raw) == [] || !IsWhiteSpace(Normalize(raw)[|Normalize(raw)| - 1])
  {
    var t := Trim(ToLowerCase(raw));
    var r := StripLeadingDot(t);
    if r != [] {
      assert r[|r| - 1] == t[|t| - 1];
    }
  }

  predicate IsExtensionChar(c: char)
  {
    'a' <= c <= 'z' || '0' <= c <= '9'
  }

  /** `/^[a-z0-9]+$/.test(s)`. */
  predicate MatchesPattern(s: string)
  {
    |s| >= 1 && forall i :: 0 <= i < |s| ==> IsExtensionChar(s[i])
  }

  /** What every stored custom value looks like: 1 to 20 characters from `[a-z0-9]`. */
  predicate WellFormed(s: string)
  {
    1 <= |s| <= MaxExtensionLength && MatchesPattern(s)
  }

  /**
   * The three validation asserts, in source order: a value is accepted
   * exactly when it is well formed, and a rejected value reports the first
   * check it fails, always with status 400.
   */
  function Validate(extension: string): (r: Outcome<()>)
    ensures r.Returned? <==> WellFormed(extension)
    ensures |extension| == 0 ==> r == Threw(Api(ApiError(EmptyMessage, 400)))
    ensures |extension| > MaxExtensionLength ==> r == Threw(Api(ApiError(TooLongMessage, 400)))
    ensures 0 < |extension| <= MaxExtensionLength && !MatchesPattern(extension) ==>
      r == Threw(Api(ApiError(CharsetMessage, 400)))
  {
    var _ :- Assert(|extension| > 0, EmptyMessage);
    var _ :- Assert(|extension| <= MaxExtensionLength, TooLongMessage);
    var _ :- Assert(MatchesPattern(extension), CharsetMessage);
    Returned(())
  }

  /** Text with no upper-case letter and no white space at either end is only stripped of its dot. */
  lemma NormalizePlainText(s: string)
    requires forall i :: 0 <= i < |s| ==> !IsAsciiUpper(s[i])
    requires s == [] || (!IsWhiteSpace(s[0]) && !IsWhiteSpace(s[|s| - 1]))
    ensures Normalize(s) == StripLeadingDot(s)
  {
    ToLowerCaseIdentity(s);
    assert ToLowerCase(s) == s;
    TrimIdentity(s);
    assert Trim(s) == s;
  }

  lemma WellFormedIsPlainText(v: string)
    requires WellFormed(v)
    ensures forall i :: 0 <= i < |v| ==> !IsAsciiUpper(v[i]) && !IsWhiteSpace(v[i]) && v[i] != '.'
  {
  }

  /** Normalisation leaves a well-formed value alone. */
  lemma NormalizeFixesWellFormed(v: string)
    requires WellFormed(v)
    ensures Normalize(v) == v
  {
    WellFormedIsPlainText(v);
    NormalizePlainText(v);
  }

  /**
   * Normalising twice is the same as normalising once for every value that
   * passes validation (it is not so in general: see `NormalizeNotIdempotent`).
   */
  lemma NormalizeStableOnAccepted(raw: string)
    requires Validate(Normalize(raw)).Returned?
    ensures WellFormed(Normalize(raw))
    ensures Normalize(Normalize(raw)) == Normalize(raw)
  {
    NormalizeFixesWellFormed(Normalize(raw));
  }

  /** Puts `n` dots in front of a well-formed value; the result still has no upper case nor outer white space. */
  lemma DottedIsPlainText(v: string, d: string, n: nat)
    requires WellFormed(v) && 1 <= n && |d| == n + |v|
    requires forall i :: 0 <= i < n ==> d[i] == '.'
    requires d[n..] == v
    ensures forall i :: 0 <= i < |d| ==> !IsAsciiUpper(d[i])
    ensures !IsWhiteSpace(d[0]) && !IsWhiteSpace(d[|d| - 1])
  {
    WellFormedIsPlainText(v);
    forall i | 0 <= i < |d| ensures !IsAsciiUpper(d[i]) {
      if i >= n { assert d[i] == v[i - n]; }
    }
    assert d[|d| - 1] == v[|v| - 1];
  }

  /** Normalisation does not see case: lowercasing first changes nothing. */
  lemma NormalizeIgnoresCase(raw: string)
    ensures Normalize(ToLowerCase(raw)) == Normalize(raw)
  {
    ToLowerCaseIdempotent(raw);
  }

  /** A single leading dot in front of a well-formed value is removed. */
  lemma NormalizeDropsDot(v: string)
    requires WellFormed(v)
    ensures Normalize("." + v) == v
  {
    var d := "." + v;
    DottedIsPlainText(v, d, 1);
    NormalizePlainText(d);
    assert d[1..] == v;
  }

  /**
   * Only one leading dot goes, so normalisation is not idempotent: ".." in
   * front of a well-formed value normalises to a value that still starts
   * with a dot (and fails validation), and normalising that again gives the
   * bare value.
   */
  lemma NormalizeNotIdempotent(v: string)
    requires WellFormed(v)
    ensures Normalize(".." + v) == "." + v
    ensures Normalize(Normalize(".." + v)) == v
    ensures Validate(Normalize(".." + v)).Threw?
  {
    var d := "." + v;
    var dd := ".." + v;
    DottedIsPlainText(v, dd, 2);
    NormalizePlainText(dd);
    assert dd[1..] == d;
    NormalizeDropsDot(v);
    assert !IsExtensionChar(d[0]);
  }

  /** The service's success path writes one row: it appends the returned row or replaces the row with its id. */
  predicate OneWrite(before: seq<CustomExtension>, after: seq<CustomExtension>, row: CustomExtension)
  {
    || after == before + [row]
    || exists i :: 0 <= i < |before| && before[i].id == row.id && after == before[i := row]
  }

  /** The written row is in the table afterwards, and the table grew by at most one row. */
  lemma OneWriteStoresRow(before: seq<CustomExtension>, after: seq<CustomExtension>, row: CustomExtension)
    requires OneWrite(before, after, row)
    ensures row in after
    ensures |before| <= |after| <= |before| + 1
  {
    if after != before + [row] {
      var i :| 0 <= i < |before| && before[i].id == row.id && after == before[i := row];
      assert after[i] == row;
    } else {
      assert after[|before|] == row;
    }
  }

  /**
   * The part of `add` after validation: the custom lookup (restore a
   * soft-deleted row, reject an active one with 409), the fixed-list check
   * (409), the capacity check (400, counted before the write) and the create.
   */
  function Admit(custom: seq<CustomExtension>, fixed: seq<FixedExtension>, lookup: Lookup,
                 extension: string, now: Instant, newId: string): (w: Write<CustomExtension>)
    ensures w.outcome.Threw? ==> w.rows == custom
    ensures w.outcome.Returned? ==>
      w.outcome.value.IsActive() && OneWrite(custom, w.rows, w.outcome.value)
    ensures w.outcome.Threw? && w.outcome.thrown.Api? ==> w.outcome.thrown.error.status in {400, 409}
    ensures TableConstraints(custom) ==>
      && TableConstraints(w.rows)
      && (w.outcome.Returned? ==> w.outcome.value.extension == extension)
  {
    match FindByExtensionIncludeDeleted(custom, lookup, extension)
    case Some(existing) =>
      if existing.deletedAt.Some? then
        var w := UpdateDeletedAt(custom, existing.id, None, now);
        assert w.outcome.Returned? ==> w.rows == custom[IndexOfId(custom, existing.id).value := w.outcome.value];
        if TableConstraints(custom) then
          IndexOfStoredRow(custom, existing);
          w
        else w
      else
        Write(Assert(false, DuplicateMessage, 409).PropagateFailure(), custom)
    case None => AdmitNew(custom, fixed, extension, now, newId)
  }

  /**
   * The steps of `add` for a value no custom row holds (as far as the
   * lookup sees): the fixed-list check (409), the capacity check (400) and
   * the create. A row is appended only when both checks pass.
   */
  function AdmitNew(custom: seq<CustomExtension>, fixed: seq<FixedExtension>,
                    extension: string, now: Instant, newId: string): (w: Write<CustomExtension>)
    ensures w.outcome.Threw? ==> w.rows == custom
    ensures w.outcome.Returned? ==>
      && w.rows == custom + [w.outcome.value]
      && w.outcome.value.IsActive() && w.outcome.value.extension == extension
      && (forall y :: y in fixed && y.IsActive() ==> y.extension != extension)
      && Count(custom) < MaxCustomExtensions
    ensures w.outcome.Threw? && w.outcome.thrown.Api? ==> w.outcome.thrown.error.status in {400, 409}
    ensures TableConstraints(custom) ==> TableConstraints(w.rows)
  {
    var notFixed := Assert(Fixed.FindByExtension(fixed, extension).None?, FixedCollisionMessage, 409);
    if notFixed.Threw? then Write(Threw(notFixed.thrown), custom)
    else
      var room := Assert(Count(custom) < MaxCustomExtensions, CapacityMessage);
      if room.Threw? then Write(Threw(room.thrown), custom)
      else CreateResult(custom, extension, newId, now)
  }

  /**
   * `add`, with the custom table before the call, the fixed table, the way
   * the include-deleted lookup sees the table, the raw text, the clock and
   * the id the database would give a new row.
   */
  function AddResult(custom: seq<CustomExtension>, fixed: seq<FixedExtension>, lookup: Lookup,
                     raw: string, now: Instant, newId: string): (w: Write<CustomExtension>)
    ensures w.outcome.Threw? ==> w.rows == custom
    ensures w.outcome.Returned? ==>
      w.outcome.value.IsActive() && OneWrite(custom, w.rows, w.outcome.value)
    ensures w.outcome.Threw? && w.outcome.thrown.Api? ==> w.outcome.thrown.error.status in {400, 409}
    ensures TableConstraints(custom) ==>
      && TableConstraints(w.rows)
      && (w.outcome.Returned? ==>
            w.outcome.value.extension == Normalize(raw) && WellFormed(w.outcome.value.extension))
  {
    var extension := Normalize(raw);
    var valid := Validate(extension);
    if valid.Threw? then Write(Threw(valid.thrown), custom)
    else Admit(custom, fixed, lookup, extension, now, newId)
  }

  /** `add` on the mutable table, step by step as the source runs it. */
  method Add(custom: CustomExtensionTable, fixed: Fixed.FixedExtensionTable, lookup: Lookup,
             raw: string, now: Instant, newId: string) returns (r: Outcome<CustomExtension>)
    requires custom.Valid()
    modifies custom
    ensures custom.Valid()
    ensures Write(r, custom.rows) == AddResult(old(custom.rows), fixed.rows, lookup, raw, now, newId)
  {
    var extension := Normalize(raw);
    var _ :- Assert(|extension| > 0, EmptyMessage);
    var _ :- Assert(|extension| <= MaxExtensionLength, TooLongMessage);
    var _ :- Assert(MatchesPattern(extension), CharsetMessage);
    assert Validate(extension).Returned?;
    r := AdmitInto(custom, fixed, lookup, extension, now, newId);
  }

  /** The steps of `add` after validation, on the mutable table. */
  method AdmitInto(custom: CustomExtensionTable, fixed: Fixed.FixedExtensionTable, lookup: Lookup,
                   extension: string, now: Instant, newId: string) returns (r: Outcome<CustomExtension>)
    requires custom.Valid()
    modifies custom
    ensures custom.Valid()
    ensures Write(r, custom.rows) == Admit(old(custom.rows), fixed.rows, lookup, extension, now, newId)
  {
    var existingCustom := FindByExtensionIncludeDeleted(custom.rows, lookup, extension);
    if existingCustom.Some? {
      if existingCustom.value.deletedAt.Some? {
        r := custom.Restore(existingCustom.value.id, now);
        return;
      }
      return Assert(false, DuplicateMessage, 409).PropagateFailure();
    }
    r := AdmitNewInto(custom, fixed, extension, now, newId);
  }

  /** The steps of `add` for a value the lookup did not find, on the mutable table. */
  method AdmitNewInto(custom: CustomExtensionTable, fixed: Fixed.FixedExtensionTable,
                      extension: string, now: Instant, newId: string) returns (r: Outcome<CustomExtension>)
    requires custom.Valid()
    modifies custom
    ensures custom.Valid()
    ensures Write(r, custom.rows) == AdmitNew(old(custom.rows), fixed.rows, extension, now, newId)
  {
    var existingFixed := Fixed.FindByExtension(fixed.rows, extension);
    var _ :- Assert(existingFixed.None?, FixedCollisionMessage, 409);

    var count := Count(custom.rows);
    var _ :- Assert(count < MaxCustomExtensions, CapacityMessage);

    r := custom.Create(extension, newId, now);
  }

  /** `remove`: soft-deletes the row with that id; afterwards the row is kept but inactive. */
  function RemoveResult(custom: seq<CustomExtension>, id: string, now: Instant): (w: Write<CustomExtension>)
    ensures w.outcome.Returned? <==> exists x :: x in custom && x.id == id
    ensures w.outcome.Threw? ==> w.rows == custom
    ensures w.outcome.Returned? ==>
      && w.outcome.value.id == id && !w.outcome.value.IsActive()
      && |w.rows| == |custom| && Count(w.rows) <= Count(custom)
    ensures TableConstraints(custom) ==> TableConstraints(w.rows)
  {
    var w := UpdateDeletedAt(custom, id, Some(now), now);
    if w.outcome.Returned? then
      ActiveCountAfterReplace(custom, IndexOfId(custom, id).value, w.outcome.value);
      w
    else w
  }

  method Remove(custom: CustomExtensionTable, id: string, now: Instant) returns (r: Outcome<CustomExtension>)
    requires custom.Valid()
    modifies custom
    ensures custom.Valid()
    ensures Write(r, custom.rows) == RemoveResult(old(custom.rows), id, now)
  {
    r := custom.SoftDelete(id, now);
  }

  /** `getAll`: lists exactly the active rows, newest first. */
  function GetAll(custom: seq<CustomExtension>): (r: seq<CustomExtension>)
    ensures forall x :: x in r <==> x in custom && x.IsActive()
    ensures forall i, j :: 0 <= i < j < |r| ==> r[i].createdAt >= r[j].createdAt
  {
    FindAllMembers(custom);
    FindAll(custom)
  }
}
