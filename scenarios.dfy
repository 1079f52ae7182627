/**
 * End-to-end behaviour of the two routes on concrete requests: the
 * situations the browser tests walk through and the edge cases of
 * normalisation, validation, removal and capacity.
 */
module Scenarios {
  import opened Optional
  import opened Assertions
  import opened ApiResponse
  import opened ApiHandler
  import QueryEngine
  import opened ExtensionTypes
  import opened Requests
  import opened JsString
  import opened CustomExtensionRepository
  import opened CustomExtensionService
  import opened AdmissionProperties
  import opened CustomExtensionsRoute
  import Fixed = FixedExtensionRepository
  import FixedRoute = FixedExtensionsRoute

  /** The POST body `{ "extension": s }`. */
  function ExtensionBody(s: string): Option<Json>
  {
    Some(JObject(map["extension" := JString(s)]))
  }

  /** The PATCH body `{ "id": id, "isBlocked": isBlocked }`. */
  function PatchBody(id: string, isBlocked: bool): Option<Json>
  {
    Some(JObject(map["id" := JString(id), "isBlocked" := JBool(isBlocked)]))
  }

  /** `{ "extension": s }` with `s` non-empty reaches the service. */
  lemma ExtensionBodyPosts(custom: seq<CustomExtension>, fixed: seq<FixedExtension>, lookup: Lookup,
                           s: string, now: Instant, newId: string)
    requires s != []
    ensures Post(custom, fixed, lookup, ExtensionBody(s), now, newId) == Respond(AddResult(custom, fixed, lookup, s, now, newId))
  {
    var fields := map["extension" := JString(s)];
    assert fields["extension"] == JString(s);
    PostPassesStringToService(custom, fixed, lookup, fields, now, newId);
  }

  /** `{ "id": id, "isBlocked": b }` with `id` non-empty reaches the repository. */
  lemma PatchBodyUpdates(fixed: seq<FixedExtension>, id: string, isBlocked: bool, now: Instant)
    requires id != []
    ensures FixedRoute.Patch(fixed, PatchBody(id, isBlocked), now)
         == FixedRoute.Respond(Fixed.UpdateBlockStatusResult(fixed, id, isBlocked, now))
  {
    var fields := map["id" := JString(id), "isBlocked" := JBool(isBlocked)];
    assert fields["id"] == JString(id) && fields["isBlocked"] == JBool(isBlocked);
    FixedRoute.PatchPassesToRepository(fixed, fields, now);
  }

  lemma NotSeeded(v: string, now: Instant)
    requires v !in Fixed.SeededExtensions
    ensures forall y :: y in Fixed.SeedRows(now) && y.IsActive() ==> y.extension != v
  {
    var rows := Fixed.SeedRows(now);
    forall y | y in rows && y.IsActive() ensures y.extension != v {
      var i :| 0 <= i < |rows| && rows[i] == y;
      assert y.extension == Fixed.SeededExtensions[i];
    }
  }

  /** An admissible new value posted as a string: 201 with the appended row. */
  lemma PostCreates(custom: seq<CustomExtension>, fixed: seq<FixedExtension>, lookup: Lookup,
                    raw: string, now: Instant, newId: string)
    requires raw != []
    requires WellFormed(Normalize(raw))
    requires forall x :: x in custom ==> x.extension != Normalize(raw) && x.id != newId
    requires forall y :: y in fixed && y.IsActive() ==> y.extension != Normalize(raw)
    requires Count(custom) < MaxCustomExtensions
    ensures var row := CustomExtension(newId, Normalize(raw), now, now, None);
      var h := Post(custom, fixed, lookup, ExtensionBody(raw), now, newId);
      h.response == Response(201, Data(row)) && h.rows == custom + [row]
  {
    CreatesNewRecord(custom, fixed, lookup, raw, now, newId);
    ExtensionBodyPosts(custom, fixed, lookup, raw, now, newId);
  }

  /** Adding a well-formed value that is not seeded to an empty custom list: 201 and one active row ("pdf" in the browser test). */
  lemma AddFresh(v: string, lookup: Lookup, now: Instant, newId: string)
    requires WellFormed(v) && v !in Fixed.SeededExtensions
    ensures var h := Post([], Fixed.SeedRows(now), lookup, ExtensionBody(v), now, newId);
      var row := CustomExtension(newId, v, now, now, None);
      h.response == Response(201, Data(row)) && h.rows == [row]
  {
    NormalizeFixesWellFormed(v);
    NotSeeded(v, now);
    PostCreates([], Fixed.SeedRows(now), lookup, v, now, newId);
  }

  /** A leading dot is dropped: ".pptx" is stored as "pptx", and so is any well-formed value behind one dot. */
  lemma LeadingDotDropped(v: string, lookup: Lookup, now: Instant, newId: string)
    requires WellFormed(v) && v !in Fixed.SeededExtensions
    ensures var h := Post([], Fixed.SeedRows(now), lookup, ExtensionBody("." + v), now, newId);
      var row := CustomExtension(newId, v, now, now, None);
      h.response == Response(201, Data(row)) && h.rows == [row]
  {
    NormalizeDropsDot(v);
    NotSeeded(v, now);
    PostCreates([], Fixed.SeedRows(now), lookup, "." + v, now, newId);
  }

  lemma LeadingDotDroppedPptx(lookup: Lookup, now: Instant, newId: string)
    ensures var h := Post([], Fixed.SeedRows(now), lookup, ExtensionBody(".pptx"), now, newId);
      h.response == Response(201, Data(CustomExtension(newId, "pptx", now, now, None)))
  {
    assert WellFormed("pptx");
    assert "." + "pptx" == ".pptx";
    LeadingDotDropped("pptx", lookup, now, newId);
  }

  /** ".PDF" and "pdf" normalise to the same value, "pdf". */
  lemma DottedUpperCaseNormalisesLikePlain()
    ensures Normalize(".PDF") == "pdf" && Normalize("pdf") == "pdf"
  {
    assert WellFormed("pdf");
    NormalizeFixesWellFormed("pdf");
    assert ToLowerCase(".PDF") == "." + "pdf";
    NormalizeDropsDot("pdf");
    NormalizeIgnoresCase(".PDF");
  }

  /** A lone dot normalises to the empty value and is refused by the service with the empty-value message. */
  lemma DotAloneAnswers400(custom: seq<CustomExtension>, fixed: seq<FixedExtension>, lookup: Lookup,
                           now: Instant, newId: string)
    ensures Post(custom, fixed, lookup, ExtensionBody("."), now, newId)
         == Handled(Response(400, ErrorBody(EmptyMessage)), custom)
  {
    NormalizePlainText(".");
    RefusedByValidation(custom, fixed, lookup, ".", now, newId, ApiError(EmptyMessage, 400));
  }

  /** Adding the same value twice ("xlsx" in the browser test): the second request answers 409 and changes nothing. */
  lemma DuplicateAnswers409(v: string, lookup: Lookup, now: Instant, later: Instant, firstId: string, secondId: string)
    requires WellFormed(v) && v !in Fixed.SeededExtensions
    ensures var first := Post([], Fixed.SeedRows(now), lookup, ExtensionBody(v), now, firstId);
      var second := Post(first.rows, Fixed.SeedRows(now), lookup, ExtensionBody(v), later, secondId);
      && first.response.status == 201
      && second.response == Response(409, ErrorBody(DuplicateMessage))
      && second.rows == first.rows
  {
    var fixed := Fixed.SeedRows(now);
    var row := CustomExtension(firstId, v, now, now, None);
    NormalizeFixesWellFormed(v);
    AddFresh(v, lookup, now, firstId);
    DuplicateRejected([row], fixed, lookup, v, later, secondId, 0);
    AnswersWith([row], fixed, lookup, v, later, secondId, ApiError(DuplicateMessage, 409));
  }

  /** Every seeded fixed value is well formed. */
  lemma SeededAreWellFormed(j: nat)
    requires j < |Fixed.SeededExtensions|
    ensures WellFormed(Fixed.SeededExtensions[j])
  {
  }

  /** A seeded fixed value ("exe" in the browser test) answers 409 while no custom row holds it, blocked or not. */
  lemma FixedValueAnswers409(custom: seq<CustomExtension>, lookup: Lookup, j: nat, now: Instant, newId: string)
    requires j < |Fixed.SeededExtensions|
    requires forall x :: x in custom ==> x.extension != Fixed.SeededExtensions[j]
    ensures Post(custom, Fixed.SeedRows(now), lookup, ExtensionBody(Fixed.SeededExtensions[j]), now, newId)
         == Handled(Response(409, ErrorBody(FixedCollisionMessage)), custom)
  {
    var fixed := Fixed.SeedRows(now);
    var v := Fixed.SeededExtensions[j];
    SeededAreWellFormed(j);
    NormalizeFixesWellFormed(v);
    FixedCollisionRejected(custom, fixed, lookup, v, now, newId, j);
    AnswersWith(custom, fixed, lookup, v, now, newId, ApiError(FixedCollisionMessage, 409));
  }

  /** A non-empty string whose add throws an `ApiError` comes back as that error's status and message, nothing written. */
  lemma AnswersWith(custom: seq<CustomExtension>, fixed: seq<FixedExtension>, lookup: Lookup,
                    s: string, now: Instant, newId: string, e: ApiError)
    requires s != []
    requires AddResult(custom, fixed, lookup, s, now, newId) == QueryEngine.Write(Threw(Api(e)), custom)
    ensures Post(custom, fixed, lookup, ExtensionBody(s), now, newId) == Handled(Response(e.status, ErrorBody(e.message)), custom)
  {
    ExtensionBodyPosts(custom, fixed, lookup, s, now, newId);
  }

  /** A non-empty string whose normalised value fails validation comes back as the validation error. */
  lemma RefusedByValidation(custom: seq<CustomExtension>, fixed: seq<FixedExtension>, lookup: Lookup,
                            s: string, now: Instant, newId: string, e: ApiError)
    requires s != []
    requires Validate(Normalize(s)) == Threw(Api(e))
    ensures Post(custom, fixed, lookup, ExtensionBody(s), now, newId) == Handled(Response(e.status, ErrorBody(e.message)), custom)
  {
    AddResultRejectsMalformed(custom, fixed, lookup, s, now, newId);
    AnswersWith(custom, fixed, lookup, s, now, newId, e);
  }

  /** An empty string is refused by the route itself with 400. */
  lemma EmptyAnswers400(custom: seq<CustomExtension>, fixed: seq<FixedExtension>, lookup: Lookup,
                        now: Instant, newId: string)
    ensures Post(custom, fixed, lookup, ExtensionBody(""), now, newId)
         == Handled(Response(400, ErrorBody(EmptyMessage)), custom)
  {
    assert Destructure(ExtensionBody(""), "extension") == Returned(Defined(JString("")));
  }

  /** A body without `extension` is refused the same way. */
  lemma MissingAnswers400(custom: seq<CustomExtension>, fixed: seq<FixedExtension>, lookup: Lookup,
                          now: Instant, newId: string)
    ensures Post(custom, fixed, lookup, Some(JObject(map[])), now, newId)
         == Handled(Response(400, ErrorBody(EmptyMessage)), custom)
  {
    assert Destructure(Some(JObject(map[])), "extension") == Returned(Undefined);
  }

  /** Blank text passes the route's check, normalises to "" and is refused by the service with the same message. */
  lemma BlankAnswers400(custom: seq<CustomExtension>, fixed: seq<FixedExtension>, lookup: Lookup,
                        now: Instant, newId: string)
    ensures Post(custom, fixed, lookup, ExtensionBody("  "), now, newId)
         == Handled(Response(400, ErrorBody(EmptyMessage)), custom)
  {
    ExtensionBodyPosts(custom, fixed, lookup, "  ", now, newId);
    assert ToLowerCase("  ") == "  ";
    assert TrimStart("  ") == "";
    assert Normalize("  ") == "";
  }

  /**
   * Text with no upper case, no white space and no leading dot, of at most
   * 20 characters, one of which is outside `[a-z0-9]` ("test@file" in the
   * browser test), is refused for its character set.
   */
  lemma SpecialCharacterAnswers400(custom: seq<CustomExtension>, fixed: seq<FixedExtension>, lookup: Lookup,
                                   v: string, k: nat, now: Instant, newId: string)
    requires 1 <= |v| <= MaxExtensionLength
    requires forall i :: 0 <= i < |v| ==> !IsAsciiUpper(v[i]) && !IsWhiteSpace(v[i]) && v[i] != '.'
    requires k < |v| && !IsExtensionChar(v[k])
    ensures Post(custom, fixed, lookup, ExtensionBody(v), now, newId)
         == Handled(Response(400, ErrorBody(CharsetMessage)), custom)
  {
    assert Validate(Normalize(v)) == Threw(Api(ApiError(CharsetMessage, 400))) by {
      NormalizePlainText(v);
      assert Normalize(v) == v;
      assert !MatchesPattern(v);
    }
    RefusedByValidation(custom, fixed, lookup, v, now, newId, ApiError(CharsetMessage, 400));
  }

  /**
   * Text of more than 20 characters with no upper case, no white space and
   * no leading dot is refused for its length, whatever its characters (21
   * '$', say): the length is checked before the character set.
   */
  lemma LengthCheckedBeforeCharacters(custom: seq<CustomExtension>, fixed: seq<FixedExtension>, lookup: Lookup,
                                      v: string, now: Instant, newId: string)
    requires |v| > MaxExtensionLength
    requires forall i :: 0 <= i < |v| ==> !IsAsciiUpper(v[i]) && !IsWhiteSpace(v[i]) && v[i] != '.'
    ensures Post(custom, fixed, lookup, ExtensionBody(v), now, newId)
         == Handled(Response(400, ErrorBody(TooLongMessage)), custom)
  {
    assert Validate(Normalize(v)) == Threw(Api(ApiError(TooLongMessage, 400))) by {
      NormalizePlainText(v);
      assert Normalize(v) == v;
    }
    RefusedByValidation(custom, fixed, lookup, v, now, newId, ApiError(TooLongMessage, 400));
  }

  /** A body that is not JSON, or is `null`, makes the handler throw: a bare 500, nothing written. */
  lemma UnreadableBodyAnswers500(custom: seq<CustomExtension>, fixed: seq<FixedExtension>, lookup: Lookup,
                                 now: Instant, newId: string)
    ensures Post(custom, fixed, lookup, None, now, newId)
         == Handled(Response(500, ErrorBody("Internal server error")), custom)
    ensures Post(custom, fixed, lookup, Some(JNull), now, newId)
         == Handled(Response(500, ErrorBody("Internal server error")), custom)
  {
  }

  /** A table of one row satisfies the constraints. */
  lemma OneRowTable(row: CustomExtension)
    ensures TableConstraints([row])
  {
  }

  /** One soft-deleted row counts as no active extension. */
  lemma OneDeletedRow(row: CustomExtension)
    requires !row.IsActive()
    ensures Count([row]) == 0
  {
    assert ActiveRows([row]) == [];
  }

  /** Deleting the only row by its id: 200, and the row is kept as soft-deleted. */
  lemma DeleteOnlyRow(v: string, now: Instant, later: Instant, id: string)
    requires id != []
    ensures Delete([CustomExtension(id, v, now, now, None)], Some(id), later)
         == Handled(Response(200, Data(DeleteAck(true))), [CustomExtension(id, v, now, later, Some(later))])
  {
    var row := CustomExtension(id, v, now, now, None);
    OneRowTable(row);
    DeleteStoredRow([row], 0, later);
  }

  /** Deleting a stored row by its (non-empty) id answers 200 and marks that row as deleted. */
  lemma DeleteStoredRow(custom: seq<CustomExtension>, i: nat, now: Instant)
    requires TableConstraints(custom)
    requires i < |custom| && custom[i].id != []
    ensures Delete(custom, Some(custom[i].id), now)
         == Handled(Response(200, Data(DeleteAck(true))), custom[i := custom[i].(deletedAt := Some(now), updatedAt := now)])
  {
    RemoveMarksRow(custom, i, now);
    DeleteRemoves(custom, custom[i].id, now);
  }

  /** After that, nothing is listed. */
  lemma NothingListedAfterDelete(v: string, now: Instant, later: Instant, id: string)
    ensures Get([CustomExtension(id, v, now, later, Some(later))]).body.data == []
  {
    var deleted := CustomExtension(id, v, now, later, Some(later));
    assert ActiveRows([deleted]) == [];
    assert |multiset(GetAll([deleted]))| == 0;
  }

  /**
   * As wired: once `v` has been added (`AddFresh`) and deleted
   * (`DeleteOnlyRow`), adding it again finds no row through the soft-delete filter,
   * tries to create, and the unique index refuses: a bare 500, and the value
   * stays deleted.
   */
  lemma ReAddAfterDeleteAsWired(v: string, now: Instant, later: Instant, last: Instant,
                                firstId: string, secondId: string)
    requires WellFormed(v) && v !in Fixed.SeededExtensions
    ensures var deleted := [CustomExtension(firstId, v, now, later, Some(later))];
      var again := Post(deleted, Fixed.SeedRows(now), ThroughSoftDeleteFilter, ExtensionBody(v), last, secondId);
      again == Handled(Response(500, ErrorBody("Internal server error")), deleted)
  {
    var fixed := Fixed.SeedRows(now);
    var deleted := [CustomExtension(firstId, v, now, later, Some(later))];
    OnlyRowReAddedAsWired(v, now, later, last, firstId, secondId);
    ExtensionBodyPosts(deleted, fixed, ThroughSoftDeleteFilter, v, last, secondId);
  }

  /** The service half of `ReAddAfterDeleteAsWired`: `add` throws the unique-constraint fault and writes nothing. */
  lemma OnlyRowReAddedAsWired(v: string, now: Instant, later: Instant, last: Instant,
                              firstId: string, secondId: string)
    requires WellFormed(v) && v !in Fixed.SeededExtensions
    ensures var deleted := [CustomExtension(firstId, v, now, later, Some(later))];
      AddResult(deleted, Fixed.SeedRows(now), ThroughSoftDeleteFilter, v, last, secondId)
      == QueryEngine.Write(Threw(Unexpected(UniqueConstraintFailed)), deleted)
  {
    var row := CustomExtension(firstId, v, now, later, Some(later));
    NormalizeFixesWellFormed(v);
    NotSeeded(v, now);
    OneRowTable(row);
    OneDeletedRow(row);
    AddResultAdmits([row], Fixed.SeedRows(now), ThroughSoftDeleteFilter, v, last, secondId);
    AdmitSoftDeletedAsWired([row], Fixed.SeedRows(now), v, last, secondId, 0);
  }

  /**
   * With the lookup seeing soft-deleted rows: once `v` has been added and
   * deleted, adding it again restores the first row, with its id and
   * creation time, and answers 201.
   */
  lemma ReAddAfterDeleteRestores(v: string, now: Instant, later: Instant, last: Instant,
                                 firstId: string, secondId: string)
    requires WellFormed(v)
    ensures var deleted := [CustomExtension(firstId, v, now, later, Some(later))];
      var restored := CustomExtension(firstId, v, now, last, None);
      Post(deleted, Fixed.SeedRows(now), IncludingDeleted, ExtensionBody(v), last, secondId)
      == Handled(Response(201, Data(restored)), [restored])
  {
    var fixed := Fixed.SeedRows(now);
    var deleted := [CustomExtension(firstId, v, now, later, Some(later))];
    NormalizeFixesWellFormed(v);
    RestoreReusesRecord(deleted, fixed, v, last, secondId, 0);
    ExtensionBodyPosts(deleted, fixed, IncludingDeleted, v, last, secondId);
  }

  /** At capacity, a new admissible value answers 400 with the capacity message and nothing changes. */
  lemma FullListAnswers400(custom: seq<CustomExtension>, fixed: seq<FixedExtension>, lookup: Lookup,
                           v: string, now: Instant, newId: string)
    requires Count(custom) == MaxCustomExtensions
    requires WellFormed(v)
    requires forall x :: x in custom ==> x.extension != v
    requires forall y :: y in fixed && y.IsActive() ==> y.extension != v
    ensures Post(custom, fixed, lookup, ExtensionBody(v), now, newId)
         == Handled(Response(400, ErrorBody(CapacityMessage)), custom)
  {
    NormalizeFixesWellFormed(v);
    CapacityRejected(custom, fixed, lookup, v, now, newId);
    AnswersWith(custom, fixed, lookup, v, now, newId, ApiError(CapacityMessage, 400));
  }

  /**
   * Deleting one of 200 active extensions answers 200 and leaves 199, and
   * the table keeps every value and id it had, so a value that was refused
   * for capacity is now admitted (`PostCreates`).
   */
  lemma DeleteMakesRoom(custom: seq<CustomExtension>, i: nat, now: Instant)
    requires TableConstraints(custom)
    requires Count(custom) == MaxCustomExtensions
    requires i < |custom| && custom[i].IsActive() && custom[i].id != []
    ensures var removed := Delete(custom, Some(custom[i].id), now);
      && removed.response.status == 200
      && Count(removed.rows) == MaxCustomExtensions - 1
      && |removed.rows| == |custom|
      && forall k :: 0 <= k < |custom| ==>
           removed.rows[k].extension == custom[k].extension && removed.rows[k].id == custom[k].id
  {
    RemoveMarksRow(custom, i, now);
    DeleteStoredRow(custom, i, now);
  }

  /** The seeded fixed list is listed in full, in ascending order of value. */
  lemma SeededListing(now: Instant)
    ensures var r := FixedRoute.Get(Fixed.SeedRows(now));
      && multiset(r.body.data) == multiset(Fixed.SeedRows(now))
      && forall i, j :: 0 <= i < j < |r.body.data| ==> QueryEngine.LexLe(r.body.data[i].extension, r.body.data[j].extension)
  {
    Fixed.ActiveRowsOfActive(Fixed.SeedRows(now));
  }

  /** Checking "exe" and unchecking it again: 200 twice, and the row is back as seeded but for `updatedAt`. */
  lemma ToggleExe(now: Instant, later: Instant, last: Instant)
    ensures var seed := Fixed.SeedRows(now);
      var on := FixedRoute.Patch(seed, PatchBody("seed-exe", true), later);
      var off := FixedRoute.Patch(on.rows, PatchBody("seed-exe", false), last);
      && on.response.status == 200 && on.response.body.data.isBlocked
      && off.response.status == 200 && !off.response.body.data.isBlocked
      && off.rows == seed[4 := seed[4].(updatedAt := last)]
  {
    var seed := Fixed.SeedRows(now);
    Fixed.SeedRowsSatisfyConstraints(now);
    assert seed[4].id == "seed-exe";
    assert seed[4] in seed;
    var i := Fixed.IndexOfId(seed, "seed-exe").value;
    assert i == 4;
    Fixed.ToggleRoundTrip(seed, "seed-exe", later, last);
    PatchBodyUpdates(seed, "seed-exe", true, later);
    var on := Fixed.UpdateBlockStatusResult(seed, "seed-exe", true, later);
    PatchBodyUpdates(on.rows, "seed-exe", false, last);
  }

  /** The id is checked before the flag, and a string "true" is not a boolean. */
  lemma PatchValidationOrder(fixed: seq<FixedExtension>, id: string, now: Instant)
    requires id != []
    ensures FixedRoute.Patch(fixed, Some(JObject(map["isBlocked" := JString("true")])), now)
         == Handled(Response(400, ErrorBody(FixedRoute.IdRequiredMessage)), fixed)
    ensures FixedRoute.Patch(fixed, Some(JObject(map["id" := JString(id), "isBlocked" := JString("true")])), now)
         == Handled(Response(400, ErrorBody(FixedRoute.BooleanRequiredMessage)), fixed)
  {
    var body := Some(JObject(map["id" := JString(id), "isBlocked" := JString("true")]));
    assert Destructure(body, "id") == Returned(Defined(JString(id)));
  }
}
