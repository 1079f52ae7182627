/**
 * `/api/extensions/fixed`: GET lists the fixed extensions, PATCH changes
 * one extension's block status. Both are wrapped in `withErrorHandler`.
 */
module FixedExtensionsRoute {
  import opened Optional
  import opened Assertions
  import opened ApiResponse
  import opened ApiHandler
  import opened QueryEngine
  import opened ExtensionTypes
  import opened Requests
  import opened FixedExtensionRepository

  const IdRequiredMessage: string := "ID is required"
  const BooleanRequiredMessage: string := "isBlocked must be boolean"

  /** GET: 200 with exactly the active fixed extensions, in ascending order of their value. */
  function Get(fixed: seq<FixedExtension>): (r: Response<seq<FixedExtension>>)
    ensures r.status == 200 && r.body.Data?
    ensures multiset(r.body.data) == multiset(ActiveRows(fixed))
    ensures forall i, j :: 0 <= i < j < |r.body.data| ==> LexLe(r.body.data[i].extension, r.body.data[j].extension)
  {
    WithErrorHandler(Returned(Success(FindAll(fixed))))
  }

  /**
   * PATCH with a JSON body `{ id, isBlocked }` (`None` when not JSON): the
   * id must be a non-empty string (checked first), `isBlocked` a boolean;
   * then the row with that id gets the new status.
   */
  function Patch(fixed: seq<FixedExtension>, body: Option<Json>, now: Instant)
    : (h: Handled<FixedExtension, FixedExtension>)
    ensures h.response.status in {200, 400, 500}
    ensures h.response.status == 200 <==>
      && body.Some? && HasNonEmptyString(body.value, "id") && HasBoolean(body.value, "isBlocked")
      && exists x :: x in fixed && x.id == body.value.fields["id"].s
    ensures h.response.status == 200 ==>
      && h.response.body.Data?
      && h.response.body.data.id == body.value.fields["id"].s
      && h.response.body.data.isBlocked == body.value.fields["isBlocked"].b
      && h.response.body.data in h.rows
    ensures h.response.status != 200 ==> h.rows == fixed
    ensures |h.rows| == |fixed|
    ensures TableConstraints(fixed) ==> TableConstraints(h.rows)
    ensures body.None? || body == Some(JNull) ==> h == Handled(ServerError(), fixed)
    ensures body.Some? && body.value != JNull && !HasNonEmptyString(body.value, "id") ==>
      h == Handled(BadRequest(IdRequiredMessage), fixed)
    ensures body.Some? && HasNonEmptyString(body.value, "id") && !HasBoolean(body.value, "isBlocked") ==>
      h == Handled(BadRequest(BooleanRequiredMessage), fixed)
    ensures (&& body.Some? && HasNonEmptyString(body.value, "id") && HasBoolean(body.value, "isBlocked")
             && forall x :: x in fixed ==> x.id != body.value.fields["id"].s) ==>
      h == Handled(ServerError(), fixed)
  {
    match Destructure(body, "id")
    case Threw(t) => Handled(WithErrorHandler(Threw(t)), fixed)
    case Returned(id) =>
      var isBlocked := Destructure(body, "isBlocked").value;
      var idPresent := Assert(IsNonEmptyString(id), IdRequiredMessage);
      if idPresent.Threw? then Handled(WithErrorHandler(Threw(idPresent.thrown)), fixed)
      else
        var isBoolean := Assert(IsBoolean(isBlocked), BooleanRequiredMessage);
        if isBoolean.Threw? then Handled(WithErrorHandler(Threw(isBoolean.thrown)), fixed)
        else
          var w := UpdateBlockStatusResult(fixed, id.value.s, isBlocked.value.b, now);
          if w.outcome.Returned? then
            assert w.rows[IndexOfId(fixed, id.value.s).value] == w.outcome.value;
            Respond(w)
          else Respond(w)
  }

  /** `ApiResponse.success` for a returned row, the error handler's response for a throw. */
  function Respond(w: Write<FixedExtension>): (h: Handled<FixedExtension, FixedExtension>)
    ensures h.rows == w.rows
    ensures w.outcome.Returned? ==> h.response == Response(200, Data(w.outcome.value))
    ensures w.outcome.Threw? ==> h.response == WithErrorHandler(Threw(w.outcome.thrown))
  {
    match w.outcome
    case Returned(updated) => Handled(WithErrorHandler(Returned(Success(updated))), w.rows)
    case Threw(t) => Handled(WithErrorHandler(Threw(t)), w.rows)
  }

  /** A body whose `id` is a non-empty string and whose `isBlocked` is a boolean goes straight to the repository, whatever else it holds. */
  lemma PatchPassesToRepository(fixed: seq<FixedExtension>, fields: map<string, Json>, now: Instant)
    requires HasNonEmptyString(JObject(fields), "id") && HasBoolean(JObject(fields), "isBlocked")
    ensures Patch(fixed, Some(JObject(fields)), now)
         == Respond(UpdateBlockStatusResult(fixed, fields["id"].s, fields["isBlocked"].b, now))
  {
  }
}
