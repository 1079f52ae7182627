/**
 * `/api/extensions/custom`: GET lists, POST adds, DELETE soft-deletes. Each
 * handler is wrapped in `withErrorHandler`, so every outcome is a response;
 * each is given the table before the request and returns the response with
 * the table after it.
 */
module CustomExtensionsRoute {
  import opened Optional
  import opened Assertions
  import opened ApiResponse
  import opened ApiHandler
  import opened QueryEngine
  import opened ExtensionTypes
  import opened Requests
  import opened CustomExtensionRepository
  import opened CustomExtensionService

  /** The body `{ success: true }` a successful DELETE answers with. */
  datatype DeleteAck = DeleteAck(success: bool)

  const IdRequiredMessage: string := "ID is required"

  /** GET: 200 with exactly the active rows, newest first. */
  function Get(custom: seq<CustomExtension>): (r: Response<seq<CustomExtension>>)
    ensures r.status == 200 && r.body.Data?
    ensures forall x :: x in r.body.data <==> x in custom && x.IsActive()
    ensures forall i, j :: 0 <= i < j < |r.body.data| ==> r.body.data[i].createdAt >= r.body.data[j].createdAt
  {
    WithErrorHandler(Returned(Success(GetAll(custom))))
  }

  /**
   * POST with a JSON body (`None` when the body is not JSON). The handler
   * asks for a non-empty string `extension` before the service normalises
   * and admits it.
   */
  function Post(custom: seq<CustomExtension>, fixed: seq<FixedExtension>, lookup: Lookup,
                body: Option<Json>, now: Instant, newId: string): (h: Handled<CustomExtension, CustomExtension>)
    ensures h.response.status in {201, 400, 409, 500}
    ensures h.response.status == 201 ==>
      && h.response.body.Data? && h.response.body.data.IsActive() && h.response.body.data in h.rows
      && OneWrite(custom, h.rows, h.response.body.data)
    ensures h.response.status != 201 ==> h.rows == custom && h.response.body.ErrorBody?
    ensures TableConstraints(custom) ==> TableConstraints(h.rows)
    ensures body.None? || body == Some(JNull) ==> h == Handled(ServerError(), custom)
    ensures body.Some? && body.value != JNull && !HasNonEmptyString(body.value, "extension") ==>
      h == Handled(BadRequest(EmptyMessage), custom)
  {
    match Destructure(body, "extension")
    case Threw(t) => Handled(WithErrorHandler(Threw(t)), custom)
    case Returned(extension) =>
      var present := Assert(IsNonEmptyString(extension), EmptyMessage);
      if present.Threw? then Handled(WithErrorHandler(Threw(present.thrown)), custom)
      else
        var w := AddResult(custom, fixed, lookup, extension.value.s, now, newId);
        if w.outcome.Returned? then
          OneWriteStoresRow(custom, w.rows, w.outcome.value);
          Respond(w)
        else Respond(w)
  }

  /** `ApiResponse.created` for a returned row, the error handler's response for a throw. */
  function Respond(w: Write<CustomExtension>): (h: Handled<CustomExtension, CustomExtension>)
    ensures h.rows == w.rows
    ensures w.outcome.Returned? ==> h.response == Response(201, Data(w.outcome.value))
    ensures w.outcome.Threw? ==> h.response == WithErrorHandler(Threw(w.outcome.thrown))
  {
    match w.outcome
    case Returned(created) => Handled(WithErrorHandler(Returned(Created(created))), w.rows)
    case Threw(t) => Handled(WithErrorHandler(Threw(t)), w.rows)
  }

  /** A body whose `extension` is a non-empty string goes straight to the service, whatever else it holds. */
  lemma PostPassesStringToService(custom: seq<CustomExtension>, fixed: seq<FixedExtension>, lookup: Lookup,
                                  fields: map<string, Json>, now: Instant, newId: string)
    requires HasNonEmptyString(JObject(fields), "extension")
    ensures Post(custom, fixed, lookup, Some(JObject(fields)), now, newId)
         == Respond(AddResult(custom, fixed, lookup, fields["extension"].s, now, newId))
  {
    var extension := Defined(fields["extension"]);
    assert Destructure(Some(JObject(fields)), "extension") == Returned(extension);
    assert IsNonEmptyString(extension);
  }

  /** DELETE `?id=...` (`None` when the query has no `id`). */
  function Delete(custom: seq<CustomExtension>, idParam: Option<string>, now: Instant)
    : (h: Handled<DeleteAck, CustomExtension>)
    ensures h.response.status == 200 <==>
      idParam.Some? && idParam.value != [] && exists x :: x in custom && x.id == idParam.value
    ensures h.response.status == 200 ==> h.response.body == Data(DeleteAck(true))
    ensures (idParam.None? || idParam.value == []) ==> h.response == BadRequest(IdRequiredMessage)
    ensures h.response.status != 200 ==> h.rows == custom
    ensures Count(h.rows) <= Count(custom)
    ensures TableConstraints(custom) ==> TableConstraints(h.rows)
  {
    var present := Assert(idParam.Some? && idParam.value != [], IdRequiredMessage);
    if present.Threw? then Handled(WithErrorHandler(Threw(present.thrown)), custom)
    else
      var w := RemoveResult(custom, idParam.value, now);
      match w.outcome
      case Returned(_) => Handled(WithErrorHandler(Returned(Success(DeleteAck(true)))), w.rows)
      case Threw(t) => Handled(WithErrorHandler(Threw(t)), w.rows)
  }

  /** A non-empty id goes straight to the service's `remove`. */
  lemma DeleteRemoves(custom: seq<CustomExtension>, id: string, now: Instant)
    requires id != []
    ensures var w := RemoveResult(custom, id, now);
      Delete(custom, Some(id), now)
      == Handled(if w.outcome.Returned? then Success(DeleteAck(true)) else WithErrorHandler(Threw(w.outcome.thrown)), w.rows)
  {
  }
}
