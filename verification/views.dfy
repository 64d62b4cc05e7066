/** The two JSON endpoints of todos/views.py: `todos` (the collection,
    GET lists and POST creates) and `todo` (one record, PUT updates and
    DELETE removes).

    The database is a map from id to record, the request body is already
    parsed (`json.loads` either fails or yields a JSON value), and each
    view is a pure function from a request and a store to a response and
    the store after the request. */
module Views {
  import opened Wrappers

  /** A parsed JSON value. */
  datatype Json =
    | JNull
    | JBool(b: bool)
    | JNumber(n: int)
    | JString(s: string)
    | JArray(items: seq<Json>)
    | JObject(fields: map<string, Json>)

  /** `json.loads(request.body)`: `Invalid` when it raises JSONDecodeError. */
  datatype Body = Invalid | Valid(doc: Json)

  /** What the views read from a request: the `X-Requested-With` header
      (None when absent), the HTTP method (`verb`) and the body. */
  datatype Request = Request(requestedWith: Option<string>, verb: string, body: Body)

  /** A stored record. Its fields hold whatever JSON values the view hands
      to the database layer. */
  datatype Todo = Todo(task: Json, completed: Json)

  type Store = map<int, Todo>

  /** One element of the GET listing: `values('id', 'task', 'completed')`. */
  datatype Row = Row(id: int, task: Json, completed: Json)

  datatype Content =
    | HomePage                      // render(request, "home.html")
    | PlainText(text: string)       // HttpResponseBadRequest(text)
    | JsonStatus(status: string)    // JsonResponse({'status': status})
    | JsonContext(rows: set<Row>)   // JsonResponse({'context': rows})
    | NotFoundPage                  // the Http404 raised by get_object_or_404
    | ServerErrorPage               // an uncaught exception, answered with Django's 500 page

  datatype Response = Response(code: int, content: Content)

  /** The response together with the store as the request leaves it. */
  datatype Outcome = Outcome(response: Response, store: Store)

  const AjaxMarker := "XMLHttpRequest"

  const Ok := 200
  const BadRequest := 400
  const NotFound := 404
  const MethodNotAllowed := 405
  const InternalServerError := 500

  const InvalidRequest := "Invalid request"
  const InvalidJson := "Error: Invalid JSON"
  const NotAllowed := "Method not allowed for AJAX"
  const Added := "Todo added!"
  const Updated := "Todo updated!"
  const Deleted := "Todo deleted!"

  /** The header is present and exactly `XMLHttpRequest`. */
  predicate IsAjax(req: Request) {
    req.requestedWith == Some(AjaxMarker)
  }

  // ---------------------------------------------------------------------
  // Store helpers
  // ---------------------------------------------------------------------

  /** The GET listing: every record, projected to id, task and completed. */
  function Listing(store: Store): set<Row> {
    set id | id in store :: Row(id, store[id].task, store[id].completed)
  }

  /** The request stops with `status` and the store is left as it was. */
  function Reply(store: Store, code: int, content: Content): (out: Outcome)
    ensures out.store == store && out.response.code == code
  {
    Outcome(Response(code, content), store)
  }

  // ---------------------------------------------------------------------
  // POST payload (todos view)
  // ---------------------------------------------------------------------

  /** A parsed POST body the view gets through without raising: an object
      whose `payload` is an object holding `task` and `completed`. Any other
      body raises AttributeError, TypeError or KeyError at lines 31 or 35,
      outside the `except json.JSONDecodeError` clause. */
  predicate IsCreatePayload(doc: Json) {
    && doc.JObject?
    && "payload" in doc.fields
    && doc.fields["payload"].JObject?
    && "task" in doc.fields["payload"].fields
    && "completed" in doc.fields["payload"].fields
  }

  /** The record built from `payload['task']` and `payload['completed']`. */
  function NewTodo(doc: Json): Todo
    requires IsCreatePayload(doc)
  {
    var payload := doc.fields["payload"].fields;
    Todo(payload["task"], payload["completed"])
  }

  // ---------------------------------------------------------------------
  // PUT payload (todo view)
  // ---------------------------------------------------------------------

  /** A parsed PUT body the view gets through without raising: an object
      whose `payload`, when present, is an object. Any other body raises
      AttributeError at lines 63 or 67. */
  predicate IsUpdatePayload(doc: Json) {
    && doc.JObject?
    && ("payload" in doc.fields ==> doc.fields["payload"].JObject?)
  }

  /** `data.get('payload', {})`: the fields to change. */
  function UpdateFields(doc: Json): (fields: map<string, Json>)
    requires IsUpdatePayload(doc)
    ensures "payload" !in doc.fields ==> fields == map[]
    ensures "payload" in doc.fields ==> JObject(fields) == doc.fields["payload"]
  {
    if "payload" in doc.fields then doc.fields["payload"].fields else map[]
  }

  /** Lines 67-68: each of task and completed takes the payload's value when
      the key is present and keeps its old value otherwise. */
  function Merge(t: Todo, fields: map<string, Json>): (u: Todo)
    ensures "task" in fields ==> u.task == fields["task"]
    ensures "task" !in fields ==> u.task == t.task
    ensures "completed" in fields ==> u.completed == fields["completed"]
    ensures "completed" !in fields ==> u.completed == t.completed
  {
    Todo(
      if "task" in fields then fields["task"] else t.task,
      if "completed" in fields then fields["completed"] else t.completed)
  }

  // ---------------------------------------------------------------------
  // The `todos` view (collection)
  // ---------------------------------------------------------------------

  /** The request reaches the creation at line 35 with a parsed body. */
  predicate IsCreate(req: Request) {
    IsAjax(req) && req.verb == "POST" && req.body.Valid?
  }

  /** The only request that writes through the collection endpoint. */
  predicate Creates(req: Request) {
    IsCreate(req) && IsCreatePayload(req.body.doc)
  }

  /** `store2` is `store` plus one new record `t` under the fresh key `id`,
      every existing record untouched. */
  ghost predicate AddsExactly(store: Store, store2: Store, id: int, t: Todo) {
    && id !in store
    && store2.Keys == store.Keys + {id}
    && store2[id] == t
    && forall k :: k in store ==> store2[k] == store[k]
  }

  /** `todos(request)`. `newId` is the id the database assigns to a record
      it creates; any key not yet in the store will do. */
  function TodosView(req: Request, store: Store, newId: int): (out: Outcome)
    requires Creates(req) ==> newId !in store
    ensures out.response.code in {Ok, BadRequest, MethodNotAllowed, InternalServerError}
    ensures out.response.code != Ok ==> out.store == store
    ensures !Creates(req) ==> out.store == store
    ensures Creates(req) ==> AddsExactly(store, out.store, newId, NewTodo(req.body.doc))
                             && out.response == Response(Ok, JsonStatus(Added))
    ensures IsCreate(req) && !IsCreatePayload(req.body.doc)
            ==> out.response == Response(InternalServerError, ServerErrorPage)
    ensures !IsAjax(req) && req.verb == "GET" ==> out.response == Response(Ok, HomePage)
    ensures !IsAjax(req) && req.verb != "GET" ==> out.response == Response(BadRequest, PlainText(InvalidRequest))
    ensures IsAjax(req) && req.verb == "GET"
            ==> out.response == Response(Ok, JsonContext(Listing(store)))
    ensures IsAjax(req) && req.verb == "POST" && req.body.Invalid?
            ==> out.response == Response(BadRequest, JsonStatus(InvalidJson))
    ensures IsAjax(req) && req.verb !in {"GET", "POST"}
            ==> out.response == Response(MethodNotAllowed, JsonStatus(NotAllowed))
  {
    if IsAjax(req) then
      if req.verb == "GET" then
        Reply(store, Ok, JsonContext(Listing(store)))
      else if req.verb == "POST" then
        match req.body
        case Invalid => Reply(store, BadRequest, JsonStatus(InvalidJson))
        case Valid(doc) =>
          if IsCreatePayload(doc) then
            Outcome(Response(Ok, JsonStatus(Added)), store[newId := NewTodo(doc)])
          else
            Reply(store, InternalServerError, ServerErrorPage)
      else
        Reply(store, MethodNotAllowed, JsonStatus(NotAllowed))
    else if req.verb == "GET" then
      Reply(store, Ok, HomePage)
    else
      Reply(store, BadRequest, PlainText(InvalidRequest))
  }

  // ---------------------------------------------------------------------
  // The `todo` view (one record)
  // ---------------------------------------------------------------------

  /** The request reaches the PUT branch with a parsed body. */
  predicate IsUpdate(req: Request, store: Store, id: int) {
    IsAjax(req) && id in store && req.verb == "PUT" && req.body.Valid?
  }

  /** The request reaches the DELETE branch. */
  predicate IsDelete(req: Request, store: Store, id: int) {
    IsAjax(req) && id in store && req.verb == "DELETE"
  }

  /** `store2` differs from `store` at most at key `id`. */
  ghost predicate OthersUntouched(store: Store, store2: Store, id: int) {
    forall k :: k != id ==> (k in store2 <==> k in store) && (k in store ==> store2[k] == store[k])
  }

  /** `todo(request, todoId)`. */
  function TodoView(req: Request, store: Store, id: int): (out: Outcome)
    ensures out.response.code in {Ok, BadRequest, NotFound, MethodNotAllowed, InternalServerError}
    ensures out.response.code != Ok ==> out.store == store
    ensures OthersUntouched(store, out.store, id)
    ensures !IsAjax(req) ==> out == Outcome(Response(BadRequest, PlainText(InvalidRequest)), store)
    ensures IsAjax(req) && id !in store ==> out == Outcome(Response(NotFound, NotFoundPage), store)
    ensures IsAjax(req) && id in store && req.verb == "PUT" && req.body.Invalid?
            ==> out.response == Response(BadRequest, JsonStatus(InvalidJson))
    ensures IsAjax(req) && id in store && req.verb !in {"PUT", "DELETE"}
            ==> out.response == Response(MethodNotAllowed, JsonStatus(NotAllowed))
    ensures out.store != store ==> IsUpdate(req, store, id) || IsDelete(req, store, id)
    ensures IsUpdate(req, store, id) && !IsUpdatePayload(req.body.doc)
            ==> out == Outcome(Response(InternalServerError, ServerErrorPage), store)
    ensures IsUpdate(req, store, id) && IsUpdatePayload(req.body.doc)
            ==> out.store.Keys == store.Keys
                && out.store[id] == Merge(store[id], UpdateFields(req.body.doc))
                && out.response == Response(Ok, JsonStatus(Updated))
    ensures IsDelete(req, store, id)
            ==> out.store.Keys == store.Keys - {id} && out.response == Response(Ok, JsonStatus(Deleted))
  {
    if IsAjax(req) then
      if id !in store then
        Reply(store, NotFound, NotFoundPage)
      else if req.verb == "PUT" then
        match req.body
        case Invalid => Reply(store, BadRequest, JsonStatus(InvalidJson))
        case Valid(doc) =>
          if IsUpdatePayload(doc) then
            Outcome(Response(Ok, JsonStatus(Updated)), store[id := Merge(store[id], UpdateFields(doc))])
          else
            Reply(store, InternalServerError, ServerErrorPage)
      else if req.verb == "DELETE" then
        Outcome(Response(Ok, JsonStatus(Deleted)), store - {id})
      else
        Reply(store, MethodNotAllowed, JsonStatus(NotAllowed))
    else
      Reply(store, BadRequest, PlainText(InvalidRequest))
  }

  // ---------------------------------------------------------------------
  // Properties relating several requests
  // ---------------------------------------------------------------------

  /** A row is listed exactly when it carries the id, task and completed
      of a stored record. */
  lemma ListingMembers(store: Store)
    ensures forall row :: row in Listing(store)
              <==> row.id in store && store[row.id] == Todo(row.task, row.completed)
  {
  }

  /** Removing one record removes exactly its row from the listing. */
  lemma ListingWithout(store: Store, k: int)
    requires k in store
    ensures var row := Row(k, store[k].task, store[k].completed);
            Listing(store) == Listing(store - {k}) + {row} && row !in Listing(store - {k})
  {
    var rest := store - {k};
    var row := Row(k, store[k].task, store[k].completed);
    forall r | r in Listing(store) ensures r in Listing(rest) + {row} {
      if r.id != k { assert r.id in rest; }
    }
  }

  /** The listing has as many rows as the store has records. */
  lemma {:induction false} ListingSize(store: Store)
    ensures |Listing(store)| == |store|
    decreases |store|
  {
    if store != map[] {
      if forall x :: x !in store { assert false; }
      var k :| k in store;
      var rest := store - {k};
      assert rest.Keys == store.Keys - {k};
      ListingWithout(store, k);
      ListingSize(rest);
    } else {
      assert Listing(store) == {};
    }
  }

  /** A successful create grows the store, and the listing, by exactly the
      new record. */
  lemma CreateAddsOneRow(req: Request, store: Store, newId: int)
    requires Creates(req) && newId !in store
    ensures var after := TodosView(req, store, newId).store;
            var t := NewTodo(req.body.doc);
            |after| == |store| + 1 && Listing(after) == Listing(store) + {Row(newId, t.task, t.completed)}
  {
  }

  /** A successful delete shrinks the store, and the listing, by exactly
      that record. */
  lemma DeleteRemovesOneRow(req: Request, store: Store, id: int)
    requires IsDelete(req, store, id)
    ensures var after := TodoView(req, store, id).store;
            |after| == |store| - 1
            && Listing(after) == Listing(store) - {Row(id, store[id].task, store[id].completed)}
  {
  }

  /** A successful PUT replaces that record's row in the listing by the
      merged one and leaves every other row in place. */
  lemma UpdateReplacesOneRow(req: Request, store: Store, id: int)
    requires IsUpdate(req, store, id) && IsUpdatePayload(req.body.doc)
    ensures var after := TodoView(req, store, id).store;
            var t := Merge(store[id], UpdateFields(req.body.doc));
            Listing(after)
            == Listing(store) - {Row(id, store[id].task, store[id].completed)} + {Row(id, t.task, t.completed)}
  {
  }

  /** Deleting the record a POST has just created gives back the store as
      it was before the POST. */
  lemma CreateThenDeleteRestores(post: Request, delete: Request, store: Store, newId: int)
    requires Creates(post) && newId !in store
    requires IsAjax(delete) && delete.verb == "DELETE"
    ensures var created := TodosView(post, store, newId).store;
            TodoView(delete, created, newId).store == store
  {
  }

  /** For an AJAX request on an id the store does not hold, the method and
      the body make no difference: every such request gets the same 404. */
  lemma UnknownIdIsNotFoundWhateverTheRequest(req1: Request, req2: Request, store: Store, id: int)
    requires IsAjax(req1) && IsAjax(req2) && id !in store
    ensures TodoView(req1, store, id) == TodoView(req2, store, id)
            == Outcome(Response(NotFound, NotFoundPage), store)
  {
  }

  /** Sending the same PUT twice leaves the store as sending it once. */
  lemma UpdateIsIdempotent(req: Request, store: Store, id: int)
    requires IsUpdate(req, store, id) && IsUpdatePayload(req.body.doc)
    ensures var once := TodoView(req, store, id);
            TodoView(req, once.store, id) == once
  {
  }

  /** A PUT without a `payload` key succeeds and changes nothing. */
  lemma UpdateWithoutPayloadChangesNothing(req: Request, store: Store, id: int)
    requires IsUpdate(req, store, id) && req.body.doc.JObject? && "payload" !in req.body.doc.fields
    ensures TodoView(req, store, id) == Outcome(Response(Ok, JsonStatus(Updated)), store)
  {
  }

  /** A PUT whose payload repeats the record's own values changes nothing. */
  lemma UpdateWithOwnValuesChangesNothing(req: Request, store: Store, id: int)
    requires IsUpdate(req, store, id) && id in store
    requires req.body.doc
             == JObject(map["payload" := JObject(map["task" := store[id].task, "completed" := store[id].completed])])
    ensures TodoView(req, store, id).store == store
  {
  }
}
