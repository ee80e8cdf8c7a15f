/** The collection endpoint of the HTTP API: `GET` lists the stored items,
    `POST` validates a body and creates one. The store is a parameter: a
    function returning either its answer or the error it threw. */
module TodosRoute {
  import opened Wrappers

  /** A parsed JSON value (JSON has no `undefined`; an absent field is `None`). */
  datatype Json =
    | JNull
    | JBool(b: bool)
    | JNumber(n: real)
    | JString(s: string)
    | JArray(items: seq<Json>)
    | JObject(fields: map<string, Json>)

  /** A stored item, as the store returns it. */
  datatype Record = Record(id: string, text: string, completed: bool, createdAt: int, updatedAt: int)

  /** Whatever the store or the runtime threw. */
  datatype Thrown = Thrown(message: string)

  datatype ResponseBody =
    | Created(todo: Record)
    | Listed(todos: seq<Record>)
    | ErrorBody(error: string)

  datatype Response = Response(status: int, body: ResponseBody)

  const TextRequired: string := "Text is required and must be a string"
  const CreateFailed: string := "Failed to create todo"
  const FetchFailed: string := "Failed to fetch todos"

  /** JavaScript's ToBoolean on a JSON value, `None` standing for `undefined`. */
  function Truthy(v: Option<Json>): (b: bool)
    ensures v.None? || v == Some(JNull) ==> !b
    ensures (v.Some? && v.value.JString?) ==> (b <==> v.value.s != [])
  {
    match v
    case None => false
    case Some(JNull) => false
    case Some(JBool(b)) => b
    case Some(JNumber(n)) => n != 0.0
    case Some(JString(s)) => s != []
    case Some(JArray(_)) => true
    case Some(JObject(_)) => true
  }

  /** `const { text } = body`: destructuring `null` throws; any other
      non-object, and an object without the key, yields `undefined`. */
  function TextField(body: Json): (r: Result<Option<Json>, Thrown>)
    ensures r.Failure? <==> body == JNull
    ensures r.Success? && r.value.Some? <==> body.JObject? && "text" in body.fields
    ensures r.Success? && r.value.Some? ==> r.value.value == body.fields["text"]
  {
    match body
    case JNull => Failure(Thrown("Cannot destructure 'null'"))
    case JObject(fields) => Success(if "text" in fields then Some(fields["text"]) else None)
    case _ => Success(None)
  }

  /** The request body is an object whose `text` is a non-empty string. */
  predicate HasValidText(parsed: Option<Json>) {
    && parsed.Some? && parsed.value.JObject?
    && "text" in parsed.value.fields
    && parsed.value.fields["text"].JString?
    && parsed.value.fields["text"].s != []
  }

  /** What one `POST` does: the text passed to the store's create, if it is
      called, and the response. */
  datatype Post = Post(created: Option<string>, response: Response)

  /** `POST` on a body `parsed` (`None` when `request.json()` throws). */
  function HandlePost(parsed: Option<Json>, create: string -> Result<Record, Thrown>): (r: Post)
    ensures r.created.Some? <==> HasValidText(parsed)
    ensures r.created.Some? ==> r.created.value == parsed.value.fields["text"].s
    ensures r.response.status in {201, 400, 500}
    ensures r.response.status == 400 <==> parsed.Some? && parsed.value != JNull && !HasValidText(parsed)
    ensures r.response.status == 400 ==> r.response.body == ErrorBody(TextRequired)
    ensures r.response.status == 201 <==> r.created.Some? && create(r.created.value).Success?
    ensures r.response.status == 201 ==> r.response.body == Created(create(r.created.value).value)
    ensures r.response.status == 500 ==> r.response.body == ErrorBody(CreateFailed)
  {
    match parsed
    case None => Post(None, Response(500, ErrorBody(CreateFailed)))
    case Some(body) =>
      match TextField(body)
      case Failure(_) => Post(None, Response(500, ErrorBody(CreateFailed)))
      case Success(text) =>
        if !Truthy(text) || !text.value.JString? then
          Post(None, Response(400, ErrorBody(TextRequired)))
        else
          match create(text.value.s)
          case Success(todo) => Post(Some(text.value.s), Response(201, Created(todo)))
          case Failure(_) => Post(Some(text.value.s), Response(500, ErrorBody(CreateFailed)))
  }

  /** The validation does not trim: a text of one space reaches the store. */
  lemma WhitespaceTextAccepted(create: string -> Result<Record, Thrown>)
    ensures HandlePost(Some(JObject(map["text" := JString(" ")])), create).created == Some(" ")
  {
  }

  /** A store whose create keeps the text and starts the item uncompleted. */
  ghost predicate HonestCreate(create: string -> Result<Record, Thrown>) {
    forall t :: create(t).Success? ==> create(t).value.text == t && !create(t).value.completed
  }

  /** With such a store, a 201 carries an uncompleted item holding the posted text unchanged. */
  lemma CreatedRecordKeepsText(parsed: Option<Json>, create: string -> Result<Record, Thrown>)
    requires HonestCreate(create)
    requires HandlePost(parsed, create).response.status == 201
    ensures HasValidText(parsed)
    ensures HandlePost(parsed, create).response.body.todo.text == parsed.value.fields["text"].s
    ensures !HandlePost(parsed, create).response.body.todo.completed
  {
  }

  /** The orderings on `createdAt` a listing can ask the store for. */
  datatype Order = CreatedAtAsc | CreatedAtDesc

  /** What one `GET` does: the ordering requested and the response. */
  datatype Get = Get(order: Order, response: Response)

  /** `GET`: the store's list under `createdAt` descending, or 500. */
  function HandleGet(findMany: Order -> Result<seq<Record>, Thrown>): (r: Get)
    ensures r.order == CreatedAtDesc
    ensures r.response.status in {200, 500}
    ensures r.response.status == 200 <==> findMany(r.order).Success?
    ensures r.response.status == 200 ==> r.response.body == Listed(findMany(r.order).value)
    ensures r.response.status == 500 ==> r.response.body == ErrorBody(FetchFailed)
  {
    match findMany(CreatedAtDesc)
    case Success(todos) => Get(CreatedAtDesc, Response(200, Listed(todos)))
    case Failure(_) => Get(CreatedAtDesc, Response(500, ErrorBody(FetchFailed)))
  }

  predicate NewestFirst(todos: seq<Record>) {
    forall i, j :: 0 <= i < j < |todos| ==> todos[i].createdAt >= todos[j].createdAt
  }

  /** A store that honours the requested ordering yields a newest-first listing. */
  lemma GetListsNewestFirst(findMany: Order -> Result<seq<Record>, Thrown>)
    requires findMany(CreatedAtDesc).Success? ==> NewestFirst(findMany(CreatedAtDesc).value)
    ensures HandleGet(findMany).response.status == 200 ==> NewestFirst(HandleGet(findMany).response.body.todos)
  {
  }
}
