/** The decisions of the REST controller in routes/hooks.js: how a listing
    request's query parameters become a filter, a limit and an offset, and
    how each handler turns a callback's `(err, result)` into a status and a
    body. `JSON.parse` and `parseInt` are arguments (`None` for a throw and
    for `NaN`); `maxResults` is the project-wide `Common.MAX_RESULTS`. */
module HookRoutes {
  import opened Values
  import opened HookModel
  import opened HookRegistry

  /** The condition and options handed to the store's `find`. */
  datatype ListQuery = ListQuery(filter: Json, limit: int, skip: int)

  /** `text` is present and `parseInt` reads the integer `n` from it. */
  predicate ParsesTo(text: Option<string>, parseInt: string -> Option<int>, n: int) {
    text.Some? && parseInt(text.value) == Some(n)
  }

  /** `parseInt(text) || default`: `NaN` and `0` are both falsy. */
  function IntOr(text: Option<string>, parseInt: string -> Option<int>, default: int): (r: int)
    ensures forall n :: ParsesTo(text, parseInt, n) && n != 0 ==> r == n
    ensures text.None? || parseInt(text.value) in {None, Some(0)} ==> r == default
  {
    match text
    case None => default
    case Some(t) =>
      match parseInt(t)
      case None => default
      case Some(n) => if n != 0 then n else default
  }

  /** getAll's reading of `q`, `limit` and `offset`. An absent or empty `q`
      falls back to `{}`, which `JSON.parse` rejects, so the filter is `{}`
      again. */
  function ListingQuery(q: Option<string>, limitText: Option<string>, offsetText: Option<string>,
                        maxResults: int, parseJson: string -> Option<Json>,
                        parseInt: string -> Option<int>): (r: ListQuery)
    ensures Truthy(q) && parseJson(q.value).Some? ==> r.filter == parseJson(q.value).value
    ensures !Truthy(q) || parseJson(q.value).None? ==> r.filter == EmptyObject
    ensures forall n :: ParsesTo(limitText, parseInt, n) && n != 0 ==> r.limit == n
    ensures limitText.None? || parseInt(limitText.value) in {None, Some(0)} ==> r.limit == maxResults
    ensures forall n :: ParsesTo(offsetText, parseInt, n) && n != 0 ==> r.skip == n
    ensures offsetText.None? || parseInt(offsetText.value) in {None, Some(0)} ==> r.skip == 0
  {
    var filter :=
      if Truthy(q) then
        match parseJson(q.value)
        case Some(v) => v
        case None => EmptyObject
      else EmptyObject;
    ListQuery(filter, IntOr(limitText, parseInt, maxResults), IntOr(offsetText, parseInt, 0))
  }

  /** A limit of zero is never passed to the store unless `maxResults` is
      zero itself; a negative number is passed through unchanged. */
  lemma LimitNeverZero(q: Option<string>, limitText: Option<string>, offsetText: Option<string>,
                       maxResults: int, parseJson: string -> Option<Json>, parseInt: string -> Option<int>)
    requires maxResults != 0
    ensures ListingQuery(q, limitText, offsetText, maxResults, parseJson, parseInt).limit != 0
  {
  }

  /** The body of a response. */
  datatype Body =
    | Empty                                   // `null` / `undefined`
    | Record(hook: Hook)
    | Records(hooks: seq<Hook>)
    | Flag(value: bool)
    | Unable(prefix: string, cause: Error)    // `prefix + err`
    | NotFound                                // the 404 error; its text is not modelled

  datatype Reply = Reply(status: int, body: Body)

  /** The text of an error body, when the error is a string. */
  function MessageOf(b: Body): Option<string> {
    match b
    case Unable(prefix, cause) =>
      (match ErrorText(cause)
       case Some(t) => Some(prefix + t)
       case None => None)
    case _ => None
  }

  const SavePrefix: string := "Unable to save hook: "
  const UpdatePrefix: string := "Unable to update hook: "

  function DocBody(doc: Option<Hook>): Body {
    match doc
    case Some(h) => Record(h)
    case None => Empty
  }

  /** getAll replies 200 whatever the store answered. */
  function GetAllReply(err: Option<Error>, results: Option<seq<Hook>>): (r: Reply)
    ensures r.status == 200
    ensures results.Some? ==> r.body == Records(results.value)
  {
    Reply(200, if results.Some? then Records(results.value) else Empty)
  }

  /** get, as intended: 404 on an error or no record, otherwise 200 with
      the record. */
  function GetReply(a: Answer): (r: Reply)
    ensures r.status == 404 <==> a.err.Some? || a.doc.None?
    ensures r.status != 404 ==> r == Reply(200, Record(a.doc.value))
  {
    if a.err.Some? || a.doc.None? then Reply(404, NotFound) else Reply(200, Record(a.doc.value))
  }

  /** delete, as intended: 404 on any error, otherwise 200 with `true`. */
  function DeleteReply(a: Answer): (r: Reply)
    ensures r.status == 404 <==> a.err.Some?
    ensures r.status != 404 ==> r == Reply(200, Flag(true))
  {
    if a.err.Some? then Reply(404, NotFound) else Reply(200, Flag(true))
  }

  /** What a handler does with a request: send a reply, or throw out of the
      store's callback, in which case no reply is sent. */
  datatype Handling = Replied(reply: Reply) | Threw(error: string)

  /** The exception raised by evaluating the undeclared identifier `name`. */
  const UndeclaredName: string := "ReferenceError: name is not defined"

  /** get as the code is written: building the 404 message reads `name`,
      which no enclosing scope declares (only `hookName` is), so the error
      path throws before `sendError` is reached. */
  function GetAsWritten(a: Answer): (r: Handling)
    ensures r.Threw? <==> a.err.Some? || a.doc.None?
    ensures r.Threw? ==> r.error == UndeclaredName
    ensures r.Replied? ==> r.reply == Reply(200, Record(a.doc.value))
  {
    if a.err.Some? || a.doc.None? then Threw(UndeclaredName) else Replied(Reply(200, Record(a.doc.value)))
  }

  /** delete as the code is written: the same undeclared `name` on every
      error path. */
  function DeleteAsWritten(a: Answer): (r: Handling)
    ensures r.Threw? <==> a.err.Some?
    ensures r.Threw? ==> r.error == UndeclaredName
    ensures r.Replied? ==> r.reply == Reply(200, Flag(true))
  {
    if a.err.Some? then Threw(UndeclaredName) else Replied(Reply(200, Flag(true)))
  }

  /** The code as written and the intended replies agree on every success;
      exactly where the intended reply is a 404, the code throws instead. */
  lemma AsWrittenThrowsInsteadOf404(a: Answer)
    ensures GetAsWritten(a) == if GetReply(a).status == 404 then Threw(UndeclaredName) else Replied(GetReply(a))
    ensures DeleteAsWritten(a) == if DeleteReply(a).status == 404 then Threw(UndeclaredName) else Replied(DeleteReply(a))
  {
  }

  /** The input that shows it: getting or deleting a name that is not
      stored is meant to be answered 404, and the code sends nothing. */
  lemma UnknownNameThrows(m: map<string, Hook>, name: string)
    requires name !in m
    ensures GetReply(Lookup(m, name, None)) == Reply(404, NotFound)
    ensures GetAsWritten(Lookup(m, name, None)) == Threw(UndeclaredName)
    ensures DeleteReply(DeleteSpec(m, name, None, None).answer) == Reply(404, NotFound)
    ensures DeleteAsWritten(DeleteSpec(m, name, None, None).answer) == Threw(UndeclaredName)
  {
  }

  /** add: 400 with the reason on error, otherwise 201 with the saved record. */
  function AddReply(a: Answer): (r: Reply)
    ensures r.status == 400 <==> a.err.Some?
    ensures a.err.Some? ==> r.body == Unable(SavePrefix, a.err.value)
    ensures a.err.None? ==> r == Reply(201, DocBody(a.doc))
  {
    if a.err.Some? then Reply(400, Unable(SavePrefix, a.err.value)) else Reply(201, DocBody(a.doc))
  }

  /** update: 400 on error, otherwise 201, with whatever record came back. */
  function UpdateReply(a: UpdateAnswer): (r: Reply)
    ensures r.status == 400 <==> a.err.Some?
    ensures a.err.Some? ==> r.body == Unable(UpdatePrefix, a.err.value)
    ensures a.err.None? ==> r == Reply(201, DocBody(a.doc))
  {
    if a.err.Some? then Reply(400, Unable(UpdatePrefix, a.err.value)) else Reply(201, DocBody(a.doc))
  }

  // ---- what a client of the hooks endpoints observes ----

  /** Posting a definition with a missing field is answered 400 with the
      validation message after the fixed prefix, and stores nothing. */
  lemma AddInvalidReplies400(m: map<string, Hook>, def: Option<HookDef>, saveFault: Option<string>)
    requires Validate(def).Some?
    ensures var e := AddSpec(m, def, saveFault);
      && AddReply(e.answer).status == 400
      && MessageOf(AddReply(e.answer).body) == Some(SavePrefix + Validate(def).value)
      && e.after == m
  {
  }

  /** Updating a name that is not stored is answered 201 with an empty body. */
  lemma UpdateUnknownReplies201(m: map<string, Hook>, def: Option<HookDef>, saveFault: Option<string>)
    requires Validate(def).None? && def.value.name.value !in m
    ensures UpdateReply(UpdateSpec(m, def, None, saveFault).answer) == Reply(201, Empty)
  {
  }

  /** A successful update is answered 201 with the merged record. */
  lemma UpdateKnownReplies201(m: map<string, Hook>, def: Option<HookDef>)
    requires Validate(def).None? && def.value.name.value in m
    requires SchemaAccepts(Merge(m[def.value.name.value], def.value))
    ensures UpdateReply(UpdateSpec(m, def, None, None).answer)
            == Reply(201, Record(Merge(m[def.value.name.value], def.value)))
  {
  }

  /** Deleting an unknown name is answered 404; deleting a known one is
      answered 200, after which getting it is answered 404. */
  lemma DeleteThenGet(m: map<string, Hook>, name: string)
    ensures name !in m ==> DeleteReply(DeleteSpec(m, name, None, None).answer).status == 404
    ensures name in m ==>
      && DeleteReply(DeleteSpec(m, name, None, None).answer) == Reply(200, Flag(true))
      && GetReply(Lookup(DeleteSpec(m, name, None, None).after, name, None)).status == 404
  {
  }
}
