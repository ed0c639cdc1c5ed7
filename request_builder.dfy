/** dispatchHook's construction of the outbound call: the request options
    (`uri`, `method`, and a `qs` or a `json` payload) and the retry settings
    read from the hook with their `||` defaults. */
module RequestBuilder {
  import opened Values
  import opened HookModel

  /** The entity handed to dispatch: either already plain data, or a live
      document that has a `toObject` method. */
  datatype Entity = Plain(value: Json) | Document(fields: Json)

  /** `entity.toObject()` when there is such a method, the entity itself otherwise. */
  function PlainOf(e: Entity): Json {
    match e
    case Plain(v) => v
    case Document(f) => f
  }

  /** The `data` field of the payload: the entity, or its JSON text. */
  datatype PayloadData = Structured(entity: Json) | Serialized(text: string)

  /** `{hook, entity_type, event, data}`. */
  datatype Payload = Payload(hook: string, entityType: string, event: string, data: PayloadData)

  /** Where the payload travels: under `qs.data` (GET) or as `json`. */
  datatype CallBody = Query(data: Payload) | JsonBody(json: Payload)

  /** The options object given to `request`: `uri`, `method` (here `verb`) and the payload. */
  datatype Call = Call(uri: string, verb: string, body: CallBody)

  /** The payload of a call, whichever way it travels. */
  function PayloadOf(b: CallBody): Payload {
    match b
    case Query(p) => p
    case JsonBody(p) => p
  }

  /** The call for `hook` notified of `event` on `entity`; `stringify` is
      `JSON.stringify`. */
  function BuildCall(hook: Hook, entity: Entity, event: string, stringify: Json -> string): (c: Call)
    ensures c.uri == hook.target.url && c.verb == hook.target.action
    ensures c.body.Query? <==> hook.target.action == "GET"
    ensures PayloadOf(c.body).hook == hook.name
    ensures PayloadOf(c.body).entityType == hook.entityType
    ensures PayloadOf(c.body).event == event
    ensures c.body.Query? ==> PayloadOf(c.body).data == Serialized(stringify(PlainOf(entity)))
    ensures c.body.JsonBody? ==> PayloadOf(c.body).data == Structured(PlainOf(entity))
  {
    var plain := PlainOf(entity);
    var data := Payload(hook.name, hook.entityType, event, Structured(plain));
    if hook.target.action == "GET" then
      Call(hook.target.url, hook.target.action, Query(data.(data := Serialized(stringify(plain)))))
    else
      Call(hook.target.url, hook.target.action, JsonBody(data))
  }

  /** Destination, verb and encoding depend on the hook alone: no entity or
      event can redirect a call or change how it is carried. */
  lemma CallShapeFixedByHook(hook: Hook, e1: Entity, e2: Entity, ev1: string, ev2: string, stringify: Json -> string)
    ensures var c1, c2 := BuildCall(hook, e1, ev1, stringify), BuildCall(hook, e2, ev2, stringify);
            c1.uri == c2.uri && c1.verb == c2.verb && c1.body.Query? == c2.body.Query?
  {
  }

  /** Both encodings carry the same logical payload; only the form of the
      entity differs. */
  lemma EncodingsCarrySameFields(h1: Hook, h2: Hook, entity: Entity, event: string, stringify: Json -> string)
    requires h1.name == h2.name && h1.entityType == h2.entityType
    requires h1.target.action == "GET" && h2.target.action != "GET"
    ensures var p1, p2 := PayloadOf(BuildCall(h1, entity, event, stringify).body),
                          PayloadOf(BuildCall(h2, entity, event, stringify).body);
            p1.hook == p2.hook && p1.entityType == p2.entityType && p1.event == p2.event
            && p1.data == Serialized(stringify(p2.data.entity))
  {
  }

  /** `hook.retry_count || 0`. */
  function RetryCount(h: Hook): (n: int)
    ensures h.retryCount.None? ==> n == 0
    ensures h.retryCount.Some? ==> n == h.retryCount.value
  {
    match h.retryCount
    case None => 0
    case Some(v) => if v != 0 then v else 0
  }

  /** `hook.retry_delay || 1`: an absent or zero delay becomes one second. */
  function RetryDelay(h: Hook): (d: int)
    ensures d != 0
    ensures h.retryDelay.Some? && h.retryDelay.value != 0 ==> d == h.retryDelay.value
    ensures h.retryDelay.None? || h.retryDelay.value == 0 ==> d == 1
  {
    match h.retryDelay
    case None => 1
    case Some(v) => if v != 0 then v else 1
  }

  /** For a record the schema accepts, the retry settings are within the
      schema's ranges whether or not they were given. */
  lemma RetrySettingsInRange(h: Hook)
    requires SchemaAccepts(h)
    ensures 0 <= RetryCount(h) <= 20 && 1 <= RetryDelay(h) <= 60
  {
  }
}
