/** The hook record, as submitted (`HookDef`) and as stored (`Hook`), the
    required-field validation of util/hook-manager.js, the field-level merge
    an update applies, and the schema constraints the persistence layer
    enforces on save. */
module HookModel {
  import opened Values

  /** The `target` object of a submitted definition. */
  datatype TargetDef = TargetDef(url: Option<string>, action: Option<string>)

  /** A hook definition as it arrives in a request body: every field may be
      missing. */
  datatype HookDef = HookDef(
    name: Option<string>,
    owner: Option<string>,
    entityType: Option<string>,
    target: Option<TargetDef>,
    events: Option<seq<string>>,
    retryCount: Option<int>,
    retryDelay: Option<int>)

  /** The `target` of a stored hook. */
  datatype Target = Target(url: string, action: string)

  /** A stored hook document. The retry fields may be absent: the
      persistence layer's defaults are not part of this model. */
  datatype Hook = Hook(
    name: string,
    owner: string,
    entityType: string,
    target: Target,
    events: seq<string>,
    retryCount: Option<int>,
    retryDelay: Option<int>)

  /** Why the persistence layer refused to write a document. */
  datatype StoreReason =
    | SchemaViolation     // the mongoose schema rejected the document
    | DuplicateName       // the unique index on `name` rejected it
    | Io(detail: string)  // the database call itself failed

  /** The error value handed to a callback. */
  datatype Error =
    | Invalid(message: string)   // a message of validateHookObject
    | Missing                    // deleteHook's "Hook does not exist."
    | Store(reason: StoreReason) // an error object from the persistence layer

  /** The messages of validateHookObject, in the order its checks run. */
  const Messages: seq<string> := [
    "No model defined.",
    "Hook has no name.",
    "Hook has no owner.",
    "Hook has no entity_type.",
    "Hook has no target.",
    "Hook target has no url.",
    "Hook target has no action.",
    "Hook has no on parameter.",
    "Hook on parameter has no values."
  ]

  const MissingMessage: string := "Hook does not exist."

  /** The string a callback's error turns into when concatenated; `None`
      for the persistence layer's error objects, whose text is theirs. */
  function ErrorText(e: Error): Option<string> {
    match e
    case Invalid(m) => Some(m)
    case Missing => Some(MissingMessage)
    case Store(_) => None
  }

  /** Rule `i` of the validation table: does `d` satisfy the `i`-th
      requirement? Rules are stated independently; only the first one
      violated is reported. */
  predicate Passes(d: Option<HookDef>, i: nat) {
    d.Some? &&
    var h := d.value;
    if i == 0 then true
    else if i == 1 then Truthy(h.name)
    else if i == 2 then Truthy(h.owner)
    else if i == 3 then Truthy(h.entityType)
    else if i == 4 then h.target.Some?
    else if i == 5 then h.target.Some? && Truthy(h.target.value.url)
    else if i == 6 then h.target.Some? && Truthy(h.target.value.action)
    else if i == 7 then h.events.Some?
    else h.events.Some? && |h.events.value| > 0
  }

  /** Rule `i` is the first one `d` violates. */
  predicate FailsFirstAt(d: Option<HookDef>, i: nat) {
    !Passes(d, i) && forall j :: 0 <= j < i ==> Passes(d, j)
  }

  /** Every required field of a definition is present and truthy. */
  predicate Complete(d: HookDef) {
    && Truthy(d.name) && Truthy(d.owner) && Truthy(d.entityType)
    && d.target.Some? && Truthy(d.target.value.url) && Truthy(d.target.value.action)
    && d.events.Some? && |d.events.value| > 0
  }

  /** validateHookObject: the message of the first missing item, or `None`
      when the definition has every required field. */
  function Validate(d: Option<HookDef>): (r: Option<string>)
    ensures r.None? <==> d.Some? && Complete(d.value)
    ensures r.None? <==> forall i :: 0 <= i < |Messages| ==> Passes(d, i)
    ensures forall i :: 0 <= i < |Messages| && FailsFirstAt(d, i) ==> r == Some(Messages[i])
    ensures r.Some? ==> exists i :: 0 <= i < |Messages| && FailsFirstAt(d, i) && r.value == Messages[i]
  {
    if d.None? then
      assert !Passes(d, 0);
      Some(Messages[0])
    else if !Truthy(d.value.name) then
      assert !Passes(d, 1) && Passes(d, 0);
      Some(Messages[1])
    else if !Truthy(d.value.owner) then
      assert !Passes(d, 2) && Passes(d, 1);
      Some(Messages[2])
    else if !Truthy(d.value.entityType) then
      assert !Passes(d, 3) && Passes(d, 2);
      Some(Messages[3])
    else if d.value.target.None? then
      assert !Passes(d, 4) && Passes(d, 3);
      Some(Messages[4])
    else if !Truthy(d.value.target.value.url) then
      assert !Passes(d, 5) && Passes(d, 4);
      Some(Messages[5])
    else if !Truthy(d.value.target.value.action) then
      assert !Passes(d, 6) && Passes(d, 5);
      Some(Messages[6])
    else if d.value.events.None? then
      assert !Passes(d, 7) && Passes(d, 6);
      Some(Messages[7])
    else if |d.value.events.value| == 0 then
      assert !Passes(d, 8) && Passes(d, 7);
      Some(Messages[8])
    else None
  }

  /** No two checks share a message, so the message names the rule that
      failed. */
  lemma MessagesDistinct()
    ensures forall i, j :: 0 <= i < j < |Messages| ==> Messages[i] != Messages[j]
  {
  }

  /** The error message identifies the first rule violated, and only that. */
  lemma MessageIdentifiesRule(d: Option<HookDef>, i: nat)
    requires i < |Messages|
    ensures Validate(d) == Some(Messages[i]) <==> FailsFirstAt(d, i)
  {
    MessagesDistinct();
  }

  /** A stored record has no empty required field. */
  predicate WellFormed(h: Hook) {
    && h.name != "" && h.owner != "" && h.entityType != ""
    && h.target.url != "" && h.target.action != ""
    && |h.events| > 0
  }

  /** The document built from a complete definition (`new SisHookModel(modelObj)`). */
  function ToHook(d: HookDef): (h: Hook)
    requires Complete(d)
    ensures WellFormed(h)
  {
    Hook(d.name.value, d.owner.value, d.entityType.value,
         Target(d.target.value.url.value, d.target.value.action.value),
         d.events.value, d.retryCount, d.retryDelay)
  }

  /** A stored record viewed as a definition (`hookDoc.toObject()`). */
  function ToDef(h: Hook): HookDef {
    HookDef(Some(h.name), Some(h.owner), Some(h.entityType),
            Some(TargetDef(Some(h.target.url), Some(h.target.action))),
            Some(h.events), h.retryCount, h.retryDelay)
  }

  /** A stored record passes validation exactly when it is well formed,
      and converting it back yields the same record. */
  lemma ToDefRoundTrip(h: Hook)
    ensures Validate(Some(ToDef(h))).None? <==> WellFormed(h)
    ensures WellFormed(h) ==> ToHook(ToDef(h)) == h
  {
  }

  /** A complete definition survives storing and reading back unchanged. */
  lemma ToHookRoundTrip(d: HookDef)
    requires Complete(d)
    ensures ToDef(ToHook(d)) == d
  {
  }

  /** `hookDoc.set(sisHook)`: every field supplied by the update replaces the
      stored one, every field it omits is kept. Validation guarantees that
      the required fields are all supplied, so only the retry fields can be
      kept. */
  function Merge(h: Hook, u: HookDef): (r: Hook)
    requires Complete(u)
    ensures WellFormed(r)
    ensures Some(r.name) == u.name && Some(r.owner) == u.owner && Some(r.entityType) == u.entityType
    ensures Some(TargetDef(Some(r.target.url), Some(r.target.action))) == u.target
    ensures Some(r.events) == u.events
    ensures r.retryCount == if u.retryCount.Some? then u.retryCount else h.retryCount
    ensures r.retryDelay == if u.retryDelay.Some? then u.retryDelay else h.retryDelay
  {
    Hook(u.name.value, u.owner.value, u.entityType.value,
         Target(u.target.value.url.value, u.target.value.action.value),
         u.events.value,
         if u.retryCount.Some? then u.retryCount else h.retryCount,
         if u.retryDelay.Some? then u.retryDelay else h.retryDelay)
  }

  /** Applying the same update twice is the same as applying it once. */
  lemma MergeIdempotent(h: Hook, u: HookDef)
    requires Complete(u)
    ensures Merge(Merge(h, u), u) == Merge(h, u)
  {
  }

  /** Updating a record with its own snapshot changes nothing. */
  lemma MergeWithSnapshot(h: Hook)
    requires WellFormed(h)
    ensures Complete(ToDef(h)) && Merge(h, ToDef(h)) == h
  {
  }

  /** A merge over a full definition is that definition: the old record
      only shows through in the fields the update leaves out. */
  lemma MergeOfFullDefinition(h: Hook, u: HookDef)
    requires Complete(u) && u.retryCount.Some? && u.retryDelay.Some?
    ensures Merge(h, u) == ToHook(u)
  {
  }

  // ---- constraints the mongoose schema declares (enforced on save) ----

  predicate NameChar(c: char) {
    ('a' <= c <= 'z') || ('0' <= c <= '9') || c == '_'
  }

  /** `name` matches `^[a-z0-9_]+$`. */
  predicate NameSyntax(s: string) {
    |s| > 0 && forall i :: 0 <= i < |s| ==> NameChar(s[i])
  }

  const Actions: set<string> := {"GET", "POST", "PUT"}
  const Events: set<string> := {"insert", "update", "delete"}

  /** The schema's own checks: name syntax, the action and event enums and
      the ranges of the retry fields. */
  predicate SchemaAccepts(h: Hook) {
    && NameSyntax(h.name)
    && h.target.action in Actions
    && (forall i :: 0 <= i < |h.events| ==> h.events[i] in Events)
    && (h.retryCount.Some? ==> 0 <= h.retryCount.value <= 20)
    && (h.retryDelay.Some? ==> 1 <= h.retryDelay.value <= 60)
  }

  /** What the persistence layer does with a `save`: the schema validates
      first, then the write may fail on I/O, then the unique index refuses a
      name that another document already has. */
  function SaveRefusal(h: Hook, nameTaken: bool, ioFault: Option<string>): (r: Option<StoreReason>)
    ensures r.None? <==> SchemaAccepts(h) && ioFault.None? && !nameTaken
    ensures r == Some(SchemaViolation) <==> !SchemaAccepts(h)
  {
    if !SchemaAccepts(h) then Some(SchemaViolation)
    else if ioFault.Some? then Some(Io(ioFault.value))
    else if nameTaken then Some(DuplicateName)
    else None
  }
}
