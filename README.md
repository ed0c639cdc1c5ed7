# Lifecycle hook engine of sis-api, modelled in Dafny

sis-api lets clients register *hooks*. A hook is a webhook definition tied to an
entity type and to a set of lifecycle events (`insert`, `update`, `delete`).
When an entity of that type goes through one of those events, every matching
hook's target URL is called. A call that fails is retried a fixed number of
times after a fixed delay.

This project models the engine in `util/hook-manager.js` and the decision logic
of its REST controller in `routes/hooks.js`:

- `values.dfy` (`Values`): optional values (`null`/`undefined`), plain JSON data
  and JavaScript truthiness of strings.
- `hook_model.dfy` (`HookModel`): a submitted definition (`HookDef`, every field
  optional) and a stored document (`Hook`). Also `validateHookObject`
  (`Validate`), checked against an independent table of nine rules in their
  order; the field-level merge of `hookDoc.set` (`Merge`); and the constraints
  the mongoose schema declares (`SchemaAccepts`), which the persistence layer
  enforces on save (`SaveRefusal`).
- `event_matcher.dfy` (`EventMatcher`): the query of `dispatchHooks`. The entity
  type must be equal and the event must belong to `events`.
- `request_builder.dfy` (`RequestBuilder`): the call options that `dispatchHook`
  builds, and the `|| 0` / `|| 1` defaults for the retry settings.
- `retrying_sender.dfy` (`RetryingSender`): `sendRequest`. `Resend` is its
  recursive form and `SendRequest` is its loop form, proved equal to `Resend`.
- `fan_out.dfy` (`FanOut`): `dispatchHook` and the `async.map` aggregation,
  which stops at the first truthy error.
- `hook_registry.dfy` (`HookRegistry`): pure specifications of add, update and
  delete over a `map<string, Hook>`, and the class `HookManager`. The class
  holds that map and the store's listing order, and its methods change them.
- `hook_routes.dfy` (`HookRoutes`): request parameters to `(filter, limit, skip)`,
  and callback answers to `(status, body)`. It ends with lemmas that state what
  a client of the `/api/v1/hooks` endpoints observes.

Things outside the program are arguments:
- The network is a function `(Call, nat) -> Outcome`. It gives the outcome of
  the k-th attempt of a call: a transport error, no response, or a status and
  a body.
- Each database call's own failure is an `Option<string>` (`Some(detail)` when
  the call failed).
- `JSON.parse`, `JSON.stringify` and `parseInt` are function arguments.
  `Common.MAX_RESULTS` is the argument `maxResults`.

Behaviour that the code has and a reader might not expect. The model follows
the code in each of these cases:
- `updateHook` on a valid definition whose name is not stored answers
  `(null, null)`, so the controller replies 201 with an empty body, not 404.
- A hook whose retries end on a status of 300 or more, or on a missing
  response, reports a `null` error. `async.map` therefore does not stop for it,
  and the default callback does not log it (`StatusFailuresGoUnreported`).
- Aggregation is fail-fast. At the first truthy error the callback receives that
  error, and the results do not report per-hook status for every hook.
- For a GET hook only the entity is JSON-stringified. The payload object itself
  goes under `qs.data`.
- `deleteHook` ignores the lookup's error, so a failed lookup is reported as
  "Hook does not exist.". The controller is meant to answer 404 to every delete
  error, including a failed removal.

Apart from what "## Left out" lists, the one place where the model does not
follow the code is the 404 path of the
`get` and `delete` handlers. As written, those paths throw before any reply is
sent. `GetAsWritten` and `DeleteAsWritten` model that behaviour, and "## Findings"
explains it. `GetReply` and `DeleteReply` model the intended 404, and the rest
of the model uses them.

## Model

| member | source | states |
|---|---|---|
| HookModel.Validate | util/hook-manager.js:80-109 | null exactly when the object and all eight required items are present; otherwise the message of the first rule violated, in the order object, name, owner, entity_type, target, target.url, target.action, events, non-empty events |
| HookModel.MessageIdentifiesRule | util/hook-manager.js:80-109 | the returned message is the i-th one exactly when rule i is the first violated, so the message identifies the failed check |
| HookModel.MessagesDistinct | util/hook-manager.js:82-106 | the nine validation messages are pairwise different |
| HookModel.ToHook | util/hook-manager.js:125 | the document built from a definition that passes validation has no empty required field |
| HookModel.ToDefRoundTrip | util/hook-manager.js:142 | a stored record's `toObject` view passes validation exactly when the record is well formed, and converts back to the same record |
| HookModel.ToHookRoundTrip | util/hook-manager.js:125 | a complete definition, stored and read back, is unchanged |
| HookModel.Merge | util/hook-manager.js:143 | every field the update supplies replaces the stored one, and every field it omits (only the retry fields can be omitted) is kept |
| HookModel.MergeIdempotent | util/hook-manager.js:143 | applying the same update twice equals applying it once |
| HookModel.MergeWithSnapshot | util/hook-manager.js:142-143 | merging a record with its own snapshot changes nothing |
| HookModel.MergeOfFullDefinition | util/hook-manager.js:143 | an update that supplies every field replaces the record entirely |
| HookModel.SaveRefusal | util/hook-manager.js:47-64 | a save succeeds exactly when the schema accepts the document (name pattern, action and event enums, retry ranges), the database call does not fail, and the name is not taken; a schema rejection is reported as such |
| EventMatcher.Matching | util/hook-manager.js:217-218 | a hook is selected exactly when it is stored, its entity_type equals the argument and its events contain the event |
| EventMatcher.MatchingAppend | util/hook-manager.js:217-218 | the selection distributes over concatenation, so it keeps the store's order |
| EventMatcher.MatchingAll | util/hook-manager.js:217-218 | when every hook matches, every hook is selected, in order |
| EventMatcher.MatchingCount | util/hook-manager.js:217-218 | a matching hook is selected as often as it is stored, and a non-matching one never (zero calls) |
| RequestBuilder.BuildCall | util/hook-manager.js:183-202 | uri is target.url and method is target.action; the payload carries the hook's name, its entity_type and the event; for GET it travels in `qs.data` with the entity JSON-stringified, otherwise as `json` with the plain entity |
| RequestBuilder.CallShapeFixedByHook | util/hook-manager.js:193-202 | destination, verb and encoding do not depend on the entity or the event |
| RequestBuilder.EncodingsCarrySameFields | util/hook-manager.js:187-201 | the GET and the body encodings carry the same hook, entity_type and event fields; only the entity's form differs |
| RequestBuilder.RetryCount | util/hook-manager.js:203 | `retry_count \|\| 0`: the stored count, or 0 when absent |
| RequestBuilder.RetryDelay | util/hook-manager.js:203 | `retry_delay \|\| 1`: the stored delay unless absent or 0, then 1; never 0 |
| RequestBuilder.RetrySettingsInRange | util/hook-manager.js:56-57 | for a document the schema accepts, the effective count is in [0,20] and the delay in [1,60] |
| RetryingSender.Resend | util/hook-manager.js:164-181 | the recursive form of sendRequest; every trace records one fewer delay than attempts (at least one attempt) |
| RetryingSender.ResendShape | util/hook-manager.js:164-181 | at most max(retry_count,0)+1 attempts; every attempt but the last fails; each retry asks for the same `delay * 1000` ms; success iff the last attempt has no error, has a response and has status < 300, and then the body is returned; a terminal failure happens only after max(retry_count,0)+1 attempts and carries the last attempt's `err`, null unless the transport failed |
| RetryingSender.DeliveredIffSomeAttemptSucceeds | util/hook-manager.js:166-174 | delivered exactly when some attempt within the budget succeeds; an endpoint that always fails sees exactly max(retry_count,0)+1 attempts and max(retry_count,0) delays |
| RetryingSender.FirstSuccessStops | util/hook-manager.js:176-178 | a successful first attempt is the only call and returns its body |
| RetryingSender.SendRequest | util/hook-manager.js:164-181 | the retry loop produces the same result, attempt count and delays as the recursive form, within the attempt bound and with a fixed delay |
| FanOut.Delivery | util/hook-manager.js:183-204 | what dispatchHook does for one hook: at most max(retry_count \|\| 0, 0)+1 attempts, each retry after `(retry_delay \|\| 1) * 1000` ms |
| FanOut.DispatchHook | util/hook-manager.js:183-204 | the call sent is exactly the one built from the hook, entity and event; its result, attempts and delays are those of the hook's delivery, with the defaulted retry settings |
| FanOut.Results | util/hook-manager.js:222-224 | one outcome per matched hook, in order: slot i is the delivery to hook i |
| FanOut.MapFailFast | util/hook-manager.js:222-224 | the `async.map` callback gets no more results than there were hooks, and at least one when there was any |
| FanOut.Collect | util/hook-manager.js:222-224 | `async.map` over the matched hooks, never more results than hooks |
| FanOut.MapAligned | util/hook-manager.js:222-224 | result i is the outcome of matched hook i: its body, or null after a terminal failure |
| FanOut.MapCompleteIffNoError | util/hook-manager.js:222-224 | the aggregate has no error exactly when no hook reports a truthy error, and then every hook has its slot |
| FanOut.MapFirstError | util/hook-manager.js:222-224 | on error, the aggregate's error is that of the first hook reporting one, and no later hook contributes |
| FanOut.DispatchAll | util/hook-manager.js:222-224 | the loop over the matched hooks computes the fail-fast aggregate |
| FanOut.StatusFailuresGoUnreported | util/hook-manager.js:166-169 | if the transport never errs outright, failures by status never stop the map, and the aggregate has no error and a slot per hook |
| FanOut.Finish | util/hook-manager.js:208-214 | without a callback the default one only logs, and only when there is an error; otherwise the caller's callback receives the aggregate |
| HookRegistry.Lookup | util/hook-manager.js:76-78 | `findOne({name})`: an error exactly when the database call fails; a record exactly when it does not fail and the name is stored, and then the stored record |
| HookRegistry.AddSpec | util/hook-manager.js:118-129 | on any error, no record and an unchanged collection; otherwise the saved record, whose name was not taken, added to the collection |
| HookRegistry.UpdateSpec | util/hook-manager.js:132-148 | on any error (invalid, failed lookup, refused save) and whenever no record comes back, the collection is unchanged; otherwise the returned previous record is the one stored under that name, and the returned record replaces it with the set of names unchanged |
| HookRegistry.DeleteSpec | util/hook-manager.js:151-162 | on any error, no record and an unchanged collection; otherwise the name was stored, its record is returned and only that name is removed |
| HookRegistry.AddPersistsIffValid | util/hook-manager.js:118-129 | an invalid definition is answered with its validation message and nothing is saved; a record is saved, equal to the definition, exactly when validation passes and the store accepts it; any error leaves the collection unchanged |
| HookRegistry.UpdateInvalidOrUnknown | util/hook-manager.js:133-141 | an invalid update reports its message; a valid update for an unknown name answers with no error and no record; neither changes the collection |
| HookRegistry.UpdateSnapshot | util/hook-manager.js:142-146 | a successful update returns the exact prior record as snapshot, stores the merge over it under the same name, and leaves every other hook unchanged |
| HookRegistry.DeleteSpecCases | util/hook-manager.js:151-162 | deleting an unknown name reports "Hook does not exist." and changes nothing; deleting a known name, when the removal succeeds, removes exactly that record and returns it |
| HookRegistry.UpdateReportsStoreFaults | util/hook-manager.js:138-146 | for a valid update, a failed lookup is handed back as the error with no record and no change; for a stored name, the snapshot is the stored record, and the update succeeds exactly when the store accepts the merge, otherwise the store's refusal is the error |
| HookRegistry.DeleteReportsRemoveFault | util/hook-manager.js:156-157 | a failed removal of a stored hook is reported as the store's error, with no record and no change |
| HookRegistry.DeleteFailedLookupIsMissing | util/hook-manager.js:152-154 | when the lookup itself fails, delete reports "Hook does not exist." and changes nothing, whatever the removal would do |
| HookRegistry.DeleteThenLookup | util/hook-manager.js:151-162 | after a successful delete, looking the name up finds nothing |
| HookRegistry.OperationsPreserveConsistency | util/hook-manager.js:118-162 | add, update and delete never store a document without its required fields, outside the schema, or under another name than its own |
| HookRegistry.Without | util/hook-manager.js:156 | removing a name from the listing order keeps exactly the other names and no duplicates; an order without that name is unchanged |
| HookRegistry.WithoutAppend | util/hook-manager.js:156 | removal works piece by piece over a concatenation, so the remaining names keep their relative order |
| HookRegistry.WithoutSingle | util/hook-manager.js:156 | a one-name order loses its name exactly when it is the removed one |
| HookRegistry.Listing | util/hook-manager.js:218 | the stored documents in the collection's order |
| HookRegistry.ListingHoldsStore | util/hook-manager.js:218 | the listing holds exactly the stored documents |
| HookRegistry.DispatchSelectsMatching | util/hook-manager.js:217-218 | dispatchHooks selects exactly the stored hooks with that entity_type and that event |
| HookRegistry.HookManager.constructor | util/hook-manager.js:44-67 | an empty, consistent collection |
| HookRegistry.HookManager.GetByName | util/hook-manager.js:76-78 | a record exactly when the lookup does not fail and the name is stored, and then the stored record |
| HookRegistry.HookManager.All | util/hook-manager.js:218 | the documents `find` walks through hold exactly the stored documents |
| HookRegistry.HookManager.AddHook | util/hook-manager.js:118-129 | answers and changes the collection as AddPersistsIffValid describes, appends the new name to the order, and keeps the collection consistent |
| HookRegistry.HookManager.UpdateHook | util/hook-manager.js:132-148 | answers `(err, result, oldHook)` and changes the collection as UpdateSnapshot and UpdateInvalidOrUnknown describe; the order is unchanged |
| HookRegistry.HookManager.DeleteHook | util/hook-manager.js:151-162 | answers and changes the collection as DeleteSpecCases describes, and removes the name from the order |
| HookRegistry.HookManager.DispatchHooks | util/hook-manager.js:207-227 | a store error goes straight to the callback; otherwise the matching hooks, in store order, are dispatched up to the first truthy error and aggregated; the default callback is used when none is given |
| HookRoutes.IntOr | routes/hooks.js:36-37 | `parseInt(x) \|\| d`: the parsed integer unless absent, not a number, or 0, then d |
| HookRoutes.ListingQuery | routes/hooks.js:28-37 | the filter is the parsed `q` when it parses, otherwise `{}`; the limit is the parsed integer, or MAX_RESULTS when it is absent, not a number or 0; the offset the same with 0 |
| HookRoutes.LimitNeverZero | routes/hooks.js:36 | the limit handed to the store is never 0 when MAX_RESULTS is not |
| HookRoutes.GetAllReply | routes/hooks.js:38-40 | always 200 with the results, whatever the store's error |
| HookRoutes.GetReply | routes/hooks.js:45-51 | the intended reply: 404 exactly on an error or a missing record, otherwise 200 with the record |
| HookRoutes.DeleteReply | routes/hooks.js:56-62 | the intended reply: 404 exactly on an error, otherwise 200 with `true` |
| HookRoutes.GetAsWritten | routes/hooks.js:45-51 | as written: throws a ReferenceError and sends no reply exactly on an error or a missing record, otherwise replies 200 with the record |
| HookRoutes.DeleteAsWritten | routes/hooks.js:56-62 | as written: throws a ReferenceError and sends no reply exactly on an error, otherwise replies 200 with `true` |
| HookRoutes.AsWrittenThrowsInsteadOf404 | routes/hooks.js:45-62 | the code as written agrees with the intended replies on every success, and throws exactly where a 404 is intended |
| HookRoutes.UnknownNameThrows | routes/hooks.js:43-63 | for a name that is not stored, get and delete are meant to be answered 404, and the code as written throws instead |
| HookRoutes.AddReply | routes/hooks.js:66-72 | 400 with "Unable to save hook: " followed by the error exactly on an error, otherwise 201 with the saved record |
| HookRoutes.UpdateReply | routes/hooks.js:76-82 | 400 with "Unable to update hook: " followed by the error exactly on an error, otherwise 201 with whatever record came back |
| HookRoutes.AddInvalidReplies400 | routes/hooks.js:66-72 | posting an invalid definition is answered 400 with "Unable to save hook: " plus the validation message, and nothing is stored |
| HookRoutes.UpdateUnknownReplies201 | routes/hooks.js:76-80 | putting a valid definition for an unknown name is answered 201 with an empty body |
| HookRoutes.UpdateKnownReplies201 | routes/hooks.js:76-80 | a successful update is answered 201 with the merged record |
| HookRoutes.DeleteThenGet | routes/hooks.js:54-63 | with the intended replies: deleting an unknown name is answered 404; deleting a known one is answered 200, and a later get of the name is answered 404 |

## Left out

- Real HTTP and timers. The `request` library is replaced by the transport argument. `setTimeout` is recorded as the delay it is asked for; nothing waits.
- FanOut.DispatchAll: visits the hooks one after the other. In sis-api they run concurrently, and the error that stops `async.map` is the first to arrive in time, not the first in hook order. In the code, slots of hooks still running at that moment stay unfilled. `async.map` starts every matched hook's request before any callback runs, so in sis-api every matched hook is called whatever the others do; in the model the hooks after the first one reporting a truthy error are never called.
- RequestBuilder.BuildCall, FanOut.DispatchHook and HookRegistry.HookManager.DispatchHooks: a `null` or `undefined` entity is taken as plain data and sent. In sis-api, `entity['toObject']` at util/hook-manager.js:184 throws a TypeError for it as soon as one hook matches, and no hook is called.
- HookRoutes.GetReply, HookRoutes.DeleteReply and HookRoutes.DeleteThenGet: these state the intended 404. The code as written throws a ReferenceError on these paths instead and sends no reply. `GetAsWritten` and `DeleteAsWritten` model that, and "## Findings" describes it.
- The database. The query execution of `getAll` (condition, `limit`, `skip`) at util/hook-manager.js:71-73 belongs to it; only the controller's reading of the parameters is modelled. Schema registration (`init`, `getEntityModel`) is reduced to the `SchemaAccepts` predicate.
- Mongoose's defaults for `retry_count` and `retry_delay`, its type casting, and deep `set`/`toObject` semantics beyond the field-level merge. An explicit `null` in an update cannot be told apart from an absent field.
- Value types. Fields are strings, integers and lists of strings. A non-string name, a truthy `events` that is not an array, and a fractional or `NaN` retry setting are not modelled.
- The store's listing order is the order in which documents were saved. An update keeps the document's place.
- `JSON.parse`, `JSON.stringify`, `parseInt` and `Common.MAX_RESULTS`: they are arguments, not definitions.
- The read-modify-write race of `updateHook`: it only shows under concurrent updates.
- `historyManager`: it is created but never called in this code.
- The text of the default callback's `console.log`. Only whether it logs is modelled.
- `Common.sendError`, `Common.sendObject` and `attachController` are not part of this model. The text of the intended 404 messages is not modelled either, because it cannot be computed as written (see "## Findings").
- routes/info.js and the token, hiera and read-only API tests: they contain no hook logic.

## Findings

| source | as written | input that shows it | evidently intended | confidence | as-written member | corrected member |
|---|---|---|---|---|---|---|
| routes/hooks.js:45-47 | the 404 message concatenates `name`, and no enclosing scope declares it (the parameter is read into `hookName`, line 44). Evaluating it throws a ReferenceError inside the `getByName` callback, so no reply is sent | `GET /api/v1/hooks/x` where no hook `x` is stored (`UnknownNameThrows`) | reply 404 "Hook with name x not found." | high; not executed | HookRoutes.GetAsWritten | HookRoutes.GetReply |
| routes/hooks.js:56-58 | the same undeclared `name` in the delete error message (the parameter is `hookName`, line 55). Every delete error throws, including "Hook does not exist." and a failed removal | `DELETE /api/v1/hooks/x` where no hook `x` is stored (`UnknownNameThrows`) | reply 404 "Unable to delete hook with name x : " followed by the error | high; not executed | HookRoutes.DeleteAsWritten | HookRoutes.DeleteReply |
