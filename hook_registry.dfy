/** The hook collection of util/hook-manager.js: adding, updating, deleting
    and looking up hooks by name, and dispatching an entity event to the
    hooks that match it. Each database call's own failure is an oracle
    argument (`Some(detail)` when the call failed); what the schema and the
    unique index refuse is computed by SaveRefusal. */
module HookRegistry {
  import opened Values
  import opened HookModel
  import opened EventMatcher
  import opened RequestBuilder
  import opened RetryingSender
  import opened FanOut

  /** The `(err, result)` pair handed to a callback. */
  datatype Answer = Answer(err: Option<Error>, doc: Option<Hook>)

  /** updateHook's `(err, result, oldHook)`. */
  datatype UpdateAnswer = UpdateAnswer(err: Option<Error>, doc: Option<Hook>, previous: Option<Hook>)

  /** The answer of an operation and the collection it leaves behind. */
  datatype Effect<A> = Effect(answer: A, after: map<string, Hook>)

  /** Every stored document is filed under its own name, has all its
      required fields and satisfies the schema. */
  predicate Consistent(m: map<string, Hook>) {
    forall n :: n in m ==> m[n].name == n && WellFormed(m[n]) && SchemaAccepts(m[n])
  }

  /** `findOne({name})`. */
  function Lookup(m: map<string, Hook>, name: string, findFault: Option<string>): (a: Answer)
    ensures a.err.Some? <==> findFault.Some?
    ensures a.doc.Some? <==> findFault.None? && name in m
    ensures a.doc.Some? ==> a.doc.value == m[name]
  {
    if findFault.Some? then Answer(Some(Store(Io(findFault.value))), None)
    else if name in m then Answer(None, Some(m[name]))
    else Answer(None, None)
  }

  /** addHook: validate, then save a new document. */
  function AddSpec(m: map<string, Hook>, def: Option<HookDef>, saveFault: Option<string>): (e: Effect<Answer>)
    ensures e.answer.err.Some? ==> e.answer.doc.None? && e.after == m
    ensures e.answer.err.None? ==>
      && e.answer.doc.Some? && e.answer.doc.value.name !in m
      && e.after == m[e.answer.doc.value.name := e.answer.doc.value]
  {
    match Validate(def)
    case Some(msg) => Effect(Answer(Some(Invalid(msg)), None), m)
    case None =>
      var h := ToHook(def.value);
      match SaveRefusal(h, h.name in m, saveFault)
      case Some(reason) => Effect(Answer(Some(Store(reason)), None), m)
      case None => Effect(Answer(None, Some(h)), m[h.name := h])
  }

  /** updateHook: validate, look the hook up by name, merge and save. */
  function UpdateSpec(m: map<string, Hook>, def: Option<HookDef>, findFault: Option<string>,
                      saveFault: Option<string>): (e: Effect<UpdateAnswer>)
    ensures e.answer.err.Some? ==> e.answer.doc.None? && e.after == m
    ensures e.answer.doc.None? ==> e.after == m
    ensures e.answer.doc.Some? ==>
      && e.answer.err.None? && e.answer.previous.Some?
      && e.answer.doc.value.name in m && e.answer.previous == Some(m[e.answer.doc.value.name])
      && m.Keys == e.after.Keys
      && e.after == m[e.answer.doc.value.name := e.answer.doc.value]
  {
    match Validate(def)
    case Some(msg) => Effect(UpdateAnswer(Some(Invalid(msg)), None, None), m)
    case None =>
      var u := def.value;
      var found := Lookup(m, u.name.value, findFault);
      if found.doc.None? then Effect(UpdateAnswer(found.err, None, None), m)
      else
        var snapshot := found.doc.value;
        var merged := Merge(snapshot, u);
        match SaveRefusal(merged, false, saveFault)
        case Some(reason) => Effect(UpdateAnswer(Some(Store(reason)), None, Some(snapshot)), m)
        case None => Effect(UpdateAnswer(None, Some(merged), Some(snapshot)), m[merged.name := merged])
  }

  /** deleteHook: a failed or empty lookup is reported as a missing hook. */
  function DeleteSpec(m: map<string, Hook>, name: string, findFault: Option<string>,
                      removeFault: Option<string>): (e: Effect<Answer>)
    ensures e.answer.err.Some? ==> e.answer.doc.None? && e.after == m
    ensures e.answer.err.None? ==>
      name in m && e.answer.doc == Some(m[name]) && e.after == m - {name}
  {
    var found := Lookup(m, name, findFault);
    if found.doc.None? then Effect(Answer(Some(Missing), None), m)
    else if removeFault.Some? then Effect(Answer(Some(Store(Io(removeFault.value))), None), m)
    else Effect(Answer(None, found.doc), m - {name})
  }

  // ---- HookRegistry properties ----

  /** addHook reports the first validation message and saves nothing when a
      field is missing; when the definition is complete it saves exactly the
      definition, unless the persistence layer refuses it, in which case
      nothing is saved either. */
  lemma AddPersistsIffValid(m: map<string, Hook>, def: Option<HookDef>, saveFault: Option<string>)
    ensures var e := AddSpec(m, def, saveFault);
      && (Validate(def).Some? ==> e == Effect(Answer(Some(Invalid(Validate(def).value)), None), m))
      && (e.answer.err.None? <==>
            Validate(def).None? && SaveRefusal(ToHook(def.value), def.value.name.value in m, saveFault).None?)
      && (e.answer.err.None? ==>
            var h := ToHook(def.value);
            h.name !in m && e.answer.doc == Some(h) && e.after == m[h.name := h])
      && (e.answer.err.Some? ==> e.answer.doc.None? && e.after == m)
  {
  }

  /** An invalid update reports its message; a valid one for a name that is
      not stored answers with neither error nor record. Neither changes the
      collection. */
  lemma UpdateInvalidOrUnknown(m: map<string, Hook>, def: Option<HookDef>, saveFault: Option<string>)
    requires Validate(def).Some? || def.value.name.value !in m
    ensures var e := UpdateSpec(m, def, None, saveFault);
      && e.after == m
      && (Validate(def).Some? ==> e.answer == UpdateAnswer(Some(Invalid(Validate(def).value)), None, None))
      && (Validate(def).None? ==> e.answer == UpdateAnswer(None, None, None))
  {
  }

  /** A successful update returns the exact record before the call, stores
      the merge of the update over it, and leaves every other hook as it
      was. */
  lemma UpdateSnapshot(m: map<string, Hook>, def: Option<HookDef>, findFault: Option<string>,
                       saveFault: Option<string>)
    ensures var e := UpdateSpec(m, def, findFault, saveFault);
      e.answer.err.None? && e.answer.doc.Some? ==>
        var name := def.value.name.value;
        && Validate(def).None? && name in m
        && e.answer.previous == Some(m[name])
        && e.answer.doc == Some(Merge(m[name], def.value))
        && e.answer.doc.value.name == name
        && e.after.Keys == m.Keys
        && e.after[name] == Merge(m[name], def.value)
        && (forall n :: n in m && n != name ==> e.after[n] == m[n])
  {
  }

  /** A valid update reports every failed database call: a failed lookup
      comes back as `(err, undefined)`, and a found record is saved exactly
      when the store accepts its merge, the snapshot coming back either way. */
  lemma UpdateReportsStoreFaults(m: map<string, Hook>, def: Option<HookDef>, findFault: Option<string>,
                                 saveFault: Option<string>)
    requires Validate(def).None?
    ensures var e := UpdateSpec(m, def, findFault, saveFault);
      findFault.Some? ==> e == Effect(UpdateAnswer(Some(Store(Io(findFault.value))), None, None), m)
    ensures var e := UpdateSpec(m, def, findFault, saveFault);
      var name := def.value.name.value;
      findFault.None? && name in m ==>
        && e.answer.previous == Some(m[name])
        && (e.answer.err.None? <==> SaveRefusal(Merge(m[name], def.value), false, saveFault).None?)
        && (e.answer.err.Some? ==> e.answer.err == Some(Store(SaveRefusal(Merge(m[name], def.value), false, saveFault).value)))
  {
  }

  /** A failed removal of a stored hook is reported, and nothing is removed. */
  lemma DeleteReportsRemoveFault(m: map<string, Hook>, name: string, f: string)
    requires name in m
    ensures DeleteSpec(m, name, None, Some(f)) == Effect(Answer(Some(Store(Io(f))), None), m)
  {
  }

  /** deleteHook ignores the lookup's error: a failed lookup is reported as
      a missing hook, and nothing is removed. */
  lemma DeleteFailedLookupIsMissing(m: map<string, Hook>, name: string, f: string, r: Option<string>)
    ensures DeleteSpec(m, name, Some(f), r) == Effect(Answer(Some(Missing), None), m)
    ensures ErrorText(DeleteSpec(m, name, Some(f), r).answer.err.value) == Some("Hook does not exist.")
  {
  }

  /** Deleting an unknown name reports "Hook does not exist." and changes
      nothing; deleting a known name removes exactly that record and
      returns it. */
  lemma DeleteSpecCases(m: map<string, Hook>, name: string, removeFault: Option<string>)
    ensures var e := DeleteSpec(m, name, None, removeFault);
      && (name !in m ==> e == Effect(Answer(Some(Missing), None), m))
      && (name in m && removeFault.None? ==>
            && e.answer == Answer(None, Some(m[name]))
            && e.after.Keys == m.Keys - {name}
            && (forall n :: n in e.after ==> e.after[n] == m[n]))
  {
  }

  /** Once a hook is deleted, looking it up finds nothing. */
  lemma DeleteThenLookup(m: map<string, Hook>, name: string, findFault: Option<string>)
    requires DeleteSpec(m, name, findFault, None).answer.err.None?
    ensures Lookup(DeleteSpec(m, name, findFault, None).after, name, None) == Answer(None, None)
  {
  }

  /** No operation breaks the collection's consistency: a document is
      never stored without all its required fields and a valid schema, and
      never under another name than its own. */
  lemma OperationsPreserveConsistency(m: map<string, Hook>, def: Option<HookDef>, name: string,
                                      f1: Option<string>, f2: Option<string>)
    requires Consistent(m)
    ensures Consistent(AddSpec(m, def, f1).after)
    ensures Consistent(UpdateSpec(m, def, f1, f2).after)
    ensures Consistent(DeleteSpec(m, name, f1, f2).after)
  {
    var e := UpdateSpec(m, def, f1, f2);
    if e.answer.doc.Some? {
      var n := def.value.name.value;
      assert e.after == m[n := Merge(m[n], def.value)];
    }
  }

  // ---- collection order ----

  /** No name occurs twice. */
  predicate Distinct(ns: seq<string>) {
    forall i, j :: 0 <= i < j < |ns| ==> ns[i] != ns[j]
  }

  /** `ns` without `x`, order kept. */
  function Without(ns: seq<string>, x: string): (r: seq<string>)
    ensures forall y :: y in r <==> y in ns && y != x
    ensures Distinct(ns) ==> Distinct(r)
    ensures x !in ns ==> r == ns
  {
    if ns == [] then []
    else if ns[0] == x then Without(ns[1..], x)
    else
      var rest := Without(ns[1..], x);
      assert Distinct(ns) ==> ns[0] !in ns[1..];
      assert forall i :: 0 < i < |[ns[0]] + rest| ==> ([ns[0]] + rest)[i] == rest[i - 1];
      [ns[0]] + rest
  }

  /** Removing a name works piecewise, so every other name keeps its
      position relative to the rest: the order is preserved. */
  lemma {:induction false} WithoutAppend(a: seq<string>, b: seq<string>, x: string)
    ensures Without(a + b, x) == Without(a, x) + Without(b, x)
  {
    if a != [] {
      var ab := a + b;
      assert ab[0] == a[0] && ab[1..] == a[1..] + b;
      WithoutAppend(a[1..], b, x);
      if a[0] == x {
        assert Without(ab, x) == Without(a[1..] + b, x);
      } else {
        assert Without(ab, x) == [a[0]] + Without(a[1..] + b, x);
        assert Without(a, x) == [a[0]] + Without(a[1..], x);
      }
    } else {
      assert a + b == b;
    }
  }

  /** Removing a name from a one-name order keeps it unless it is that name. */
  lemma WithoutSingle(y: string, x: string)
    ensures Without([y], x) == if y == x then [] else [y]
  {
    assert [y][1..] == [];
  }

  /** The stored documents in the collection's order. */
  function Listing(ns: seq<string>, m: map<string, Hook>): (r: seq<Hook>)
    requires forall i :: 0 <= i < |ns| ==> ns[i] in m
    ensures |r| == |ns| && forall i :: 0 <= i < |ns| ==> r[i] == m[ns[i]]
  {
    seq(|ns|, i requires 0 <= i < |ns| => m[ns[i]])
  }

  /** When the order lists exactly the stored names, the listing holds
      exactly the stored documents. */
  lemma ListingHoldsStore(ns: seq<string>, m: map<string, Hook>)
    requires forall n :: n in ns <==> n in m
    ensures forall h :: h in Listing(ns, m) <==> h in m.Values
  {
    var l := Listing(ns, m);
    forall h | h in m.Values
      ensures h in l
    {
      var n :| n in m && m[n] == h;
      var i :| 0 <= i < |ns| && ns[i] == n;
      assert l[i] == h;
    }
  }

  /** dispatchHooks fires exactly the stored hooks whose entity type is the
      event's and whose events contain it. */
  lemma DispatchSelectsMatching(ns: seq<string>, m: map<string, Hook>, entityType: string, event: string)
    requires forall n :: n in ns <==> n in m
    ensures forall h :: h in Matching(Listing(ns, m), entityType, event) <==>
                        h in m.Values && Matches(h, entityType, event)
  {
    ListingHoldsStore(ns, m);
  }

  /** The hook collection. `names` is the order in which the store lists
      its documents: the order they were saved in. */
  class HookManager {
    var hooks: map<string, Hook>
    var names: seq<string>

    ghost predicate Valid()
      reads this
    {
      && (forall n :: n in names <==> n in hooks)
      && Distinct(names)
      && Consistent(hooks)
    }

    constructor ()
      ensures Valid() && hooks == map[] && names == []
    {
      hooks := map[];
      names := [];
    }

    /** getByName. */
    function GetByName(name: string, findFault: Option<string>): (a: Answer)
      reads this
      ensures a.err.Some? <==> findFault.Some?
      ensures a.doc.Some? <==> findFault.None? && name in hooks
      ensures a.doc.Some? ==> a.doc.value == hooks[name]
    {
      Lookup(hooks, name, findFault)
    }

    /** addHook. */
    method AddHook(def: Option<HookDef>, saveFault: Option<string>) returns (err: Option<Error>, doc: Option<Hook>)
      requires Valid()
      modifies this
      ensures Valid()
      ensures var e := AddSpec(old(hooks), def, saveFault);
              Answer(err, doc) == e.answer && hooks == e.after
      ensures names == if doc.Some? then old(names) + [doc.value.name] else old(names)
    {
      var msg := Validate(def);
      if msg.Some? {
        return Some(Invalid(msg.value)), None;
      }
      var entity := ToHook(def.value);
      var refusal := SaveRefusal(entity, entity.name in hooks, saveFault);
      if refusal.Some? {
        return Some(Store(refusal.value)), None;
      }
      hooks := hooks[entity.name := entity];
      names := names + [entity.name];
      return None, Some(entity);
    }

    /** updateHook. */
    method UpdateHook(def: Option<HookDef>, findFault: Option<string>, saveFault: Option<string>)
      returns (err: Option<Error>, doc: Option<Hook>, snapshot: Option<Hook>)
      requires Valid()
      modifies this
      ensures Valid()
      ensures var e := UpdateSpec(old(hooks), def, findFault, saveFault);
              UpdateAnswer(err, doc, snapshot) == e.answer && hooks == e.after
      ensures names == old(names)
    {
      var msg := Validate(def);
      if msg.Some? {
        return Some(Invalid(msg.value)), None, None;
      }
      var found := GetByName(def.value.name.value, findFault);
      if found.err.Some? || found.doc.None? {
        return found.err, found.doc, None;
      }
      var hookDoc := found.doc.value;
      var merged := Merge(hookDoc, def.value);
      var refusal := SaveRefusal(merged, false, saveFault);
      if refusal.Some? {
        return Some(Store(refusal.value)), None, Some(hookDoc);
      }
      hooks := hooks[merged.name := merged];
      return None, Some(merged), Some(hookDoc);
    }

    /** deleteHook. */
    method DeleteHook(name: string, findFault: Option<string>, removeFault: Option<string>)
      returns (err: Option<Error>, doc: Option<Hook>)
      requires Valid()
      modifies this
      ensures Valid()
      ensures var e := DeleteSpec(old(hooks), name, findFault, removeFault);
              Answer(err, doc) == e.answer && hooks == e.after
      ensures names == if doc.Some? then Without(old(names), name) else old(names)
    {
      var found := GetByName(name, findFault);
      if found.doc.None? {
        return Some(Missing), None;
      }
      if removeFault.Some? {
        return Some(Store(Io(removeFault.value))), None;
      }
      hooks := hooks - {name};
      names := Without(names, name);
      return None, found.doc;
    }

    /** A listing of the whole collection, in its order. */
    function All(): (r: seq<Hook>)
      requires Valid()
      reads this
      ensures forall h :: h in r <==> h in hooks.Values
    {
      ListingHoldsStore(names, hooks);
      Listing(names, hooks)
    }

    /** dispatchHooks: find the matching hooks and fan the event out to
        them; a store error goes straight to the callback. */
    method DispatchHooks(entity: Entity, entityType: string, event: string, hasCallback: bool,
                         findFault: Option<string>, stringify: Json -> string,
                         transport: (Call, nat) -> Outcome) returns (c: Completion)
      requires Valid()
      ensures findFault.Some? ==> c == Finish(hasCallback, StoreFailed(findFault.value))
      ensures findFault.None? ==>
        c == Finish(hasCallback, Collect(Matching(All(), entityType, event), entity, event, stringify, transport))
    {
      var agg: Aggregate;
      if findFault.Some? {
        agg := StoreFailed(findFault.value);
      } else {
        var matched := Matching(All(), entityType, event);
        agg := DispatchAll(matched, entity, event, stringify, transport);
      }
      c := Finish(hasCallback, agg);
    }
  }
}
