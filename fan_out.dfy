/** dispatchHook and the `async.map` fan-out of dispatchHooks: every matched
    hook gets its call built and sent, and the per-hook results are
    gathered in hook order. `async.map` stops at the first hook whose
    callback reports a truthy error; a terminal failure with a `null` error
    (a status of 300 or more, or no response) is not such an error, and
    leaves a `null` result in its slot. The hooks are visited in order, one
    after the other. */
module FanOut {
  import opened Values
  import opened HookModel
  import opened RequestBuilder
  import opened RetryingSender

  /** What dispatchHook does for one hook: send the built call with the
      hook's retry settings. */
  function Delivery(h: Hook, entity: Entity, event: string, stringify: Json -> string,
                    transport: (Call, nat) -> Outcome): (t: Trace)
    ensures 1 <= t.attempts <= Max0(RetryCount(h)) + 1
    ensures forall i :: 0 <= i < |t.delays| ==> t.delays[i] == RetryDelay(h) * 1000
  {
    ResendShape(transport, BuildCall(h, entity, event, stringify), 0, RetryCount(h), RetryDelay(h));
    Resend(transport, BuildCall(h, entity, event, stringify), 0, RetryCount(h), RetryDelay(h))
  }

  /** dispatchHook. */
  method DispatchHook(h: Hook, entity: Entity, event: string, stringify: Json -> string,
                      transport: (Call, nat) -> Outcome)
    returns (call: Call, result: SendResult, attempts: nat, delays: seq<int>)
    ensures call == BuildCall(h, entity, event, stringify)
    ensures Trace(result, attempts, delays) == Delivery(h, entity, event, stringify, transport)
    ensures 1 <= attempts <= Max0(RetryCount(h)) + 1
    ensures forall i :: 0 <= i < |delays| ==> delays[i] == RetryDelay(h) * 1000
  {
    call := BuildCall(h, entity, event, stringify);
    result, attempts, delays := SendRequest(call, RetryCount(h), RetryDelay(h), transport);
  }

  /** What the final callback of dispatchHooks receives: the store's error,
      or `async.map`'s error and results. */
  datatype Aggregate =
    | StoreFailed(detail: string)
    | Mapped(err: Option<string>, results: seq<Option<Json>>)

  /** The value a hook's callback contributes to the results array. */
  function Slot(r: SendResult): Option<Json> {
    match r
    case Delivered(b) => Some(b)
    case GaveUp(_) => None
  }

  /** The hook's callback reported a truthy error: `async.map` stops. */
  predicate Stops(r: SendResult) {
    r.GaveUp? && r.err.Some?
  }

  /** The per-hook outcomes, one for each matched hook, in order. */
  function Results(hs: seq<Hook>, entity: Entity, event: string, stringify: Json -> string,
                   transport: (Call, nat) -> Outcome): (rs: seq<SendResult>)
    ensures |rs| == |hs|
    ensures forall i :: 0 <= i < |hs| ==> rs[i] == Delivery(hs[i], entity, event, stringify, transport).result
  {
    seq(|hs|, i requires 0 <= i < |hs| => Delivery(hs[i], entity, event, stringify, transport).result)
  }

  /** `async.map`'s aggregation of the per-hook outcomes `rs`, in order. */
  function MapFailFast(rs: seq<SendResult>): (a: Aggregate)
    ensures a.Mapped? && |a.results| <= |rs|
    ensures rs != [] ==> |a.results| > 0
  {
    if rs == [] then Mapped(None, [])
    else if Stops(rs[0]) then Mapped(rs[0].err, [None])
    else
      var rest := MapFailFast(rs[1..]);
      Mapped(rest.err, [Slot(rs[0])] + rest.results)
  }

  /** `async.map(hooks, dispatchHook, callback)`. */
  function Collect(hs: seq<Hook>, entity: Entity, event: string, stringify: Json -> string,
                   transport: (Call, nat) -> Outcome): (a: Aggregate)
    ensures a.Mapped? && |a.results| <= |hs|
  {
    MapFailFast(Results(hs, entity, event, stringify, transport))
  }

  /** Each result sits in the slot of its hook. */
  lemma {:induction false} MapAligned(rs: seq<SendResult>)
    ensures var a := MapFailFast(rs);
      |a.results| <= |rs| && forall i :: 0 <= i < |a.results| ==> a.results[i] == Slot(rs[i])
  {
    if rs != [] && !Stops(rs[0]) {
      MapAligned(rs[1..]);
    }
  }

  /** The aggregate has no error exactly when no hook reports a truthy one,
      and then every hook has its slot. */
  lemma {:induction false} MapCompleteIffNoError(rs: seq<SendResult>)
    ensures var a := MapFailFast(rs);
      (a.err.None? <==> forall i :: 0 <= i < |rs| ==> !Stops(rs[i]))
      && (a.err.None? ==> |a.results| == |rs|)
  {
    if rs != [] && !Stops(rs[0]) {
      MapCompleteIffNoError(rs[1..]);
      assert forall i :: 0 < i < |rs| ==> rs[i] == rs[1..][i - 1];
    }
  }

  /** On error the aggregate is fail-fast: the error is that of the first
      hook reporting one, and its slot is the last of the results. */
  lemma {:induction false} MapFirstError(rs: seq<SendResult>)
    ensures var a := MapFailFast(rs);
      a.err.Some? ==>
        var k := |a.results| - 1;
        && 0 <= k < |rs| && Stops(rs[k]) && a.err == rs[k].err
        && forall j :: 0 <= j < k ==> !Stops(rs[j])
  {
    if rs != [] && !Stops(rs[0]) {
      MapFirstError(rs[1..]);
      MapAligned(rs[1..]);
      assert forall i :: 0 < i < |rs| ==> rs[i] == rs[1..][i - 1];
    }
  }

  /** The aggregation of the suffix from `i` when hook `i` stops the map. */
  lemma MapHalts(rs: seq<SendResult>, i: nat)
    requires i < |rs| && Stops(rs[i])
    ensures MapFailFast(rs[i..]) == Mapped(rs[i].err, [None])
  {
    assert rs[i..][0] == rs[i];
  }

  /** The aggregation of the suffix from `i` when hook `i` does not stop
      the map: its slot, then the aggregation of the rest. */
  lemma MapAdvances(rs: seq<SendResult>, i: nat, done: seq<Option<Json>>)
    requires i < |rs| && !Stops(rs[i])
    ensures MapFailFast(rs[i..]).err == MapFailFast(rs[i + 1..]).err
    ensures done + MapFailFast(rs[i..]).results == (done + [Slot(rs[i])]) + MapFailFast(rs[i + 1..]).results
  {
    assert rs[i..][0] == rs[i] && rs[i..][1..] == rs[i + 1..];
  }

  /** The fan-out as a loop over the matched hooks. */
  method DispatchAll(hs: seq<Hook>, entity: Entity, event: string, stringify: Json -> string,
                     transport: (Call, nat) -> Outcome) returns (agg: Aggregate)
    ensures agg == Collect(hs, entity, event, stringify, transport)
  {
    ghost var rs := Results(hs, entity, event, stringify, transport);
    ghost var whole := MapFailFast(rs);
    var results: seq<Option<Json>> := [];
    var i := 0;
    while i < |hs|
      invariant 0 <= i <= |hs|
      invariant whole.err == MapFailFast(rs[i..]).err
      invariant whole.results == results + MapFailFast(rs[i..]).results
    {
      var _, r, _, _ := DispatchHook(hs[i], entity, event, stringify, transport);
      if Stops(r) {
        MapHalts(rs, i);
        agg := Mapped(r.err, results + [None]);
        return;
      }
      MapAdvances(rs, i, results);
      results := results + [Slot(r)];
      i := i + 1;
    }
    assert rs[i..] == [];
    agg := Mapped(None, results);
  }

  /** When the transport never fails outright, no hook can stop the map:
      a hook that exhausts its retries on statuses of 300 or more only
      leaves a `null` slot, and the aggregate reports no error at all. */
  lemma StatusFailuresGoUnreported(hs: seq<Hook>, entity: Entity, event: string, stringify: Json -> string,
                                   transport: (Call, nat) -> Outcome)
    requires forall c, k :: !transport(c, k).TransportError?
    ensures var a := Collect(hs, entity, event, stringify, transport);
      a.err.None? && |a.results| == |hs|
  {
    var rs := Results(hs, entity, event, stringify, transport);
    forall i | 0 <= i < |rs|
      ensures !Stops(rs[i])
    {
      var h := hs[i];
      ResendShape(transport, BuildCall(h, entity, event, stringify), 0, RetryCount(h), RetryDelay(h));
    }
    MapCompleteIffNoError(rs);
  }

  /** The aggregate carries an error the callback would see as truthy. */
  predicate Failed(a: Aggregate) {
    a.StoreFailed? || a.err.Some?
  }

  /** Who receives the aggregate: the caller's callback, or, when none was
      given, the default one, which only logs an error and never raises it. */
  datatype Completion = Handed(outcome: Aggregate) | Logged(errorLogged: bool)

  function Finish(hasCallback: bool, a: Aggregate): (c: Completion)
    ensures hasCallback ==> c == Handed(a)
    ensures !hasCallback ==> c.Logged? && (c.errorLogged <==> Failed(a))
  {
    if hasCallback then Handed(a) else Logged(Failed(a))
  }
}
