/** sendRequest: issue a call, and on failure retry after a fixed delay
    while the retry counter is positive. The network is an oracle that
    gives the outcome of the k-th attempt of a call; the timer is recorded
    as the delay requested, not waited for. */
module RetryingSender {
  import opened Values
  import opened RequestBuilder

  /** What one attempt of `request(options, ...)` observes. */
  datatype Outcome =
    | TransportError(err: string)      // `err` is set
    | NoResponse                       // neither `err` nor `res`
    | Response(status: int, body: Json)

  /** The success test of sendRequest: no error, a response, status below 300. */
  predicate Succeeded(o: Outcome) {
    o.Response? && o.status < 300
  }

  /** The `err` an attempt hands on: `null` unless the transport failed. */
  function ErrorOf(o: Outcome): Option<string> {
    match o
    case TransportError(e) => Some(e)
    case _ => None
  }

  /** What the callback finally receives: `(null, res.body)` or `(err, null)`. */
  datatype SendResult = Delivered(body: Json) | GaveUp(err: Option<string>)

  /** The result, how many attempts were made, and the timer delays (in
      milliseconds) requested between them. */
  datatype Trace = Trace(result: SendResult, attempts: nat, delays: seq<int>)

  /** `max(n, 0)`. */
  function Max0(n: int): nat {
    if n > 0 then n else 0
  }

  /** sendRequest in its own recursive form: attempt `k` of `call` with
      `retryCount` retries left. */
  function Resend(transport: (Call, nat) -> Outcome, call: Call, k: nat, retryCount: int, delay: int): (t: Trace)
    ensures |t.delays| == t.attempts - 1
    decreases Max0(retryCount)
  {
    var o := transport(call, k);
    if Succeeded(o) then Trace(Delivered(o.body), 1, [])
    else if retryCount <= 0 then Trace(GaveUp(ErrorOf(o)), 1, [])
    else
      var t := Resend(transport, call, k + 1, retryCount - 1, delay);
      Trace(t.result, t.attempts + 1, [delay * 1000] + t.delays)
  }

  /** The shape of every run: at most `max(retryCount, 0) + 1` attempts,
      every one before the last a failure, a fixed delay before each retry,
      success exactly when the last attempt succeeded, and a terminal
      failure only once the budget is spent, carrying the last attempt's
      error. */
  lemma {:induction false} ResendShape(transport: (Call, nat) -> Outcome, call: Call, k: nat, retryCount: int, delay: int)
    ensures var t := Resend(transport, call, k, retryCount, delay);
      && 1 <= t.attempts <= Max0(retryCount) + 1
      && |t.delays| == t.attempts - 1
      && (forall i :: 0 <= i < |t.delays| ==> t.delays[i] == delay * 1000)
      && (forall j :: k <= j < k + t.attempts - 1 ==> !Succeeded(transport(call, j)))
      && (t.result.Delivered? <==> Succeeded(transport(call, k + t.attempts - 1)))
      && (t.result.Delivered? ==> t.result.body == transport(call, k + t.attempts - 1).body)
      && (t.result.GaveUp? ==> t.attempts == Max0(retryCount) + 1
                               && t.result.err == ErrorOf(transport(call, k + t.attempts - 1)))
    decreases Max0(retryCount)
  {
    var o := transport(call, k);
    if !Succeeded(o) && retryCount > 0 {
      ResendShape(transport, call, k + 1, retryCount - 1, delay);
      var t := Resend(transport, call, k + 1, retryCount - 1, delay);
      forall j | k <= j < k + t.attempts
        ensures !Succeeded(transport(call, j))
      {
        if j > k { assert k + 1 <= j < k + 1 + t.attempts - 1; }
      }
    }
  }

  /** The call is delivered exactly when some attempt within the budget
      succeeds; in particular an endpoint that always fails sees exactly
      `max(retryCount, 0) + 1` attempts. */
  lemma DeliveredIffSomeAttemptSucceeds(transport: (Call, nat) -> Outcome, call: Call, retryCount: int, delay: int)
    ensures var t := Resend(transport, call, 0, retryCount, delay);
      t.result.Delivered? <==> exists j :: 0 <= j <= Max0(retryCount) && Succeeded(transport(call, j))
    ensures var t := Resend(transport, call, 0, retryCount, delay);
      (forall j :: 0 <= j <= Max0(retryCount) ==> !Succeeded(transport(call, j))) ==>
        t.result.GaveUp? && t.attempts == Max0(retryCount) + 1 && |t.delays| == Max0(retryCount)
  {
    ResendShape(transport, call, 0, retryCount, delay);
    var t := Resend(transport, call, 0, retryCount, delay);
    if t.result.Delivered? {
      assert Succeeded(transport(call, t.attempts - 1));
    } else {
      forall j | 0 <= j <= Max0(retryCount)
        ensures !Succeeded(transport(call, j))
      {
        if j < t.attempts - 1 {
          assert 0 <= j < 0 + t.attempts - 1;
        }
      }
    }
  }

  /** A first attempt that succeeds is the only one. */
  lemma FirstSuccessStops(transport: (Call, nat) -> Outcome, call: Call, retryCount: int, delay: int)
    requires Succeeded(transport(call, 0))
    ensures Resend(transport, call, 0, retryCount, delay) == Trace(Delivered(transport(call, 0).body), 1, [])
  {
  }

  /** A trace continued from a later attempt, after `n` attempts have
      already been made and the delays `ds` requested. */
  function Extend(n: nat, ds: seq<int>, t: Trace): Trace {
    Trace(t.result, t.attempts + n, ds + t.delays)
  }

  /** Continuing a trace after one more failed attempt and its delay. */
  lemma ExtendStep(n: nat, ds: seq<int>, d: int, t: Trace)
    ensures Extend(n, ds, Trace(t.result, t.attempts + 1, [d] + t.delays)) == Extend(n + 1, ds + [d], t)
  {
    assert ds + ([d] + t.delays) == (ds + [d]) + t.delays;
  }

  /** sendRequest as a loop over the decrementing retry counter. */
  method SendRequest(call: Call, retryCount: int, delay: int, transport: (Call, nat) -> Outcome)
    returns (result: SendResult, attempts: nat, delays: seq<int>)
    ensures Trace(result, attempts, delays) == Resend(transport, call, 0, retryCount, delay)
    ensures 1 <= attempts <= Max0(retryCount) + 1 && |delays| == attempts - 1
    ensures forall i :: 0 <= i < |delays| ==> delays[i] == delay * 1000
    ensures result.Delivered? <==> Succeeded(transport(call, attempts - 1))
    ensures result.GaveUp? ==> attempts == Max0(retryCount) + 1
  {
    ghost var whole := Resend(transport, call, 0, retryCount, delay);
    ResendShape(transport, call, 0, retryCount, delay);
    var remaining := retryCount;
    attempts, delays := 0, [];
    while true
      invariant remaining == retryCount - attempts
      invariant attempts <= Max0(retryCount) && |delays| == attempts
      invariant whole == Extend(attempts, delays, Resend(transport, call, attempts, remaining, delay))
      decreases Max0(remaining)
    {
      var o := transport(call, attempts);
      attempts := attempts + 1;
      if Succeeded(o) {
        result := Delivered(o.body);
        return;
      }
      if remaining <= 0 {
        result := GaveUp(ErrorOf(o));
        return;
      }
      ExtendStep(attempts - 1, delays, delay * 1000, Resend(transport, call, attempts, remaining - 1, delay));
      delays := delays + [delay * 1000];
      remaining := remaining - 1;
    }
  }
}
