/** The query of dispatchHooks (`{"entity_type": entity_type, "events":
    event}`): a hook fires for an event when its entity type equals the
    event's exactly and the event is one of its `events`. */
module EventMatcher {
  import opened HookModel

  /** The store's match for one document. Matching a scalar against an
      array field means membership. */
  predicate Matches(h: Hook, entityType: string, event: string) {
    h.entityType == entityType && event in h.events
  }

  /** The documents of `hs`, in their order, that the query selects. */
  function Matching(hs: seq<Hook>, entityType: string, event: string): (r: seq<Hook>)
    ensures |r| <= |hs|
    ensures forall h :: h in r <==> h in hs && Matches(h, entityType, event)
  {
    if hs == [] then []
    else if Matches(hs[0], entityType, event) then [hs[0]] + Matching(hs[1..], entityType, event)
    else Matching(hs[1..], entityType, event)
  }

  /** The query distributes over concatenation, so it keeps the store's order. */
  lemma {:induction false} MatchingAppend(a: seq<Hook>, b: seq<Hook>, entityType: string, event: string)
    ensures Matching(a + b, entityType, event) == Matching(a, entityType, event) + Matching(b, entityType, event)
  {
    if a == [] {
      assert a + b == b;
    } else {
      assert (a + b)[0] == a[0];
      assert (a + b)[1..] == a[1..] + b;
      MatchingAppend(a[1..], b, entityType, event);
    }
  }

  /** When every document matches, all of them fire, in order. */
  lemma {:induction false} MatchingAll(hs: seq<Hook>, entityType: string, event: string)
    requires forall i :: 0 <= i < |hs| ==> Matches(hs[i], entityType, event)
    ensures Matching(hs, entityType, event) == hs
  {
    if hs != [] {
      MatchingAll(hs[1..], entityType, event);
    }
  }

  /** The number of times a document is selected equals the number of times
      it is stored if it matches, and zero otherwise: a hook for another
      type or another event receives no call. */
  lemma {:induction false} MatchingCount(hs: seq<Hook>, entityType: string, event: string, h: Hook)
    ensures multiset(Matching(hs, entityType, event))[h] ==
            if Matches(h, entityType, event) then multiset(hs)[h] else 0
  {
    if hs != [] {
      MatchingCount(hs[1..], entityType, event, h);
      assert hs == [hs[0]] + hs[1..];
    }
  }
}
