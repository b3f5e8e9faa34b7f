/** `AdminNotificationController`: the admins' list of pending password-reset requests
    and the action that marks one resolved. */
module Notifications {
  import opened Wrappers
  import opened Seqs

  /** A row of `password_reset_requests`. */
  datatype ResetRequest = ResetRequest(id: nat, userId: nat, isResolved: bool, createdAt: int)

  predicate IsPending(r: ResetRequest) { !r.isResolved }

  /** `latest()`: newest `created_at` first. */
  predicate NewerOrSame(a: ResetRequest, b: ResetRequest) { a.createdAt >= b.createdAt }

  lemma NewerOrSamePreorder(s: seq<ResetRequest>)
    ensures TotalPreorderOn(s, NewerOrSame)
  {
  }

  /** `index` */
  function Pending(requests: seq<ResetRequest>): seq<ResetRequest>
  {
    SortBy(Filter(requests, IsPending), NewerOrSame)
  }

  /** `index` lists exactly the unresolved requests, each as often as stored, newest first. */
  lemma PendingSpec(requests: seq<ResetRequest>)
    ensures multiset(Pending(requests)) == multiset(Filter(requests, IsPending))
    ensures forall x :: x in Pending(requests) <==> x in requests && !x.isResolved
    ensures SortedBy(Pending(requests), NewerOrSame)
  {
    var open := Filter(requests, IsPending);
    NewerOrSamePreorder(open);
    SortBySorted(open, NewerOrSame);
    forall x ensures x in Pending(requests) <==> x in requests && !x.isResolved {
      assert x in Pending(requests) <==> x in multiset(Pending(requests));
      assert x in open <==> x in multiset(open);
      if x in requests && !x.isResolved {
        assert IsPending(x);
      }
    }
  }

  function FindRequest(requests: seq<ResetRequest>, id: nat): (r: Option<nat>)
    ensures r.Some? ==> r.value < |requests| && requests[r.value].id == id
    ensures r.None? <==> forall k :: 0 <= k < |requests| ==> requests[k].id != id
  {
    IndexWhere(requests, (x: ResetRequest) => x.id == id)
  }

  /** `resolve`: the new table, or None (not-found) for an unknown id. */
  function Resolved(requests: seq<ResetRequest>, id: nat): Option<seq<ResetRequest>>
  {
    match FindRequest(requests, id)
    case None => None
    case Some(k) => Some(requests[k := requests[k].(isResolved := true)])
  }

  /** An unknown id is not-found; otherwise the request with that id becomes resolved and
      every other row stays as it was. */
  lemma ResolveSpec(requests: seq<ResetRequest>, id: nat)
    requires forall i, j :: 0 <= i < j < |requests| ==> requests[i].id != requests[j].id
    ensures Resolved(requests, id).None? <==> forall k :: 0 <= k < |requests| ==> requests[k].id != id
    ensures Resolved(requests, id).Some? ==>
      var r := Resolved(requests, id).value;
      && |r| == |requests|
      && forall k :: 0 <= k < |requests| ==>
           r[k] == if requests[k].id == id then requests[k].(isResolved := true) else requests[k]
  {
  }

  /** Resolving twice is resolving once. */
  lemma ResolveIdempotent(requests: seq<ResetRequest>, id: nat)
    requires Resolved(requests, id).Some?
    ensures Resolved(Resolved(requests, id).value, id) == Resolved(requests, id)
  {
    var k := FindRequest(requests, id).value;
    var r := Resolved(requests, id).value;
    assert r[k].id == id;
    var k' := FindRequest(r, id).value;
    assert k' == k by {
      var p := (x: ResetRequest) => x.id == id;
      assert forall j :: 0 <= j < k ==> r[j] == requests[j];
      assert forall j :: 0 <= j < k ==> !p(requests[j]);
      assert forall j :: 0 <= j < k' ==> !p(r[j]);
    }
    assert r[k := r[k].(isResolved := true)] == r;
  }

  /** A resolved request no longer appears in `index`. */
  lemma ResolvedNotPending(requests: seq<ResetRequest>, id: nat)
    requires forall i, j :: 0 <= i < j < |requests| ==> requests[i].id != requests[j].id
    requires Resolved(requests, id).Some?
    ensures forall x :: x in Pending(Resolved(requests, id).value) ==> x.id != id
  {
    var r := Resolved(requests, id).value;
    ResolveSpec(requests, id);
    PendingSpec(r);
  }

  /** The requests table `AdminNotificationController` writes. */
  class Inbox {
    var requests: seq<ResetRequest>

    constructor (requests0: seq<ResetRequest>)
      ensures requests == requests0
    {
      requests := requests0;
    }

    /** `resolve`: `findOrFail`, then `is_resolved = true` and `save()`. */
    method Resolve(id: nat) returns (found: bool)
      modifies this
      ensures found <==> Resolved(old(requests), id).Some?
      ensures found ==> requests == Resolved(old(requests), id).value
      ensures !found ==> requests == old(requests)
    {
      var k := FindRequest(requests, id);
      if k.None? {
        return false;
      }
      requests := requests[k.value := requests[k.value].(isResolved := true)];
      return true;
    }
  }
}
