/**
 * The membership ledger's read side: the "already joined" check over the
 * `alreadyJoined` and `memberRequests` collections, and the duplicate
 * guard of a join request, with what they imply about the collections.
 */
module Ledger {
  import opened Mongo
  import opened Records

  /** /already/joined: a student counts as committed to an activity when an
      `alreadyJoined` record OR a member request exists for the pair. */
  function AlreadyJoined(joined: seq<Commitment>, requests: seq<MemberRequest>,
                         email: string, activityId: string): (r: bool)
    ensures r <==>
      || (exists i :: 0 <= i < |joined| && joined[i] == Commitment(email, activityId))
      || (exists i :: 0 <= i < |requests| && requests[i].email == email && requests[i].activityId == activityId)
  {
    var commitment := FindOne(joined, CommitmentTo(email, activityId));
    var request := FindOne(requests, RequestForActivity(email, activityId));
    commitment.Some? || request.Some?
  }

  /** The /request/to/join guard: the FIRST request stored for (teamId, email)
      has status "pending". Later requests for the pair are not looked at. */
  function JoinRefused(requests: seq<MemberRequest>, teamId: Id, email: string): (r: bool)
    ensures r <==> exists i ::
      && 0 <= i < |requests|
      && requests[i].teamId == teamId && requests[i].email == email
      && requests[i].status == Pending
      && forall j :: 0 <= j < i ==> !(requests[j].teamId == teamId && requests[j].email == email)
  {
    match FirstMatch(requests, RequestToTeam(teamId, email))
    case None => false
    case Some(i) => requests[i].status == Pending
  }

  /** Every stored request is still pending (requests are deleted, never
      updated, once answered). */
  ghost predicate AllPending(requests: seq<MemberRequest>) {
    forall i :: 0 <= i < |requests| ==> requests[i].status == Pending
  }

  /** At most one pending request per (teamId, email). */
  ghost predicate OnePendingPerPair(requests: seq<MemberRequest>) {
    forall i, j ::
      0 <= i < j < |requests| && requests[i].status == Pending && requests[j].status == Pending ==>
      requests[i].teamId != requests[j].teamId || requests[i].email != requests[j].email
  }

  /** While every stored request is pending, the guard refuses exactly when
      some request for the pair exists, so admitting a pending request keeps
      one pending request per pair. */
  lemma JoinKeepsOnePending(requests: seq<MemberRequest>, q: MemberRequest)
    requires AllPending(requests) && OnePendingPerPair(requests)
    requires q.status == Pending && !JoinRefused(requests, q.teamId, q.email)
    ensures AllPending(requests + [q]) && OnePendingPerPair(requests + [q])
  {
  }

  /** Answering a request (deleteOne on memberRequests) keeps one pending
      request per pair, whatever the statuses of the stored requests. */
  lemma DeleteKeepsOnePending(requests: seq<MemberRequest>, p: MemberRequest -> bool)
    requires OnePendingPerPair(requests)
    ensures OnePendingPerPair(DeleteOne(requests, p))
  {
    match FirstMatch(requests, p)
    case None =>
    case Some(k) =>
      assert DeleteOne(requests, p) == requests[..k] + requests[k + 1..];
      RemoveKeepsOnePending(requests, k);
  }

  /** Answering a request keeps every stored request pending. */
  lemma DeleteKeepsAllPending(requests: seq<MemberRequest>, p: MemberRequest -> bool)
    requires AllPending(requests)
    ensures AllPending(DeleteOne(requests, p))
  {
    match FirstMatch(requests, p)
    case None =>
    case Some(k) =>
      assert DeleteOne(requests, p) == requests[..k] + requests[k + 1..];
  }

  lemma RemoveKeepsOnePending(requests: seq<MemberRequest>, k: nat)
    requires k < |requests| && OnePendingPerPair(requests)
    ensures OnePendingPerPair(requests[..k] + requests[k + 1..])
  {
  }

  /** The guard looks only at the first request for the pair: when that one
      is not pending, a pending request stored behind it does not stop
      another pending one, and the pair then has two pending requests. */
  lemma GuardSeesOnlyFirst(requests: seq<MemberRequest>, q: MemberRequest, first: nat, pending: nat)
    requires first < pending < |requests|
    requires RequestToTeam(q.teamId, q.email)(requests[first]) && requests[first].status != Pending
    requires forall j :: 0 <= j < first ==> !RequestToTeam(q.teamId, q.email)(requests[j])
    requires RequestToTeam(q.teamId, q.email)(requests[pending]) && requests[pending].status == Pending
    requires q.status == Pending
    ensures !JoinRefused(requests, q.teamId, q.email)
    ensures !OnePendingPerPair(requests + [q])
  {
    assert FirstMatch(requests, RequestToTeam(q.teamId, q.email)) == Some(first);
    var s := requests + [q];
    assert s[pending] == requests[pending] && s[|requests|] == q;
  }

  /** After the one alreadyJoined record for the pair is deleted, the student
      is no longer committed to the activity unless a member request for the
      pair is still stored. */
  lemma DeleteUncommits(joined: seq<Commitment>, requests: seq<MemberRequest>,
                        email: string, activityId: string)
    requires AtMostOne(joined, CommitmentTo(email, activityId))
    requires forall i :: 0 <= i < |requests| ==> !(requests[i].email == email && requests[i].activityId == activityId)
    ensures !AlreadyJoined(DeleteOne(joined, CommitmentTo(email, activityId)), requests, email, activityId)
  {
  }
}
