/**
 * The UniHub server's state-changing handlers, each one atomic step over the
 * database's collections. `Database` holds one sequence of documents per
 * collection; every handler is a method whose contract gives the new
 * contents of the collections it writes in terms of the old ones, and
 * `Valid` is the part of the bookkeeping the handlers keep on their own.
 */
module UniHub {
  import opened Mongo
  import opened Records
  import opened Identifiers
  import opened Ledger

  /** What a handler sends back, reduced to what tells the outcomes apart. */
  datatype Reply =
    | Success                                 // { success: true }
    | AlreadyExists                           // { alreadyExists: true }
    | Exists                                  // { exists: true }
    | CrStatus(status: string, name: string)  // the standing CR claim's status and name
    | NotFound                                // the team or request the handler needs is missing

  // The update documents of the handlers' updateOne calls.

  /** `{ $push: { teamMembers: m } }` */
  function PushMember(m: Member): Team -> Team {
    (t: Team) => t.(teamMembers := t.teamMembers + [m])
  }

  /** `{ $pull: { teamMembers: { studentId } } }` */
  function PullMember(studentId: string): Team -> Team {
    (t: Team) => t.(teamMembers := Without(t.teamMembers, MemberWithStudentId(studentId)))
  }

  /** `{ $set: { teamName, title } }` */
  function SetDetails(teamName: string, title: string): Team -> Team {
    (t: Team) => t.(teamName := teamName, title := title)
  }

  /** `{ $set: { teamResources } }` */
  function SetResources(resources: seq<Resource>): Team -> Team {
    (t: Team) => t.(teamResources := Some(resources))
  }

  /** `resource.title = title; resource.link = link` */
  function Relabel(title: string, link: string): Resource -> Resource {
    (r: Resource) => r.(title := title, link := link)
  }

  /** `u` is `t` with at most its `teamMembers` array changed. */
  ghost predicate OnlyMembersChange(t: Team, u: Team) {
    u == t.(teamMembers := u.teamMembers)
  }

  /** $push puts `m` after the existing members, which keep their order, and
      changes no other field. */
  lemma PushMemberEffect(m: Member, t: Team)
    ensures OnlyMembersChange(t, PushMember(m)(t))
    ensures |PushMember(m)(t).teamMembers| == |t.teamMembers| + 1
    ensures PushMember(m)(t).teamMembers[..|t.teamMembers|] == t.teamMembers
    ensures PushMember(m)(t).teamMembers[|t.teamMembers|] == m
  {
  }

  /** After the $pull a member is left exactly when it was there and has
      another studentId; no other field changes, and the team no longer
      matches the listing query. */
  lemma PullMemberEffect(activityId: string, studentId: string, t: Team)
    ensures OnlyMembersChange(t, PullMember(studentId)(t))
    ensures forall m :: m in PullMember(studentId)(t).teamMembers <==> m in t.teamMembers && m.studentId != studentId
    ensures !TeamListing(activityId, studentId)(PullMember(studentId)(t))
  {
    WithoutMembers(t.teamMembers, MemberWithStudentId(studentId));
  }

  /** The $set of /update/team-details gives the two fields their new values
      and leaves _id, creator, activity, members and resources. */
  lemma SetDetailsEffect(teamName: string, title: string, t: Team)
    ensures SetDetails(teamName, title)(t).teamName == teamName
    ensures SetDetails(teamName, title)(t).title == title
    ensures SetDetails(teamName, title)(t).(teamName := t.teamName, title := t.title) == t
  {
  }

  /** After the $set of `teamResources` the team reads back exactly
      `resources`, and no other field changes. */
  lemma SetResourcesEffect(resources: seq<Resource>, t: Team)
    ensures ResourcesOf(SetResources(resources)(t)) == resources
    ensures SetResources(resources)(t).(teamResources := t.teamResources) == t
  {
  }

  /** Editing a resource keeps its identifier and sets title and link. */
  lemma RelabelEffect(title: string, link: string, r: Resource)
    ensures Relabel(title, link)(r).identifier == r.identifier
    ensures Relabel(title, link)(r).title == title && Relabel(title, link)(r).link == link
  {
  }

  ghost predicate OneStudentPerEmail(students: seq<Student>) {
    forall i, j :: 0 <= i < |students| && 0 <= j < |students| && students[i].email == students[j].email ==> i == j
  }

  ghost predicate OneCrPerSection(claims: seq<CrRequest>) {
    forall i, j :: 0 <= i < |claims| && 0 <= j < |claims| && claims[i].section == claims[j].section ==> i == j
  }

  ghost predicate OneTeamPerOwner(teams: seq<Team>) {
    forall i, j ::
      && 0 <= i < |teams| && 0 <= j < |teams|
      && teams[i].email == teams[j].email && teams[i].activityId == teams[j].activityId
      ==> i == j
  }

  ghost predicate TeamIdsBelow(teams: seq<Team>, bound: Id) {
    && (forall i :: 0 <= i < |teams| ==> teams[i].id < bound)
    && (forall i, j :: 0 <= i < |teams| && 0 <= j < |teams| && teams[i].id == teams[j].id ==> i == j)
  }

  ghost predicate RequestIdsBelow(requests: seq<MemberRequest>, bound: Id) {
    && (forall i :: 0 <= i < |requests| ==> requests[i].id < bound)
    && (forall i, j :: 0 <= i < |requests| && 0 <= j < |requests| && requests[i].id == requests[j].id ==> i == j)
  }

  /** What the handlers keep true of the collections: one student per
      email, one claim per section, one team per creator and activity, and
      distinct _ids below the next one to be issued. */
  ghost predicate Consistent(students: seq<Student>, crRequests: seq<CrRequest>, teams: seq<Team>,
                             memberRequests: seq<MemberRequest>, nextId: Id)
  {
    && OneStudentPerEmail(students)
    && OneCrPerSection(crRequests)
    && OneTeamPerOwner(teams)
    && TeamIdsBelow(teams, nextId)
    && RequestIdsBelow(memberRequests, nextId)
  }

  /** An update that leaves a team's _id, creator and activity alone keeps
      the team invariants. */
  lemma UpdateKeepsTeamKeys(teams: seq<Team>, p: Team -> bool, f: Team -> Team, bound: Id)
    requires OneTeamPerOwner(teams) && TeamIdsBelow(teams, bound)
    requires FirstMatch(teams, p).Some? ==>
      var t := teams[FirstMatch(teams, p).value];
      f(t).id == t.id && f(t).email == t.email && f(t).activityId == t.activityId
    ensures OneTeamPerOwner(UpdateOne(teams, p, f)) && TeamIdsBelow(UpdateOne(teams, p, f), bound)
  {
  }

  /** Leaving when no team of the activity lists the student and no
      alreadyJoined record exists for the pair changes nothing. */
  lemma LeaveWithNothingToDo(teams: seq<Team>, joined: seq<Commitment>,
                             email: string, studentId: string, activityId: string)
    requires forall j :: 0 <= j < |teams| ==> !TeamListing(activityId, studentId)(teams[j])
    requires forall j :: 0 <= j < |joined| ==> joined[j] != Commitment(email, activityId)
    ensures UpdateOne(teams, TeamListing(activityId, studentId), PullMember(studentId)) == teams
    ensures DeleteOne(joined, CommitmentTo(email, activityId)) == joined
  {
  }

  /** With distinct team ids, updateOne by _id changes exactly the team with
      that id. */
  lemma UpdateById(teams: seq<Team>, teamId: Id, f: Team -> Team, bound: Id)
    requires TeamIdsBelow(teams, bound)
    ensures forall i :: 0 <= i < |teams| && teams[i].id == teamId ==>
      UpdateOne(teams, TeamWithId(teamId), f)[i] == f(teams[i])
    ensures forall i :: 0 <= i < |teams| && teams[i].id != teamId ==>
      UpdateOne(teams, TeamWithId(teamId), f)[i] == teams[i]
  {
  }

  /** Leaving unlists the student: if at most one team of the activity lists
      them, after the $pull none does. */
  lemma LeaveUnlists(teams: seq<Team>, activityId: string, studentId: string)
    requires AtMostOne(teams, TeamListing(activityId, studentId))
    ensures forall j :: 0 <= j < |teams| ==>
      !TeamListing(activityId, studentId)(UpdateOne(teams, TeamListing(activityId, studentId), PullMember(studentId))[j])
  {
  }

  /** Deleting one request by _id from requests with distinct ids removes
      the request with that id, keeps every other one and keeps the ids
      distinct. */
  lemma RequestDeleted(before: seq<MemberRequest>, id: Id, bound: Id)
    requires RequestIdsBelow(before, bound)
    ensures RequestIdsBelow(DeleteOne(before, RequestWithId(id)), bound)
    ensures forall i :: 0 <= i < |DeleteOne(before, RequestWithId(id))| ==> DeleteOne(before, RequestWithId(id))[i].id != id
    ensures forall i :: 0 <= i < |before| && before[i].id != id ==> before[i] in DeleteOne(before, RequestWithId(id))
  {
    RequestIdsKept(before, id, bound);
    RequestIdGone(before, id, bound);
    DeleteOneEffect(before, RequestWithId(id));
  }

  lemma RequestIdsKept(before: seq<MemberRequest>, id: Id, bound: Id)
    requires RequestIdsBelow(before, bound)
    ensures RequestIdsBelow(DeleteOne(before, RequestWithId(id)), bound)
  {
    match FirstMatch(before, RequestWithId(id))
    case None =>
    case Some(k) =>
      assert DeleteOne(before, RequestWithId(id)) == before[..k] + before[k + 1..];
      RemoveKeepsIds(before, k, bound);
  }

  lemma RemoveKeepsIds(before: seq<MemberRequest>, k: nat, bound: Id)
    requires k < |before| && RequestIdsBelow(before, bound)
    ensures RequestIdsBelow(before[..k] + before[k + 1..], bound)
  {
  }

  lemma RequestIdGone(before: seq<MemberRequest>, id: Id, bound: Id)
    requires RequestIdsBelow(before, bound)
    ensures forall i :: 0 <= i < |DeleteOne(before, RequestWithId(id))| ==> DeleteOne(before, RequestWithId(id))[i].id != id
  {
  }

  /** Array.prototype.findIndex over a team's resources by identifier. */
  method FindResourceIndex(resources: seq<Resource>, identifier: string) returns (k: int)
    ensures -1 <= k < |resources|
    ensures k == -1 <==> forall j :: 0 <= j < |resources| ==> resources[j].identifier != identifier
    ensures 0 <= k ==> resources[k].identifier == identifier
    ensures 0 <= k ==> forall j :: 0 <= j < k ==> resources[j].identifier != identifier
  {
    k := 0;
    while k < |resources|
      invariant 0 <= k <= |resources|
      invariant forall j :: 0 <= j < k ==> resources[j].identifier != identifier
    {
      if resources[k].identifier == identifier {
        return;
      }
      k := k + 1;
    }
    k := -1;
  }

  class Database {
    var students: seq<Student>
    var crRequests: seq<CrRequest>
    var teams: seq<Team>
    var memberRequests: seq<MemberRequest>
    var alreadyJoined: seq<Commitment>
    /** The ObjectId the next insertOne into `allTeam` or `memberRequests` assigns. */
    var nextId: Id

    ghost predicate Valid()
      reads this
    {
      Consistent(students, crRequests, teams, memberRequests, nextId)
    }

    constructor ()
      ensures Valid()
      ensures students == [] && crRequests == [] && teams == []
      ensures memberRequests == [] && alreadyJoined == []
    {
      students, crRequests, teams, memberRequests, alreadyJoined := [], [], [], [], [];
      nextId := 0;
    }

    /** POST /create/student */
    method CreateStudent(info: Student) returns (r: Reply)
      requires Valid()
      modifies this`students
      ensures Valid()
      ensures r == AlreadyExists || r == Success
      ensures r == AlreadyExists <==>
        exists i :: 0 <= i < |old(students)| && old(students)[i].email == info.email
      ensures students == if r == AlreadyExists then old(students) else old(students) + [info]
      ensures exists i :: 0 <= i < |students| && students[i].email == info.email
    {
      var existing := FindOne(students, StudentWithEmail(info.email));
      if existing.Some? {
        return AlreadyExists;
      }
      students := students + [info];
      r := Success;
      assert students[|students| - 1].email == info.email;
    }

    /** POST /request/CR: the first claim for a section stands. */
    method RequestCr(info: CrRequest) returns (r: Reply)
      requires Valid()
      modifies this`crRequests
      ensures Valid()
      ensures r.Success? || r.CrStatus?
      ensures r.Success? <==> forall i :: 0 <= i < |old(crRequests)| ==> old(crRequests)[i].section != info.section
      ensures r.Success? ==> crRequests == old(crRequests) + [info]
      ensures r.CrStatus? ==> crRequests == old(crRequests)
      ensures r.CrStatus? ==> exists i ::
        && 0 <= i < |crRequests| && crRequests[i].section == info.section
        && r == CrStatus(crRequests[i].status, crRequests[i].name)
    {
      var existing := FindOne(crRequests, CrForSection(info.section));
      if existing.Some? {
        var claim := existing.value;
        return CrStatus(claim.status, claim.name);
      }
      crRequests := crRequests + [info];
      r := Success;
    }

    /** POST /add/new-team: one team per (creator email, activityId); the
        creator is recorded in alreadyJoined after the team is stored. */
    method AddNewTeam(draft: Team) returns (r: Reply)
      requires Valid()
      modifies this`teams, this`alreadyJoined, this`nextId
      ensures Valid()
      ensures r == Exists || r == Success
      ensures r == Exists <==> exists i ::
        0 <= i < |old(teams)| && old(teams)[i].email == draft.email && old(teams)[i].activityId == draft.activityId
      ensures r == Exists ==>
        teams == old(teams) && alreadyJoined == old(alreadyJoined) && nextId == old(nextId)
      ensures r == Success ==>
        && teams == old(teams) + [draft.(id := old(nextId))]
        && alreadyJoined == old(alreadyJoined) + [Commitment(draft.email, draft.activityId)]
        && nextId == old(nextId) + 1
      ensures r == Success ==> AlreadyJoined(alreadyJoined, memberRequests, draft.email, draft.activityId)
    {
      var existing := FindOne(teams, TeamOwnedBy(draft.email, draft.activityId));
      if existing.Some? {
        return Exists;
      }
      teams := teams + [draft.(id := nextId)];
      nextId := nextId + 1;
      alreadyJoined := alreadyJoined + [Commitment(draft.email, draft.activityId)];
      r := Success;
      assert alreadyJoined[|alreadyJoined| - 1] == Commitment(draft.email, draft.activityId);
    }

    /** POST /request/to/join */
    method RequestToJoin(info: MemberRequest) returns (r: Reply)
      requires Valid()
      modifies this`memberRequests, this`nextId
      ensures Valid()
      ensures r == Exists || r == Success
      ensures r == Exists <==> JoinRefused(old(memberRequests), info.teamId, info.email)
      ensures r == Exists ==> memberRequests == old(memberRequests) && nextId == old(nextId)
      ensures r == Success ==>
        memberRequests == old(memberRequests) + [info.(id := old(nextId))] && nextId == old(nextId) + 1
      // a first pending request for the pair makes the next one for it be refused
      ensures
        && r == Success && info.status == Pending
        && FindOne(old(memberRequests), RequestToTeam(info.teamId, info.email)).None?
        ==> JoinRefused(memberRequests, info.teamId, info.email)
      ensures old(AllPending(memberRequests) && OnePendingPerPair(memberRequests)) && info.status == Pending ==>
        AllPending(memberRequests) && OnePendingPerPair(memberRequests)
    {
      if JoinRefused(memberRequests, info.teamId, info.email) {
        return Exists;
      }
      ghost var before := memberRequests;
      var stored := info.(id := nextId);
      memberRequests := memberRequests + [stored];
      nextId := nextId + 1;
      r := Success;
      if AllPending(before) && OnePendingPerPair(before) && info.status == Pending {
        JoinKeepsOnePending(before, stored);
      }
      if info.status == Pending && FindOne(before, RequestToTeam(info.teamId, info.email)).None? {
        assert memberRequests[|before|] == stored;
      }
    }

    /** The deleteOne by _id on memberRequests that both /reject/member-request and
        /accept/member-request run. */
    method DeleteRequest(id: Id)
      requires Valid()
      modifies this`memberRequests
      ensures Valid()
      ensures memberRequests == DeleteOne(old(memberRequests), RequestWithId(id))
      ensures forall i :: 0 <= i < |memberRequests| ==> memberRequests[i].id != id
      ensures forall i :: 0 <= i < |old(memberRequests)| && old(memberRequests)[i].id != id ==>
        old(memberRequests)[i] in memberRequests
      ensures old(OnePendingPerPair(memberRequests)) ==> OnePendingPerPair(memberRequests)
      ensures old(AllPending(memberRequests)) ==> AllPending(memberRequests)
    {
      var remaining := DeleteOne(memberRequests, RequestWithId(id));
      assert
        && Consistent(students, crRequests, teams, remaining, nextId)
        && (forall i :: 0 <= i < |remaining| ==> remaining[i].id != id)
        && (forall i :: 0 <= i < |memberRequests| && memberRequests[i].id != id ==> memberRequests[i] in remaining)
      by {
        RequestDeleted(memberRequests, id, nextId);
      }
      assert OnePendingPerPair(memberRequests) ==> OnePendingPerPair(remaining) by {
        if OnePendingPerPair(memberRequests) {
          DeleteKeepsOnePending(memberRequests, RequestWithId(id));
        }
      }
      assert AllPending(memberRequests) ==> AllPending(remaining) by {
        if AllPending(memberRequests) {
          DeleteKeepsAllPending(memberRequests, RequestWithId(id));
        }
      }
      memberRequests := remaining;
    }

    /** POST /reject/member-request: deleteOne by _id, nothing else; the
        reply is success whether or not a request had that id. */
    method RejectMemberRequest(id: Id) returns (r: Reply)
      requires Valid()
      modifies this`memberRequests
      ensures Valid()
      ensures r == Success
      ensures memberRequests == DeleteOne(old(memberRequests), RequestWithId(id))
      ensures forall i :: 0 <= i < |memberRequests| ==> memberRequests[i].id != id
      ensures forall i :: 0 <= i < |old(memberRequests)| && old(memberRequests)[i].id != id ==>
        old(memberRequests)[i] in memberRequests
      ensures old(OnePendingPerPair(memberRequests)) ==> OnePendingPerPair(memberRequests)
      ensures old(AllPending(memberRequests)) ==> AllPending(memberRequests)
    {
      DeleteRequest(id);
      r := Success;
    }

    /** The updateOne of /accept/member-request: $push the member onto the
        team with that _id. */
    method PushTeamMember(teamId: Id, member: Member)
      requires Valid()
      modifies this`teams
      ensures Valid()
      ensures teams == UpdateOne(old(teams), TeamWithId(teamId), PushMember(member))
    {
      var joinedTeams := UpdateOne(teams, TeamWithId(teamId), PushMember(member));
      assert Consistent(students, crRequests, joinedTeams, memberRequests, nextId) by {
        UpdateKeepsTeamKeys(teams, TeamWithId(teamId), PushMember(member), nextId);
      }
      teams := joinedTeams;
    }

    /** The insertOne into alreadyJoined: afterwards the student counts as
        committed to the activity. */
    method RecordCommitment(email: string, activityId: string)
      requires Valid()
      modifies this`alreadyJoined
      ensures Valid()
      ensures alreadyJoined == old(alreadyJoined) + [Commitment(email, activityId)]
      ensures AlreadyJoined(alreadyJoined, memberRequests, email, activityId)
    {
      alreadyJoined := alreadyJoined + [Commitment(email, activityId)];
      assert alreadyJoined[|alreadyJoined| - 1] == Commitment(email, activityId);
    }

    /** POST /accept/member-request: name and studentId come from the stored
        request, email and activityId from the query. A missing request is
        NotFound, with nothing written. */
    method AcceptMemberRequest(id: Id, teamId: Id, activityId: string, email: string) returns (r: Reply)
      requires Valid()
      modifies this`teams, this`memberRequests, this`alreadyJoined
      ensures Valid()
      ensures r == NotFound || r == Success
      ensures r == NotFound <==> forall i :: 0 <= i < |old(memberRequests)| ==> old(memberRequests)[i].id != id
      ensures r == NotFound ==>
        teams == old(teams) && memberRequests == old(memberRequests) && alreadyJoined == old(alreadyJoined)
      ensures r == Success ==>
        match FindOne(old(memberRequests), RequestWithId(id))
        case None => false
        case Some(request) =>
          var member := Member(request.name, request.studentId, email, activityId);
          && teams == UpdateOne(old(teams), TeamWithId(teamId), PushMember(member))
          && memberRequests == DeleteOne(old(memberRequests), RequestWithId(id))
          && alreadyJoined == old(alreadyJoined) + [Commitment(email, activityId)]
      ensures r == Success ==> AlreadyJoined(alreadyJoined, memberRequests, email, activityId)
      ensures old(OnePendingPerPair(memberRequests)) ==> OnePendingPerPair(memberRequests)
      ensures old(AllPending(memberRequests)) ==> AllPending(memberRequests)
    {
      var found := FindOne(memberRequests, RequestWithId(id));
      if found.None? {
        return NotFound;
      }
      var request := found.value;
      PushTeamMember(teamId, Member(request.name, request.studentId, email, activityId));
      DeleteRequest(id);
      RecordCommitment(email, activityId);
      r := Success;
    }

    /** The updateOne of /leave/team: $pull the student from the first team
        of the activity that lists them. */
    method PullTeamMember(studentId: string, activityId: string)
      requires Valid()
      modifies this`teams
      ensures Valid()
      ensures teams == UpdateOne(old(teams), TeamListing(activityId, studentId), PullMember(studentId))
      ensures old(AtMostOne(teams, TeamListing(activityId, studentId))) ==>
        forall j :: 0 <= j < |teams| ==> !TeamListing(activityId, studentId)(teams[j])
    {
      var listing := TeamListing(activityId, studentId);
      var pulled := UpdateOne(teams, listing, PullMember(studentId));
      assert Consistent(students, crRequests, pulled, memberRequests, nextId) by {
        UpdateKeepsTeamKeys(teams, listing, PullMember(studentId), nextId);
      }
      assert AtMostOne(teams, listing) ==> forall j :: 0 <= j < |pulled| ==> !listing(pulled[j]) by {
        if AtMostOne(teams, listing) {
          LeaveUnlists(teams, activityId, studentId);
        }
      }
      teams := pulled;
    }

    /** The deleteOne of /leave/team on alreadyJoined. */
    method DeleteCommitment(email: string, activityId: string)
      requires Valid()
      modifies this`alreadyJoined
      ensures Valid()
      ensures alreadyJoined == DeleteOne(old(alreadyJoined), CommitmentTo(email, activityId))
      ensures
        && old(AtMostOne(alreadyJoined, CommitmentTo(email, activityId)))
        && (forall i :: 0 <= i < |memberRequests| ==> !RequestForActivity(email, activityId)(memberRequests[i]))
        ==> !AlreadyJoined(alreadyJoined, memberRequests, email, activityId)
    {
      var commitment := CommitmentTo(email, activityId);
      var remaining := DeleteOne(alreadyJoined, commitment);
      assert
        && AtMostOne(alreadyJoined, commitment)
        && (forall i :: 0 <= i < |memberRequests| ==> !RequestForActivity(email, activityId)(memberRequests[i]))
        ==> !AlreadyJoined(remaining, memberRequests, email, activityId)
      by {
        if && AtMostOne(alreadyJoined, commitment)
           && forall i :: 0 <= i < |memberRequests| ==> !RequestForActivity(email, activityId)(memberRequests[i])
        {
          DeleteUncommits(alreadyJoined, memberRequests, email, activityId);
        }
      }
      alreadyJoined := remaining;
    }

    /** POST /leave/team: $pull the student from the first team of the
        activity that lists them, then delete one alreadyJoined record of
        the pair. */
    method LeaveTeam(email: string, studentId: string, activityId: string)
      requires Valid()
      modifies this`teams, this`alreadyJoined
      ensures Valid()
      ensures teams == UpdateOne(old(teams), TeamListing(activityId, studentId), PullMember(studentId))
      ensures alreadyJoined == DeleteOne(old(alreadyJoined), CommitmentTo(email, activityId))
      ensures old(AtMostOne(teams, TeamListing(activityId, studentId))) ==>
        forall j :: 0 <= j < |teams| ==> !TeamListing(activityId, studentId)(teams[j])
      ensures
        && old(AtMostOne(alreadyJoined, CommitmentTo(email, activityId)))
        && (forall i :: 0 <= i < |memberRequests| ==> !RequestForActivity(email, activityId)(memberRequests[i]))
        ==> !AlreadyJoined(alreadyJoined, memberRequests, email, activityId)
    {
      PullTeamMember(studentId, activityId);
      DeleteCommitment(email, activityId);
    }

    /** POST /remove/team-member: the same body as /leave/team. */
    method RemoveTeamMember(email: string, studentId: string, activityId: string)
      requires Valid()
      modifies this`teams, this`alreadyJoined
      ensures Valid()
      ensures teams == UpdateOne(old(teams), TeamListing(activityId, studentId), PullMember(studentId))
      ensures alreadyJoined == DeleteOne(old(alreadyJoined), CommitmentTo(email, activityId))
      ensures old(AtMostOne(teams, TeamListing(activityId, studentId))) ==>
        forall j :: 0 <= j < |teams| ==> !TeamListing(activityId, studentId)(teams[j])
      ensures
        && old(AtMostOne(alreadyJoined, CommitmentTo(email, activityId)))
        && (forall i :: 0 <= i < |memberRequests| ==> !RequestForActivity(email, activityId)(memberRequests[i]))
        ==> !AlreadyJoined(alreadyJoined, memberRequests, email, activityId)
    {
      LeaveTeam(email, studentId, activityId);
    }

    /** POST /update/team-details: $set name and title on the team with that
        _id; members and resources stay as they were. */
    method UpdateTeamDetails(teamId: Id, teamName: string, title: string)
      requires Valid()
      modifies this`teams
      ensures Valid()
      ensures teams == UpdateOne(old(teams), TeamWithId(teamId), SetDetails(teamName, title))
      ensures forall i :: 0 <= i < |teams| && teams[i].id == teamId ==>
        teams[i] == old(teams)[i].(teamName := teamName, title := title)
      ensures forall i :: 0 <= i < |teams| && teams[i].id != teamId ==> teams[i] == old(teams)[i]
    {
      UpdateKeepsTeamKeys(teams, TeamWithId(teamId), SetDetails(teamName, title), nextId);
      teams := UpdateOne(teams, TeamWithId(teamId), SetDetails(teamName, title));
    }

    /** POST /add/team-resource: append a resource with a generated
        identifier; a missing team is NotFound. */
    method AddTeamResource(teamId: Id, title: string, link: string, draws: seq<Digit>) returns (r: Reply)
      requires Valid()
      requires |draws| == IdentifierLength
      modifies this`teams
      ensures Valid()
      ensures r == NotFound || r == Success
      ensures r == NotFound <==> forall i :: 0 <= i < |old(teams)| ==> old(teams)[i].id != teamId
      ensures r == NotFound ==> teams == old(teams)
      ensures r == Success ==>
        match FindOne(old(teams), TeamWithId(teamId))
        case None => false
        case Some(team) =>
          teams == UpdateOne(old(teams), TeamWithId(teamId),
                             SetResources(ResourcesOf(team) + [Resource(Spell(draws), title, link)]))
      ensures |teams| == |old(teams)|
      ensures forall i :: 0 <= i < |teams| && teams[i].id == teamId ==>
        teams[i] == old(teams)[i].(teamResources := Some(ResourcesOf(old(teams)[i]) + [Resource(Spell(draws), title, link)]))
      ensures forall i :: 0 <= i < |teams| && teams[i].id != teamId ==> teams[i] == old(teams)[i]
    {
      var found := FindOne(teams, TeamWithId(teamId));
      if found.None? {
        return NotFound;
      }
      var resources := ResourcesOf(found.value);
      var identifier := GenerateRandomIdentifier(draws);
      var newResource := Resource(identifier, title, link);
      var extended: seq<Resource>;
      if |resources| == 0 {
        extended := [newResource];
      } else {
        extended := resources + [newResource];
      }
      assert extended == resources + [newResource];
      var updated := UpdateOne(teams, TeamWithId(teamId), SetResources(extended));
      assert Consistent(students, crRequests, updated, memberRequests, nextId) by {
        UpdateKeepsTeamKeys(teams, TeamWithId(teamId), SetResources(extended), nextId);
      }
      teams := updated;
      r := Success;
    }

    /** POST /update/team-resource: set title and link of the first resource
        carrying `identifier`, editing a copy of the array in place and
        writing it back. A missing team or identifier is NotFound. */
    method UpdateTeamResource(teamId: Id, title: string, link: string, identifier: string) returns (r: Reply)
      requires Valid()
      modifies this`teams
      ensures Valid()
      ensures r == NotFound || r == Success
      ensures r == NotFound <==>
        match FindOne(old(teams), TeamWithId(teamId))
        case None => true
        case Some(team) => forall k :: 0 <= k < |ResourcesOf(team)| ==> ResourcesOf(team)[k].identifier != identifier
      ensures r == NotFound ==> teams == old(teams)
      ensures r == Success ==>
        match FindOne(old(teams), TeamWithId(teamId))
        case None => false
        case Some(team) =>
          teams == UpdateOne(old(teams), TeamWithId(teamId),
                             SetResources(UpdateOne(ResourcesOf(team), ResourceWithIdentifier(identifier), Relabel(title, link))))
    {
      var found := FindOne(teams, TeamWithId(teamId));
      if found.None? {
        return NotFound;
      }
      var resources := ResourcesOf(found.value);
      var k := FindResourceIndex(resources, identifier);
      if k < 0 {
        return NotFound;
      }
      var buffer := new Resource[|resources|](j requires 0 <= j < |resources| => resources[j]);
      buffer[k] := buffer[k].(title := title, link := link);
      var edited := buffer[..];
      assert edited == UpdateOne(resources, ResourceWithIdentifier(identifier), Relabel(title, link)) by {
        assert FirstMatch(resources, ResourceWithIdentifier(identifier)) == Some(k);
      }
      var updated := UpdateOne(teams, TeamWithId(teamId), SetResources(edited));
      assert Consistent(students, crRequests, updated, memberRequests, nextId) by {
        UpdateKeepsTeamKeys(teams, TeamWithId(teamId), SetResources(edited), nextId);
      }
      teams := updated;
      r := Success;
    }

  }
}
