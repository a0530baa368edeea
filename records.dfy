/**
 * The documents of the UniHub database and the query filters the handlers
 * build over them. Request bodies are stored as sent, so only the fields a
 * handler reads or writes are modelled.
 */
module Records {
  import opened Mongo

  /** An ObjectId. Its 24-hex-digit string form and the parsing done by
      `new ObjectId(..)` are not modelled: the handlers' id strings stand for
      the ids they parse to. */
  type Id = nat

  /** The status a join request carries while it waits for an answer. */
  const Pending: string := "pending"

  /** A document of the `students` collection, reduced to the one field a
      modelled handler reads. */
  datatype Student = Student(email: string)

  /** A document of the `allCR` collection: one class-representative claim,
      reduced to the fields /request/CR reads. */
  datatype CrRequest = CrRequest(section: string, name: string, status: string)

  /** An element of a team's embedded `teamMembers` array. */
  datatype Member = Member(name: string, studentId: string, email: string, activityId: string)

  /** An element of a team's embedded `teamResources` array. */
  datatype Resource = Resource(identifier: string, title: string, link: string)

  /** A document of the `allTeam` collection. `teamResources` may be absent
      until the first resource is added. */
  datatype Team = Team(
    id: Id,
    email: string,
    activityId: string,
    teamName: string,
    title: string,
    teamMembers: seq<Member>,
    teamResources: Option<seq<Resource>>)

  /** A document of the `memberRequests` collection. */
  datatype MemberRequest = MemberRequest(
    id: Id,
    teamId: Id,
    email: string,
    studentId: string,
    name: string,
    activityId: string,
    status: string)

  /** A document of the `alreadyJoined` collection. */
  datatype Commitment = Commitment(email: string, activityId: string)

  /** `team.teamResources || []`: an absent array reads as empty. */
  function ResourcesOf(t: Team): (resources: seq<Resource>)
    ensures t.teamResources.Some? ==> resources == t.teamResources.value
    ensures resources == [] <==> t.teamResources == None || t.teamResources == Some([])
  {
    t.teamResources.GetOr([])
  }

  // The filters the handlers pass to findOne, updateOne and deleteOne,
  // and the element filter of the one $pull.

  /** `{ email }` on `students`. */
  function StudentWithEmail(email: string): Student -> bool
  {
    (s: Student) => s.email == email
  }

  /** `{ section }` on `allCR`. */
  function CrForSection(section: string): CrRequest -> bool
  {
    (c: CrRequest) => c.section == section
  }

  /** `{ _id }` on `allTeam`. */
  function TeamWithId(id: Id): Team -> bool
  {
    (t: Team) => t.id == id
  }

  /** `{ email, activityId }` on `allTeam`: the creator's team for an activity. */
  function TeamOwnedBy(email: string, activityId: string): Team -> bool
  {
    (t: Team) => t.email == email && t.activityId == activityId
  }

  /** `{ activityId, "teamMembers.studentId": studentId }`: the dotted path
      matches a team when some element of its `teamMembers` array matches the
      element filter of the $pull. */
  function TeamListing(activityId: string, studentId: string): Team -> bool
  {
    (t: Team) => t.activityId == activityId && exists m :: m in t.teamMembers && m.studentId == studentId
  }

  /** `{ studentId }`: the element filter of the $pull on `teamMembers`. */
  function MemberWithStudentId(studentId: string): Member -> bool
  {
    (m: Member) => m.studentId == studentId
  }

  /** `resource.identifier === identifier`: the findIndex predicate. */
  function ResourceWithIdentifier(identifier: string): Resource -> bool
  {
    (r: Resource) => r.identifier == identifier
  }

  /** `{ _id }` on `memberRequests`. */
  function RequestWithId(id: Id): MemberRequest -> bool
  {
    (q: MemberRequest) => q.id == id
  }

  /** `{ teamId, email }`: the join-request duplicate check. */
  function RequestToTeam(teamId: Id, email: string): MemberRequest -> bool
  {
    (q: MemberRequest) => q.teamId == teamId && q.email == email
  }

  /** `{ email, activityId }` on `memberRequests`. */
  function RequestForActivity(email: string, activityId: string): MemberRequest -> bool
  {
    (q: MemberRequest) => q.email == email && q.activityId == activityId
  }

  /** `{ email, activityId }` on `alreadyJoined`: since a record holds just
      these two fields, the filter matches exactly the one record of the pair. */
  function CommitmentTo(email: string, activityId: string): (p: Commitment -> bool)
    ensures forall c :: p(c) <==> c == Commitment(email, activityId)
  {
    (c: Commitment) => c.email == email && c.activityId == activityId
  }
}
