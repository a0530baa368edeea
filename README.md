# UniHub team membership

A Dafny model of the team-membership bookkeeping of the UniHub server
(`index.js`). The server is a set of Express handlers over a MongoDB database.
Each state-changing handler of the team-membership core is modelled as one atomic step on a `Database`
object. That object holds one sequence of documents per collection: `students`,
`allCR`, `allTeam` (each team has embedded `teamMembers` and `teamResources`
arrays), `memberRequests` and `alreadyJoined`.

Modules:

- `Mongo`: the collection semantics the handlers rely on. A collection is a
  sequence in insertion order, and a filter is a predicate.
  - `findOne` returns the first match.
  - `updateOne` and `deleteOne` act only on the first match.
  - `insertOne` and `$push` append.
  - `$pull` removes every matching element and keeps the rest in order.
- `Records`: the documents and the query filters the handlers build.
- `Identifiers`: `generateRandomIdentifier`, the ten-digit identifier of a
  team resource, and the proof that its digits read back as the draws.
- `Ledger`: the pure `/already/joined` check and the join-request guard.
  It also holds what they imply about the `alreadyJoined` and
  `memberRequests` collections.
- `UniHub`: the `Database` class, with one method per state-changing
  handler. Its invariant `Valid` says:
  - one student per email;
  - one CR claim per section;
  - one team per (creator email, activityId);
  - team and request `_id`s are distinct and below the next id to be issued.

Each handler's contract gives the new contents of the collections it writes,
in terms of the old ones.
Lemmas about the `Mongo` functions state what the handlers achieve:
- leaving unlists the student, when at most one team of the activity lists them;
- accepting makes the already-joined check true;
- answering a request keeps one pending request per (teamId, email), and keeps every stored request pending;
- updating by `_id` changes the team with that id, if there is one, and no other team.

## Model

The `Records` filter functions (StudentWithEmail, CrForSection, TeamWithId, TeamOwnedBy, TeamListing, MemberWithStudentId, ResourceWithIdentifier, RequestWithId, RequestToTeam, RequestForActivity) are the literal query documents of index.js:46-48, 85-87, 140-143, 182-185, 208, 261-264, 277-282, 298, 376-378; they carry no contract of their own.

| member | source | states |
|---|---|---|
| Mongo.FirstMatch | index.js:46-48 | returns None exactly when no document matches; otherwise a position of a matching document with no match before it (the document findOne returns and updateOne/deleteOne act on) |
| Mongo.FindOne | index.js:46-52 | a document is returned exactly when some document matches the filter; the returned document is the first matching document of the collection |
| Mongo.UpdateOne | index.js:227-239 | length is kept; non-matching documents are kept; with no match nothing changes; otherwise only the first match is replaced by the update applied to it |
| Mongo.Without | index.js:282 | the $pull result holds no matching element and has as many elements as the input has non-matching ones |
| Mongo.WithoutMembers | index.js:282 | an element survives $pull exactly when it was present and does not match |
| Mongo.WithoutAppend | index.js:282 | $pull distributes over concatenation, so the kept elements stay in order |
| Mongo.WithoutNoMatch | index.js:282 | $pull with nothing to pull leaves the array unchanged |
| Mongo.WithoutIdempotent | index.js:315 | pulling the same studentId twice is the same as pulling once |
| Mongo.DeleteOne | index.js:208 | deleteOne removes only matching documents, one fewer match when any matched, and nothing when none matched |
| Mongo.DeleteOneShift | index.js:241 | deleteOne removes exactly the first match and shifts the later documents down one place |
| Mongo.DeleteOneEffect | index.js:286-289 | every non-matching document survives deleteOne; when at most one document matched, none matches afterwards |
| Mongo.AtMostOneIffCount | index.js:286-289 | a filter matches at most one position exactly when it matches at most one document by count |
| Mongo.CountAppend | index.js:286-289 | the number of matches of a concatenation is the sum of the two parts' matches |
| Mongo.DeleteAt | index.js:208 | removing a matching document at a position keeps the $pull of the collection and lowers the match count by one |
| Identifiers.DigitChar | index.js:345 | the character appended for a draw is a decimal digit whose value is the draw |
| Identifiers.Spell | index.js:342-348 | the identifier has one character per draw, each a decimal digit |
| Identifiers.Digits | index.js:342-348 | the digit values of a digit string are in 0..9, one per character |
| Identifiers.DigitsOfSpell | index.js:342-348 | reading the digits of an identifier back gives the draws, so distinct draws give distinct identifiers |
| Identifiers.GenerateRandomIdentifier | index.js:342-348 | the loop builds the spelling of the ten draws: a ten-character string of decimal digits |
| Ledger.AlreadyJoined | index.js:252-271 | true exactly when an alreadyJoined record or a member request exists for (email, activityId) |
| Ledger.JoinRefused | index.js:182-189 | true exactly when the first stored request for (teamId, email) exists and has status "pending" |
| Ledger.JoinKeepsOnePending | index.js:179-193 | when every stored request is pending and one per pair, admitting a pending request the guard lets through keeps both properties |
| Ledger.DeleteKeepsOnePending | index.js:205-210 | deleteOne on memberRequests keeps one pending request per pair, whatever the stored statuses |
| Ledger.DeleteKeepsAllPending | index.js:205-210 | deleteOne on memberRequests keeps every stored request pending |
| Ledger.RemoveKeepsOnePending | index.js:241 | removing the request at one position keeps one pending request per pair |
| Ledger.GuardSeesOnlyFirst | index.js:182-189 | in any collection whose first request for (teamId, email) is not pending but which also stores a pending one for the pair, the guard lets another pending request in, leaving two pending requests for the pair |
| Ledger.DeleteUncommits | index.js:286-289 | after deleting the only alreadyJoined record of the pair, with no member request for it, the already-joined check is false |
| Records.ResourcesOf | index.js:340 | an absent teamResources reads as the empty array: a present array is read as it is, and the result is empty exactly when the array is absent or empty |
| Records.CommitmentTo | index.js:286-289 | the query `{ email, activityId }` on alreadyJoined matches exactly the one record of the pair |
| UniHub.PushMemberEffect | index.js:230-237 | the $push of a member puts it after the existing members, which keep their order, and changes no other field of the team |
| UniHub.PullMemberEffect | index.js:282 | after the $pull a member is left exactly when it was there and has another studentId; no other field changes; the team no longer matches the listing query |
| UniHub.SetDetailsEffect | index.js:300 | the $set gives teamName and title their new values and leaves every other field |
| UniHub.SetResourcesEffect | index.js:385 | after the $set of teamResources the team reads back exactly the array that was set, and no other field changes |
| UniHub.RelabelEffect | index.js:380-381 | editing a resource sets its title and link and keeps its identifier |
| UniHub.UpdateKeepsTeamKeys | index.js:295-304 | an update that keeps a team's _id, creator and activity keeps one team per owner and distinct team ids |
| UniHub.UpdateById | index.js:298-301 | with distinct team ids, updateOne by _id changes the team with that id, if there is one, and no other team |
| UniHub.LeaveWithNothingToDo | index.js:274-292 | when no team of the activity lists the student and no alreadyJoined record exists, leaving changes neither collection |
| UniHub.LeaveUnlists | index.js:277-284 | if at most one team of the activity lists the student, after the $pull no team of the activity lists them |
| UniHub.RequestDeleted | index.js:205-210 | deleting by _id removes the request with that id, keeps every other request and keeps request ids distinct |
| UniHub.RequestIdsKept | index.js:208 | deleting a request by _id keeps request ids distinct and below the next id |
| UniHub.RemoveKeepsIds | index.js:241 | removing the request at one position keeps request ids distinct and below the bound |
| UniHub.RequestIdGone | index.js:208 | after deleting by _id no request carries that id |
| UniHub.FindResourceIndex | index.js:376-378 | returns -1 exactly when no resource has the identifier, and otherwise the first index that does |
| UniHub.Database.constructor | index.js:31-40 | starts with every collection empty and the invariant holding |
| UniHub.Database.CreateStudent | index.js:43-56 | alreadyExists exactly when a student with the email exists, and then nothing changes; otherwise exactly that student is appended; either way a student with the email exists afterwards |
| UniHub.Database.RequestCr | index.js:82-99 | success exactly when no claim for the section exists, and then the claim is appended; otherwise the standing claim's status and name are returned with nothing written |
| UniHub.Database.AddNewTeam | index.js:137-157 | exists exactly when a team of that creator and activity exists, and then nothing changes; otherwise the team is appended with a fresh _id, followed by one alreadyJoined record, after which the already-joined check holds |
| UniHub.Database.RequestToJoin | index.js:179-193 | exists exactly when the guard refuses, and then nothing is inserted; otherwise the request is appended with a fresh _id; a first pending request makes the next one for the pair be refused; all-pending and one-pending-per-pair are kept when the new request is pending |
| UniHub.Database.DeleteRequest | index.js:208 | the deleteOne by _id shared by reject and accept: memberRequests becomes deleteOne by _id; no request with the id remains; every other request is kept; one pending request per pair is kept, and so is all-pending, each on its own |
| UniHub.Database.RejectMemberRequest | index.js:205-210 | success in every case; memberRequests becomes deleteOne by _id; no request with the id remains; every other request is kept; teams and alreadyJoined are untouched; one pending request per pair is kept, and so is all-pending, each on its own |
| UniHub.Database.PushTeamMember | index.js:227-239 | teams becomes updateOne by _id with the member pushed |
| UniHub.Database.RecordCommitment | index.js:243-246 | one alreadyJoined record is appended, after which the already-joined check holds |
| UniHub.Database.AcceptMemberRequest | index.js:213-249 | not-found exactly when no request has the id, with nothing written; otherwise the member (name and studentId from the request, email and activityId from the query) is pushed onto the team with the id, the request is deleted and a commitment appended, after which the already-joined check holds; one pending request per pair is kept, and so is all-pending, each on its own |
| UniHub.Database.PullTeamMember | index.js:277-284 | teams becomes updateOne on the first team of the activity listing the student, pulling every member with that studentId; with at most one such team, none lists the student afterwards |
| UniHub.Database.DeleteCommitment | index.js:286-289 | alreadyJoined becomes deleteOne of the pair's record; with one record and no member request, the already-joined check is false afterwards |
| UniHub.Database.LeaveTeam | index.js:274-292 | the $pull on the first listing team followed by deleteOne of the pair's alreadyJoined record, with the unlisting and un-joining consequences |
| UniHub.Database.RemoveTeamMember | index.js:307-325 | exactly the effect of leaving the team |
| UniHub.Database.UpdateTeamDetails | index.js:295-304 | the team with the _id gets the new name and title and keeps everything else; every other team is unchanged |
| UniHub.Database.AddTeamResource | index.js:328-365 | not-found exactly when no team has the _id, with no change; otherwise that team's resources become the old ones (empty if absent) followed by the new resource with the generated identifier, in both branches; other teams are unchanged |
| UniHub.Database.UpdateTeamResource | index.js:368-389 | not-found exactly when the team or the identifier is missing, with no change; otherwise the team's resources become the old ones with title and link changed only at the first resource carrying the identifier |

## Left out

- Express setup, CORS, cookie parsing, `app.listen` and the exact JSON response bodies: transport only. The replies are reduced to the `Reply` datatype, and a handler's HTTP status is not modelled.
- The MongoDB connection and credentials.
- `ObjectId` string parsing: ids are natural numbers issued from a counter by every insert into `allTeam` and `memberRequests`. Students and CR claims get no modelled `_id`, because no modelled handler reads it.
- `Math.random`: the ten draws are a parameter of `AddTeamResource` and `GenerateRandomIdentifier`. Identifiers are not checked for collisions, and neither is the source.
- The read-only handlers (`/student/info`, `/cr/status`, `/get/all-activity`, `/activity/details`, `/get/all-teams`, `/team/details`, `/get/member-requests`): each only forwards a query result.
- `/update/section` and `/add/activity`: outside the modelled core. `/update/section` sets `selectedSection` on the student with a given `_id`; students here carry neither field. `/add/activity` inserts into `allActivity`, which is not held.
- Interleaving of concurrent requests between awaits, and a crash partway through a handler: every handler is one atomic step.
- A document's fields that no modelled handler reads or writes: request bodies are stored as sent, but a student keeps only its email and a CR claim only its section, name and status. An absent `teamMembers` array is modelled as empty.
- AcceptMemberRequest: when the request is missing, the source throws at `member.name` before any write. The model returns NotFound with nothing written.
- UpdateTeamResource: when the team or the identifier is missing, the source throws (`team.teamResources`, `teamResources[-1]`) before any write. The model returns NotFound with nothing written.
- Where the model follows the code rather than the intended behaviour:
  - Rejecting does not check that the request exists: it runs deleteOne by `_id` and replies success either way. Accepting does not check that the team exists.
  - An accept whose team is missing still deletes the request and records the commitment.
  - The join guard looks only at the first stored request for the pair (`Ledger.GuardSeesOnlyFirst`). So a join is proved to keep one pending request per pair only while every stored request is pending. Deletes keep it whatever the statuses.
  - Nothing stops the same member from being pushed twice.
  - Nothing stops two teams of one activity from listing the same student. Accept pushes onto whichever team it is given, and the `$pull` of /leave/team reaches only the first listing team. So `UniHub.LeaveUnlists` and the unlisting clause of LeaveTeam are stated under the hypothesis that at most one team of the activity lists the student.
  - Nothing stops duplicate `alreadyJoined` records. This is why the un-joining consequences of leaving are stated under the hypothesis that at most one record exists.
