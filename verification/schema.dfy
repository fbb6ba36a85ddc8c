/**
  The record shapes of the election store and the request-body schemas that
  guard what callers may supply.

  A request body is modelled as the decoded JSON value: either an object whose
  fields are strings, integral numbers or anything else, or a non-object. The
  object schemas follow zod's default behaviour: a required field must be
  present with the declared type, an optional field may be absent, and keys
  the schema does not declare are dropped.
 */
module Schema {
  import opened Optional

  /** A row of the `candidates` table; `votes` is the tally. */
  datatype Candidate = Candidate(id: int, name: string, party: string, experience: string, votes: int)

  /** A row of the `votes` table. */
  datatype Vote = Vote(id: int, candidateId: int, voterToken: string)

  /** A row of the `admins` table; the password is stored in plain text. */
  datatype Admin = Admin(id: int, username: string, password: string)

  /** What a caller may supply to create a candidate: no `id`, no `votes`. */
  datatype InsertCandidate = InsertCandidate(name: string, party: string, experience: string)

  /** The partial form of `InsertCandidate` accepted when editing a candidate. */
  datatype CandidatePatch = CandidatePatch(name: Option<string>, party: Option<string>, experience: Option<string>)

  /** What a caller may supply to cast a vote: no `id`. */
  datatype InsertVote = InsertVote(candidateId: int, voterToken: string)

  /** What may be supplied to create an admin: no `id`. */
  datatype InsertAdmin = InsertAdmin(username: string, password: string)

  /** Admin credentials as submitted for login. */
  datatype AdminLogin = AdminLogin(username: string, password: string)

  /** A JSON field value, as far as the schemas distinguish it. */
  datatype Json = JString(str: string) | JInteger(num: int) | JOther

  /** A decoded request body. */
  datatype Body = JObject(fields: map<string, Json>) | JNonObject

  /** A required text field: present and a string. */
  function RequiredText(fields: map<string, Json>, key: string): Option<string> {
    if key in fields && fields[key].JString? then Some(fields[key].str) else None
  }

  /** An optional text field: `Some(None)` when absent, `None` when present but not a string. */
  function OptionalText(fields: map<string, Json>, key: string): Option<Option<string>> {
    if key !in fields then Some(None)
    else if fields[key].JString? then Some(Some(fields[key].str))
    else None
  }

  /** `insertCandidateSchema.parse`: `name`, `party` and `experience` must be strings. */
  function ParseInsertCandidate(body: Body): (r: Option<InsertCandidate>)
    ensures r.Some? <==>
      && body.JObject?
      && (forall key :: key in ["name", "party", "experience"] ==>
            key in body.fields && body.fields[key].JString?)
    ensures r.Some? ==>
      && r.value.name == body.fields["name"].str
      && r.value.party == body.fields["party"].str
      && r.value.experience == body.fields["experience"].str
  {
    match body
    case JNonObject => None
    case JObject(fields) =>
      match (RequiredText(fields, "name"), RequiredText(fields, "party"), RequiredText(fields, "experience"))
      case (Some(name), Some(party), Some(experience)) => Some(InsertCandidate(name, party, experience))
      case _ => None
  }

  /** `insertCandidateSchema.partial().parse`: each declared field may be absent, and must be a string if present. */
  function ParseCandidatePatch(body: Body): (r: Option<CandidatePatch>)
    ensures r.Some? <==>
      && body.JObject?
      && (forall key :: key in ["name", "party", "experience"] && key in body.fields ==>
            body.fields[key].JString?)
    ensures r.Some? ==>
      && (r.value.name.Some? <==> "name" in body.fields)
      && (r.value.party.Some? <==> "party" in body.fields)
      && (r.value.experience.Some? <==> "experience" in body.fields)
    ensures r.Some? ==>
      && (r.value.name.Some? ==> r.value.name.value == body.fields["name"].str)
      && (r.value.party.Some? ==> r.value.party.value == body.fields["party"].str)
      && (r.value.experience.Some? ==> r.value.experience.value == body.fields["experience"].str)
  {
    match body
    case JNonObject => None
    case JObject(fields) =>
      match (OptionalText(fields, "name"), OptionalText(fields, "party"), OptionalText(fields, "experience"))
      case (Some(name), Some(party), Some(experience)) => Some(CandidatePatch(name, party, experience))
      case _ => None
  }

  /** `insertVoteSchema.parse`: an integral `candidateId` and a string `voterToken` (which may be empty). */
  function ParseInsertVote(body: Body): (r: Option<InsertVote>)
    ensures r.Some? <==>
      && body.JObject?
      && "candidateId" in body.fields && body.fields["candidateId"].JInteger?
      && "voterToken" in body.fields && body.fields["voterToken"].JString?
    ensures r.Some? ==>
      r.value == InsertVote(body.fields["candidateId"].num, body.fields["voterToken"].str)
  {
    match body
    case JNonObject => None
    case JObject(fields) =>
      if "candidateId" in fields && fields["candidateId"].JInteger? then
        match RequiredText(fields, "voterToken")
        case Some(token) => Some(InsertVote(fields["candidateId"].num, token))
        case None => None
      else None
  }

  /** A non-empty text field (`z.string().min(1)`). */
  function NonEmptyText(fields: map<string, Json>, key: string): Option<string> {
    match RequiredText(fields, key)
    case Some(s) => if |s| >= 1 then Some(s) else None
    case None => None
  }

  /** `adminLoginSchema.parse`: `username` and `password` must be non-empty strings. */
  function ParseAdminLogin(body: Body): (r: Option<AdminLogin>)
    ensures r.Some? <==>
      && body.JObject?
      && "username" in body.fields && body.fields["username"].JString? && body.fields["username"].str != []
      && "password" in body.fields && body.fields["password"].JString? && body.fields["password"].str != []
    ensures r.Some? ==>
      r.value == AdminLogin(body.fields["username"].str, body.fields["password"].str)
  {
    match body
    case JNonObject => None
    case JObject(fields) =>
      match (NonEmptyText(fields, "username"), NonEmptyText(fields, "password"))
      case (Some(username), Some(password)) => Some(AdminLogin(username, password))
      case _ => None
  }

  /**
    Callers cannot set `id` or `votes`: whatever the body carries under those
    keys, creating and editing parse to the same input as without them.
   */
  lemma CandidateInputIgnoresIdAndVotes(fields: map<string, Json>, id: Json, votes: Json)
    ensures ParseInsertCandidate(JObject(fields["id" := id]["votes" := votes]))
         == ParseInsertCandidate(JObject(fields - {"id", "votes"}))
    ensures ParseCandidatePatch(JObject(fields["id" := id]["votes" := votes]))
         == ParseCandidatePatch(JObject(fields - {"id", "votes"}))
  {
    var with, without := fields["id" := id]["votes" := votes], fields - {"id", "votes"};
    assert forall key :: key in ["name", "party", "experience"] ==>
      (key in with <==> key in without) && (key in with ==> with[key] == without[key]);
  }

  /** Vote input carries only `candidateId` and `voterToken`: an `id` in the body is ignored. */
  lemma VoteInputIgnoresId(fields: map<string, Json>, id: Json)
    ensures ParseInsertVote(JObject(fields["id" := id])) == ParseInsertVote(JObject(fields - {"id"}))
  {
    var with, without := fields["id" := id], fields - {"id"};
    assert "candidateId" in with <==> "candidateId" in without;
    assert "voterToken" in with <==> "voterToken" in without;
  }
}
