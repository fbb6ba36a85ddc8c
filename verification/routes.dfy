/**
  The HTTP handlers of `registerRoutes`, each a function from the store and
  the request's path parameters and decoded body to the response (status code
  and JSON payload) and the next store. A handler that rejects a request
  returns the store unchanged.
 */
module Routes {
  import opened Optional
  import opened OrderedMaps
  import opened Schema
  import opened Storage
  import opened StorageFacts
  import Decimal

  /** The `:id` path parameter after `parseInt`: a number, or NaN when the text does not start with one. */
  datatype PathId = Num(n: int) | NaN

  /** One entry of the statistics listing. */
  datatype CandidateStat = CandidateStat(id: int, name: string, votes: int, percentage: string)

  /** The admin as the login response shows it: without the password. */
  datatype AdminView = AdminView(id: int, username: string)

  /** The JSON body of a response. A `ValidationError` also carries zod's issue list, which is not modelled. */
  datatype Payload =
    | CandidateList(candidates: seq<Candidate>)
    | CandidateRecord(candidate: Candidate)
    | VoteRecord(vote: Vote)
    | VoteStatus(hasVoted: bool)
    | Statistics(stats: seq<CandidateStat>, totalVotes: int, turnoutPercentage: string)
    | LoginSuccess(message: string, admin: AdminView)
    | Message(message: string)
    | ValidationError(message: string)

  datatype Response = Response(status: int, payload: Payload)

  const InvalidCandidateData := "Invalid candidate data"
  const CandidateNotFound := "Candidate not found"
  const CandidateDeleted := "Candidate deleted successfully"
  const InvalidVoteData := "Invalid vote data"
  const AlreadyVoted := "You have already voted"
  const InvalidLoginData := "Invalid login data"
  const InvalidCredentials := "Invalid username or password"
  const LoginSucceeded := "Login successful"

  /** The fixed turnout figure the statistics route reports. */
  const Turnout := "67.3"

  /**
    `GET /api/candidates`: every stored candidate and nothing else, in
    insertion order, which on a well-formed store is ascending id order.
   */
  function ListCandidates(s: Store): (r: Response)
    ensures r.status == 200 && r.payload.CandidateList?
    ensures forall c :: c in r.payload.candidates <==>
      exists k :: k in s.candidates.table && s.candidates.table[k] == c
    ensures Wf(s) ==> forall i, j :: 0 <= i < j < |r.payload.candidates| ==>
      r.payload.candidates[i].id < r.payload.candidates[j].id
  {
    var cs := GetCandidates(s);
    assert forall c :: c in cs <==> exists k :: k in s.candidates.table && s.candidates.table[k] == c by {
      forall c | c in cs ensures exists k :: k in s.candidates.table && s.candidates.table[k] == c {
        var k := ListedValueIsStored(s.candidates, c);
      }
      forall k | k in s.candidates.table ensures s.candidates.table[k] in cs {
        StoredValueIsListed(s.candidates, k);
      }
    }
    assert Wf(s) ==> forall i, j :: 0 <= i < j < |cs| ==> cs[i].id < cs[j].id by {
      if Wf(s) {
        CandidatesListedInIdOrder(s);
      }
    }
    Response(200, CandidateList(cs))
  }

  /** `POST /api/candidates`: 400 on a body the schema rejects, otherwise 201 with the created record. */
  function PostCandidate(s: Store, body: Body): (r: (Response, Store))
    ensures r.0.status == 201 <==> ParseInsertCandidate(body).Some?
    ensures r.0.status != 201 ==> r.0 == Response(400, ValidationError(InvalidCandidateData)) && r.1 == s
    ensures r.0.status == 201 ==>
      var c := Candidate(s.currentCandidateId, body.fields["name"].str, body.fields["party"].str,
                         body.fields["experience"].str, 0);
      && r.0.payload == CandidateRecord(c)
      && GetCandidate(r.1, c.id) == Some(c)
      && r.1.currentCandidateId == s.currentCandidateId + 1
      && (forall id :: id != c.id ==> GetCandidate(r.1, id) == GetCandidate(s, id))
      && r.1.votes == s.votes && r.1.admins == s.admins
      && r.1.currentVoteId == s.currentVoteId && r.1.currentAdminId == s.currentAdminId
    ensures r.1.candidates.table.Keys <= s.candidates.table.Keys + {s.currentCandidateId}
  {
    match ParseInsertCandidate(body)
    case None => (Response(400, ValidationError(InvalidCandidateData)), s)
    case Some(data) =>
      var (candidate, s') := CreateCandidate(s, data);
      (Response(201, CandidateRecord(candidate)), s')
  }

  /**
    `PATCH /api/candidates/:id`: the body is validated before the id is looked
    at, so a bad body is 400 even for an unknown id; an unknown id is 404.
   */
  function PatchCandidate(s: Store, id: PathId, body: Body): (r: (Response, Store))
    ensures ParseCandidatePatch(body).None? ==>
      r.0 == Response(400, ValidationError(InvalidCandidateData)) && r.1 == s
    ensures r.0.status == 200 <==>
      ParseCandidatePatch(body).Some? && id.Num? && GetCandidate(s, id.n).Some?
    ensures ParseCandidatePatch(body).Some? && r.0.status != 200 ==>
      r.0 == Response(404, Message(CandidateNotFound)) && r.1 == s
    ensures r.0.status == 200 ==>
      var before := GetCandidate(s, id.n).value;
      && r.0.payload.CandidateRecord?
      && GetCandidate(r.1, id.n) == Some(r.0.payload.candidate)
      && r.0.payload.candidate.id == before.id
      && r.0.payload.candidate.votes == before.votes
      && r.0.payload.candidate.name == (if "name" in body.fields then body.fields["name"].str else before.name)
      && r.0.payload.candidate.party == (if "party" in body.fields then body.fields["party"].str else before.party)
      && r.0.payload.candidate.experience ==
           (if "experience" in body.fields then body.fields["experience"].str else before.experience)
      && (forall j :: j != id.n ==> GetCandidate(r.1, j) == GetCandidate(s, j))
      && r.1.votes == s.votes && r.1.admins == s.admins
      && r.1.currentCandidateId == s.currentCandidateId
      && r.1.currentVoteId == s.currentVoteId && r.1.currentAdminId == s.currentAdminId
    ensures r.1.candidates.table.Keys <= s.candidates.table.Keys
  {
    match ParseCandidatePatch(body)
    case None => (Response(400, ValidationError(InvalidCandidateData)), s)
    case Some(patch) =>
      match id
      case NaN => (Response(404, Message(CandidateNotFound)), s)
      case Num(n) =>
        match UpdateCandidate(s, n, patch)
        case (None, _) => (Response(404, Message(CandidateNotFound)), s)
        case (Some(candidate), s') => (Response(200, CandidateRecord(candidate)), s')
  }

  /** `DELETE /api/candidates/:id`: 404 for an unknown id; vote rows are left in place. */
  function DeleteCandidateRoute(s: Store, id: PathId): (r: (Response, Store))
    ensures r.0.status == 200 <==> id.Num? && GetCandidate(s, id.n).Some?
    ensures r.0.status != 200 ==> r.0 == Response(404, Message(CandidateNotFound)) && r.1 == s
    ensures r.0.status == 200 ==>
      && r.0.payload == Message(CandidateDeleted)
      && GetCandidate(r.1, id.n).None?
      && (forall j :: j != id.n ==> GetCandidate(r.1, j) == GetCandidate(s, j))
      && r.1.votes == s.votes && r.1.admins == s.admins
      && r.1.currentCandidateId == s.currentCandidateId
      && r.1.currentVoteId == s.currentVoteId && r.1.currentAdminId == s.currentAdminId
    ensures r.1.candidates.table.Keys <= s.candidates.table.Keys
  {
    match id
    case NaN => (Response(404, Message(CandidateNotFound)), s)
    case Num(n) =>
      var (deleted, s') := DeleteCandidate(s, n);
      if deleted then (Response(200, Message(CandidateDeleted)), s')
      else (Response(404, Message(CandidateNotFound)), s)
  }

  /**
    `POST /api/votes`: the body is validated, then the token is checked, and
    only then the candidate, so a repeated token is refused with 400 even when
    the candidate does not exist.
   */
  function PostVote(s: Store, body: Body): (r: (Response, Store))
    ensures ParseInsertVote(body).None? ==>
      r.0 == Response(400, ValidationError(InvalidVoteData)) && r.1 == s
    ensures ParseInsertVote(body).Some? && HasVoted(s, ParseInsertVote(body).value.voterToken) ==>
      r.0 == Response(400, Message(AlreadyVoted)) && r.1 == s
    ensures r.0.status == 201 <==>
      && ParseInsertVote(body).Some?
      && !HasVoted(s, ParseInsertVote(body).value.voterToken)
      && GetCandidate(s, ParseInsertVote(body).value.candidateId).Some?
    ensures && ParseInsertVote(body).Some?
            && !HasVoted(s, ParseInsertVote(body).value.voterToken)
            && GetCandidate(s, ParseInsertVote(body).value.candidateId).None? ==>
      r.0 == Response(404, Message(CandidateNotFound)) && r.1 == s
    ensures r.0.status == 201 ==>
      var data := ParseInsertVote(body).value;
      var c := GetCandidate(s, data.candidateId).value;
      && r.0.payload == VoteRecord(Vote(s.currentVoteId, data.candidateId, data.voterToken))
      && Get(r.1.votes, s.currentVoteId) == Some(r.0.payload.vote)
      && (forall j :: j != s.currentVoteId ==> Get(r.1.votes, j) == Get(s.votes, j))
      && GetCandidate(r.1, c.id) == Some(c.(votes := c.votes + 1))
      && (forall j :: j != c.id ==> GetCandidate(r.1, j) == GetCandidate(s, j))
      && HasVoted(r.1, data.voterToken)
      && r.1.currentVoteId == s.currentVoteId + 1
      && r.1.admins == s.admins && r.1.currentCandidateId == s.currentCandidateId
  {
    match ParseInsertVote(body)
    case None => (Response(400, ValidationError(InvalidVoteData)), s)
    case Some(data) =>
      if HasVoted(s, data.voterToken) then (Response(400, Message(AlreadyVoted)), s)
      else if GetCandidate(s, data.candidateId).None? then (Response(404, Message(CandidateNotFound)), s)
      else
        var (vote, s') := CastVote(s, data);
        assert s'.votes.table[vote.id].voterToken == data.voterToken;
        (Response(201, VoteRecord(vote)), s')
  }

  /** `GET /api/votes/check/:token`: whether some vote row carries exactly this token. */
  function CheckVote(s: Store, token: string): (r: Response)
    ensures r.status == 200 && r.payload.VoteStatus?
    ensures r.payload.hasVoted <==> exists k :: k in s.votes.table && s.votes.table[k].voterToken == token
  {
    Response(200, VoteStatus(HasVoted(s, token)))
  }

  /** The running total of `candidates.reduce((sum, c) => sum + c.votes, acc)`. */
  function FoldTallies(cs: seq<Candidate>, acc: int): int {
    if |cs| == 0 then acc else FoldTallies(cs[1..], acc + cs[0].votes)
  }

  /** The sum of the tallies, the reference the fold is measured against. */
  function SumTallies(cs: seq<Candidate>): int {
    if |cs| == 0 then 0 else cs[0].votes + SumTallies(cs[1..])
  }

  /** The fold started at `acc` adds the sum of the tallies to `acc`. */
  lemma {:induction false} FoldIsSum(cs: seq<Candidate>, acc: int)
    ensures FoldTallies(cs, acc) == acc + SumTallies(cs)
    decreases |cs|
  {
    if |cs| > 0 {
      FoldIsSum(cs[1..], acc + cs[0].votes);
    }
  }

  /**
    The percentage text of one candidate: "0.0" while no votes have been
    counted, otherwise a decimal with one digit after the point whose value
    is the candidate's share rounded to the nearest tenth of a percent.
   */
  function ShareText(votes: int, total: int): (r: string)
    ensures total <= 0 ==> r == "0.0"
    ensures total > 0 && votes >= 0 ==>
      Decimal.IsTenthsText(r) && Decimal.TenthsValue(r) == Decimal.RoundedTenths(votes, total)
  {
    if total > 0 then Decimal.Percentage(votes, total) else "0.0"
  }

  /** `GET /api/votes/stats`: one entry per candidate in listing order, the total, and the fixed turnout. */
  function Stats(s: Store): (r: Response)
    ensures r.status == 200 && r.payload.Statistics?
    ensures r.payload.totalVotes == SumTallies(GetCandidates(s))
    ensures r.payload.turnoutPercentage == Turnout
    ensures |r.payload.stats| == |GetCandidates(s)|
    ensures forall i :: 0 <= i < |r.payload.stats| ==>
      var c := GetCandidates(s)[i];
      r.payload.stats[i] == CandidateStat(c.id, c.name, c.votes, ShareText(c.votes, r.payload.totalVotes))
  {
    var cs := GetCandidates(s);
    var total := FoldTallies(cs, 0);
    FoldIsSum(cs, 0);
    var stats := seq(|cs|, i requires 0 <= i < |cs| =>
      CandidateStat(cs[i].id, cs[i].name, cs[i].votes, ShareText(cs[i].votes, total)));
    Response(200, Statistics(stats, total, Turnout))
  }

  /**
    `POST /api/admin/login`: 400 on a body the schema rejects; 401 unless the
    first admin with that username has exactly that password; otherwise 200
    with the admin's id and username.
   */
  function Login(s: Store, body: Body): (r: Response)
    ensures ParseAdminLogin(body).None? ==> r == Response(400, ValidationError(InvalidLoginData))
    ensures ParseAdminLogin(body).Some? ==>
      var login := ParseAdminLogin(body).value;
      var found := GetAdminByUsername(s, login.username);
      && (r.status == 200 <==> found.Some? && found.value.password == login.password)
      && (r.status != 200 ==> r == Response(401, Message(InvalidCredentials)))
      && (r.status == 200 ==> r.payload == LoginSuccess(LoginSucceeded, AdminView(found.value.id, login.username)))
  {
    match ParseAdminLogin(body)
    case None => Response(400, ValidationError(InvalidLoginData))
    case Some(login) =>
      match GetAdminByUsername(s, login.username)
      case None => Response(401, Message(InvalidCredentials))
      case Some(admin) =>
        if admin.password != login.password then Response(401, Message(InvalidCredentials))
        else Response(200, LoginSuccess(LoginSucceeded, AdminView(admin.id, admin.username)))
  }
}
