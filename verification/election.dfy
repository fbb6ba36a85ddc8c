/**
  The server as a whole: one store shared by every route, requests handled
  one after another (each handler runs to completion against the store the
  previous one left), starting from the store `MemStorage`'s constructor
  builds.
 */
module Election {
  import opened Optional
  import opened OrderedMaps
  import opened Schema
  import opened Storage
  import opened Routes

  /** A request to one of the routes, with its path parameters and decoded body. */
  datatype Request =
    | ListCandidatesRequest
    | CreateCandidateRequest(body: Body)
    | UpdateCandidateRequest(id: PathId, body: Body)
    | DeleteCandidateRequest(id: PathId)
    | CastVoteRequest(body: Body)
    | CheckVoteRequest(token: string)
    | StatsRequest
    | LoginRequest(body: Body)

  /**
    Dispatch to the route. A refused request (status 400 or above) leaves the
    store as it was; counters never go back; no route touches the admins.
   */
  function Handle(s: Store, req: Request): (r: (Response, Store))
    ensures r.0.status >= 400 ==> r.1 == s
    ensures r.1.currentCandidateId >= s.currentCandidateId
    ensures r.1.currentVoteId >= s.currentVoteId
    ensures r.1.admins == s.admins && r.1.currentAdminId == s.currentAdminId
  {
    match req
    case ListCandidatesRequest => (ListCandidates(s), s)
    case CreateCandidateRequest(body) => PostCandidate(s, body)
    case UpdateCandidateRequest(id, body) => PatchCandidate(s, id, body)
    case DeleteCandidateRequest(id) => DeleteCandidateRoute(s, id)
    case CastVoteRequest(body) => PostVote(s, body)
    case CheckVoteRequest(token) => (CheckVote(s, token), s)
    case StatsRequest => (Stats(s), s)
    case LoginRequest(body) => (Login(s, body), s)
  }

  /** Handling `reqs` in order: the responses, one per request, and the final store. */
  function Run(s: Store, reqs: seq<Request>): (r: (seq<Response>, Store))
    ensures |r.0| == |reqs|
    ensures r.1.currentCandidateId >= s.currentCandidateId
    ensures r.1.currentVoteId >= s.currentVoteId
    ensures r.1.admins == s.admins && r.1.currentAdminId == s.currentAdminId
    decreases |reqs|
  {
    if |reqs| == 0 then ([], s)
    else
      var (response, s1) := Handle(s, reqs[0]);
      var (rest, s2) := Run(s1, reqs[1..]);
      ([response] + rest, s2)
  }
}
