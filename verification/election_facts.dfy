/**
  What holds of every store the server reaches: it stays well formed, every
  tally equals the number of vote rows naming that candidate, no two vote rows
  share a token, and no two admins share a username. From these: the total
  the statistics route reports is the number of votes for candidates that
  still exist (all votes, as long as no voted-for candidate was deleted),
  a token is accepted at most once, and login succeeds exactly for stored
  credentials.
 */
module ElectionFacts {
  import opened Optional
  import opened OrderedMaps
  import opened Schema
  import opened Storage
  import opened StorageFacts
  import opened Routes
  import opened Election
  import opened Tally

  /** Every tally equals the number of vote rows naming that candidate. */
  ghost predicate TalliesMatch(s: Store) {
    forall k :: k in s.candidates.table ==> s.candidates.table[k].votes == CountFor(GetVotes(s), k)
  }

  /** Every vote row names a candidate id the counter has already issued. */
  ghost predicate VotesIssued(s: Store) {
    forall k :: k in s.votes.table ==> s.votes.table[k].candidateId < s.currentCandidateId
  }

  /** Every vote row names a candidate that still exists. */
  ghost predicate NoOrphans(s: Store) {
    forall k :: k in s.votes.table ==> s.votes.table[k].candidateId in s.candidates.table
  }

  /** The invariant of every store the server reaches. */
  ghost predicate Consistent(s: Store) {
    && Wf(s)
    && TalliesMatch(s)
    && VotesIssued(s)
    && TokensUnique(s)
    && UsernamesUnique(s)
  }

  /** The number of vote rows that name a candidate still listed. */
  function LiveVotes(s: Store): nat {
    Live(GetCandidates(s), GetVotes(s))
  }

  // ------------------------------------------------------------ well-formedness

  /** Every route keeps a well-formed store well formed. */
  lemma HandleKeepsWf(s: Store, req: Request)
    requires Wf(s)
    ensures Wf(Handle(s, req).1)
  {
    match req {
      case CreateCandidateRequest(body) =>
        if ParseInsertCandidate(body).Some? {
          CreateCandidateFacts(s, ParseInsertCandidate(body).value);
        }
      case UpdateCandidateRequest(id, body) =>
        if ParseCandidatePatch(body).Some? && id.Num? {
          UpdateCandidateFacts(s, id.n, ParseCandidatePatch(body).value);
        }
      case DeleteCandidateRequest(id) =>
        if id.Num? {
          DeleteCandidateKeepsWf(s, id.n);
        }
      case CastVoteRequest(body) =>
        if ParseInsertVote(body).Some? {
          CastVoteFacts(s, ParseInsertVote(body).value);
        }
      case _ =>
    }
  }

  /**
    On a well-formed store no route changes or removes a stored vote row, and
    the only candidate id a route can add is the one the counter stands at.
   */
  lemma HandleFrame(s: Store, req: Request)
    requires Wf(s)
    ensures var s' := Handle(s, req).1;
      && (forall k :: k in s.votes.table ==> k in s'.votes.table && s'.votes.table[k] == s.votes.table[k])
      && (forall k :: k in s'.candidates.table && k !in s.candidates.table ==> k == s.currentCandidateId)
  {
    if req.CastVoteRequest? && ParseInsertVote(req.body).Some? {
      CastVoteFacts(s, ParseInsertVote(req.body).value);
    }
  }

  // -------------------------------------------------------------------- tokens

  /** Every route keeps vote tokens unique: a token already used is refused before any row is stored. */
  lemma HandleKeepsTokensUnique(s: Store, req: Request)
    requires Wf(s) && TokensUnique(s)
    ensures TokensUnique(Handle(s, req).1)
  {
    if req.CastVoteRequest? && Handle(s, req).0.status == 201 {
      var data := ParseInsertVote(req.body).value;
      var s' := Handle(s, req).1;
      CastVoteFacts(s, data);
      forall k1, k2 | k1 in s'.votes.table && k2 in s'.votes.table && k1 != k2
        ensures s'.votes.table[k1].voterToken != s'.votes.table[k2].voterToken
      {
        if k1 != s.currentVoteId && k2 != s.currentVoteId {
          assert s'.votes.table[k1] == s.votes.table[k1] && s'.votes.table[k2] == s.votes.table[k2];
        } else if k1 == s.currentVoteId {
          assert s'.votes.table[k2] == s.votes.table[k2];
        } else {
          assert s'.votes.table[k1] == s.votes.table[k1];
        }
      }
    }
  }

  // ------------------------------------------------------------------- tallies

  /** A candidate id the counter has not issued yet is named by no vote row. */
  lemma UnissuedIdHasNoVotes(s: Store)
    requires Wf(s) && VotesIssued(s)
    ensures CountFor(GetVotes(s), s.currentCandidateId) == 0
  {
    var vs := GetVotes(s);
    forall i | 0 <= i < |vs| ensures vs[i].candidateId != s.currentCandidateId {
      assert s.votes.order[i] in s.votes.table;
    }
    CountForPositive(vs, s.currentCandidateId);
  }

  lemma PostCandidateKeepsTallies(s: Store, body: Body)
    requires Wf(s) && TalliesMatch(s) && VotesIssued(s)
    ensures TalliesMatch(PostCandidate(s, body).1) && VotesIssued(PostCandidate(s, body).1)
  {
    var (r, s') := PostCandidate(s, body);
    if r.status == 201 {
      UnissuedIdHasNoVotes(s);
      forall k | k in s'.candidates.table ensures s'.candidates.table[k].votes == CountFor(GetVotes(s'), k) {
        if k != s.currentCandidateId {
          assert GetCandidate(s', k) == GetCandidate(s, k);
        }
      }
    }
  }

  lemma PatchCandidateKeepsTallies(s: Store, id: PathId, body: Body)
    requires Wf(s) && TalliesMatch(s) && VotesIssued(s)
    ensures TalliesMatch(PatchCandidate(s, id, body).1) && VotesIssued(PatchCandidate(s, id, body).1)
  {
    var (r, s') := PatchCandidate(s, id, body);
    if r.status == 200 {
      forall k | k in s'.candidates.table ensures s'.candidates.table[k].votes == CountFor(GetVotes(s'), k) {
        assert GetCandidate(s', k).Some?;
        if k != id.n {
          assert GetCandidate(s', k) == GetCandidate(s, k);
        }
      }
    }
  }

  lemma DeleteCandidateKeepsTallies(s: Store, id: PathId)
    requires Wf(s) && TalliesMatch(s) && VotesIssued(s)
    ensures TalliesMatch(DeleteCandidateRoute(s, id).1) && VotesIssued(DeleteCandidateRoute(s, id).1)
  {
    var (r, s') := DeleteCandidateRoute(s, id);
    if r.status == 200 {
      forall k | k in s'.candidates.table ensures s'.candidates.table[k].votes == CountFor(GetVotes(s'), k) {
        assert GetCandidate(s', k).Some?;
        assert GetCandidate(s', k) == GetCandidate(s, k);
      }
    }
  }

  /** Casting a vote for an existing candidate adds one to its tally and one row naming it. */
  lemma CastVoteKeepsTallies(s: Store, data: InsertVote)
    requires Wf(s) && TalliesMatch(s)
    requires data.candidateId in s.candidates.table
    ensures TalliesMatch(CastVote(s, data).1)
  {
    var (v, s') := CastVote(s, data);
    CastVoteFacts(s, data);
    forall k | k in s'.candidates.table ensures s'.candidates.table[k].votes == CountFor(GetVotes(s'), k) {
      CountForAppend(GetVotes(s), v, k);
      assert GetCandidate(s', k).Some?;
      if k != data.candidateId {
        assert GetCandidate(s', k) == GetCandidate(s, k);
      }
    }
  }

  /** Casting a vote for an existing candidate stores a row naming an issued id. */
  lemma CastVoteKeepsVotesIssued(s: Store, data: InsertVote)
    requires Wf(s) && VotesIssued(s)
    requires data.candidateId in s.candidates.table
    ensures VotesIssued(CastVote(s, data).1)
  {
    var (v, s') := CastVote(s, data);
    assert data.candidateId in s.candidates.order;
    forall k | k in s'.votes.table ensures s'.votes.table[k].candidateId < s'.currentCandidateId {
      if k != v.id {
        assert Get(s'.votes, k) == Get(s.votes, k);
      }
    }
  }

  lemma PostVoteKeepsTallies(s: Store, body: Body)
    requires Wf(s) && TalliesMatch(s) && VotesIssued(s)
    ensures TalliesMatch(PostVote(s, body).1) && VotesIssued(PostVote(s, body).1)
  {
    var r := PostVote(s, body).0;
    if r.status == 201 {
      var data := ParseInsertVote(body).value;
      CastVoteKeepsTallies(s, data);
      CastVoteKeepsVotesIssued(s, data);
    }
  }

  /** Every route keeps the tallies equal to the vote rows and every row naming an issued candidate id. */
  lemma HandleKeepsTallies(s: Store, req: Request)
    requires Wf(s) && TalliesMatch(s) && VotesIssued(s)
    ensures TalliesMatch(Handle(s, req).1) && VotesIssued(Handle(s, req).1)
  {
    match req {
      case CreateCandidateRequest(body) => PostCandidateKeepsTallies(s, body);
      case UpdateCandidateRequest(id, body) => PatchCandidateKeepsTallies(s, id, body);
      case DeleteCandidateRequest(id) => DeleteCandidateKeepsTallies(s, id);
      case CastVoteRequest(body) => PostVoteKeepsTallies(s, body);
      case _ =>
    }
  }

  // ----------------------------------------------------------------- reachable

  /** Every route keeps the store consistent. */
  lemma HandleKeepsConsistent(s: Store, req: Request)
    requires Consistent(s)
    ensures Consistent(Handle(s, req).1)
  {
    HandleKeepsWf(s, req);
    HandleKeepsTokensUnique(s, req);
    HandleKeepsTallies(s, req);
  }

  /** Any sequence of requests keeps the store consistent. */
  lemma {:induction false} RunKeepsConsistent(s: Store, reqs: seq<Request>)
    requires Consistent(s)
    ensures Consistent(Run(s, reqs).1)
    decreases |reqs|
  {
    if |reqs| > 0 {
      HandleKeepsConsistent(s, reqs[0]);
      RunKeepsConsistent(Handle(s, reqs[0]).1, reqs[1..]);
    }
  }

  /** The store the constructor builds is consistent. */
  lemma InitConsistent()
    ensures Consistent(Init())
  {
    InitState();
    SeededShapeConsistent(Init());
  }

  /** A well-formed store shaped as the constructor leaves it is consistent. */
  lemma SeededShapeConsistent(s: Store)
    requires Wf(s)
    requires GetCandidates(s) == [
      Candidate(1, "John Mitchell", "Democratic Party", "15 years in public service", 0),
      Candidate(2, "Sarah Chen", "Republican Party", "Former Mayor, 8 years", 0),
      Candidate(3, "Robert Taylor", "Independent", "Business Leader, Community Advocate", 0)]
    requires Values(s.admins) == [Admin(1, "UNIQUE", "UNIQUE123")]
    requires GetVotes(s) == []
    ensures Consistent(s)
  {
    FreshStoreConsistent(s);
  }

  /** A well-formed store with no vote rows, no tallies and at most one admin is consistent. */
  lemma FreshStoreConsistent(s: Store)
    requires Wf(s) && GetVotes(s) == [] && |Values(s.admins)| <= 1
    requires forall i :: 0 <= i < |GetCandidates(s)| ==> GetCandidates(s)[i].votes == 0
    ensures Consistent(s)
  {
    assert s.votes.order == [];
    forall k | k in s.candidates.table ensures s.candidates.table[k].votes == CountFor(GetVotes(s), k) {
      assert k in s.candidates.order;
      var i :| 0 <= i < |s.candidates.order| && s.candidates.order[i] == k;
      assert GetCandidates(s)[i] == s.candidates.table[k];
    }
    forall k1, k2 | k1 in s.admins.table && k2 in s.admins.table
      ensures k1 == k2
    {
      assert k1 in s.admins.order && k2 in s.admins.order;
    }
  }

  // ---------------------------------------------------------------- statistics

  /** The listing of a well-formed store has no repeated id, and lists exactly the stored ids. */
  lemma ListingIds(s: Store, id: int)
    requires Wf(s)
    ensures DistinctIds(GetCandidates(s))
    ensures Matches(GetCandidates(s), id) > 0 <==> id in s.candidates.table
  {
    CandidatesListedInIdOrder(s);
    MatchesAtMostOne(GetCandidates(s), id);
  }

  /**
    On a consistent store, the total the statistics route reports is the
    number of vote rows naming a candidate that still exists.
   */
  lemma StatsTotalIsLiveVotes(s: Store)
    requires Consistent(s)
    ensures Stats(s).payload.totalVotes == LiveVotes(s)
  {
    var cs, vs := GetCandidates(s), GetVotes(s);
    CandidatesListedInIdOrder(s);
    ListingIds(s, 0);
    forall i | 0 <= i < |cs| ensures cs[i].votes == CountFor(vs, cs[i].id) {
      assert GetCandidate(s, cs[i].id) == Some(cs[i]);
    }
    TalliesAreCounts(cs, vs);
    SumCountsIsLive(cs, vs);
  }

  /** While every vote row names an existing candidate, the reported total is the number of vote rows. */
  lemma StatsTotalCountsEveryVote(s: Store)
    requires Consistent(s) && NoOrphans(s)
    ensures Stats(s).payload.totalVotes == |GetVotes(s)|
  {
    var cs, vs := GetCandidates(s), GetVotes(s);
    StatsTotalIsLiveVotes(s);
    forall i | 0 <= i < |vs| ensures Matches(cs, vs[i].candidateId) > 0 {
      assert s.votes.order[i] in s.votes.table;
      ListingIds(s, vs[i].candidateId);
    }
    LiveAtMostAll(cs, vs);
  }

  /**
    While no vote row is orphaned, an accepted ballot adds exactly one vote
    row and exactly one to the reported total, keeping the two equal.
   */
  lemma AcceptedBallotKeepsTotalEqualToRows(s: Store, body: Body)
    requires Consistent(s) && NoOrphans(s)
    requires PostVote(s, body).0.status == 201
    ensures var s' := PostVote(s, body).1;
      && |GetVotes(s')| == |GetVotes(s)| + 1
      && Stats(s').payload.totalVotes == Stats(s).payload.totalVotes + 1
      && Stats(s').payload.totalVotes == |GetVotes(s')|
  {
    var req := CastVoteRequest(body);
    CastVoteFacts(s, ParseInsertVote(body).value);
    HandleKeepsConsistent(s, req);
    HandleKeepsNoOrphans(s, req);
    StatsTotalCountsEveryVote(s);
    StatsTotalCountsEveryVote(Handle(s, req).1);
  }

  /**
    Deleting a candidate that has votes leaves its vote rows stored, and right
    after the deletion the reported total is smaller than the number of vote
    rows (`DeletedVotesStayUncounted` carries this through later requests).
   */
  lemma DeletingVotedCandidateLosesVotes(s: Store, id: int)
    requires Consistent(s) && GetCandidate(s, id).Some? && GetCandidate(s, id).value.votes > 0
    ensures var (r, s') := DeleteCandidateRoute(s, Num(id));
      && r.status == 200
      && GetVotes(s') == GetVotes(s)
      && Stats(s').payload.totalVotes < |GetVotes(s')|
  {
    var (r, s') := DeleteCandidateRoute(s, Num(id));
    var vs := GetVotes(s);
    HandleKeepsConsistent(s, DeleteCandidateRequest(Num(id)));
    StatsTotalIsLiveVotes(s');
    CountForPositive(vs, id);
    var i :| 0 <= i < |vs| && vs[i].candidateId == id;
    ListingIds(s', id);
    LiveAtMostAll(GetCandidates(s'), vs);
  }

  /**
    Every vote row keeps naming an existing candidate under every route except
    the deletion of a candidate that has votes.
   */
  lemma HandleKeepsNoOrphans(s: Store, req: Request)
    requires Consistent(s) && NoOrphans(s)
    requires req.DeleteCandidateRequest? && req.id.Num? && GetCandidate(s, req.id.n).Some? ==>
      GetCandidate(s, req.id.n).value.votes == 0
    ensures NoOrphans(Handle(s, req).1)
  {
    var s' := Handle(s, req).1;
    match req {
      case CreateCandidateRequest(body) =>
        CandidateKeysGrow(s, s');
      case UpdateCandidateRequest(id, body) =>
        CandidateKeysGrow(s, s');
      case DeleteCandidateRequest(id) =>
        DeleteKeepsNoOrphans(s, id);
      case CastVoteRequest(body) =>
        PostVoteKeepsNoOrphans(s, body);
      case _ =>
    }
  }

  /** A step that keeps every vote row and every candidate key keeps rows from being orphaned. */
  lemma CandidateKeysGrow(s: Store, s': Store)
    requires NoOrphans(s) && s'.votes == s.votes
    requires forall k :: GetCandidate(s, k).Some? ==> GetCandidate(s', k).Some?
    ensures NoOrphans(s')
  {
    forall k | k in s'.votes.table ensures s'.votes.table[k].candidateId in s'.candidates.table {
      assert GetCandidate(s, s.votes.table[k].candidateId).Some?;
    }
  }

  /** Deleting a candidate no row names orphans no row. */
  lemma DeleteKeepsNoOrphans(s: Store, id: PathId)
    requires Consistent(s) && NoOrphans(s)
    requires id.Num? && GetCandidate(s, id.n).Some? ==> GetCandidate(s, id.n).value.votes == 0
    ensures NoOrphans(DeleteCandidateRoute(s, id).1)
  {
    var s' := DeleteCandidateRoute(s, id).1;
    forall k | k in s'.votes.table ensures s'.votes.table[k].candidateId in s'.candidates.table {
      var c := s.votes.table[k].candidateId;
      assert GetCandidate(s, c).Some?;
      if id.Num? && c == id.n {
        NamedCandidateHasVotes(s, k);
      }
      assert GetCandidate(s', c).Some?;
    }
  }

  /** An accepted ballot names an existing candidate and touches no other row or candidate key. */
  lemma PostVoteKeepsNoOrphans(s: Store, body: Body)
    requires Wf(s) && NoOrphans(s)
    ensures NoOrphans(PostVote(s, body).1)
  {
    var (r, s') := PostVote(s, body);
    if r.status == 201 {
      var data := ParseInsertVote(body).value;
      CastVoteFacts(s, data);
      forall k | k in s'.votes.table ensures s'.votes.table[k].candidateId in s'.candidates.table {
        if k != s.currentVoteId {
          assert Get(s'.votes, k) == Get(s.votes, k);
          assert GetCandidate(s, s.votes.table[k].candidateId).Some?;
        } else {
          assert Get(s'.votes, k) == Some(Vote(s.currentVoteId, data.candidateId, data.voterToken));
        }
        assert GetCandidate(s', s'.votes.table[k].candidateId).Some?;
      }
    }
  }

  /** A candidate named by some vote row has a positive tally. */
  lemma NamedCandidateHasVotes(s: Store, k: int)
    requires Consistent(s) && k in s.votes.table
    requires s.votes.table[k].candidateId in s.candidates.table
    ensures s.candidates.table[s.votes.table[k].candidateId].votes > 0
  {
    var vs := GetVotes(s);
    assert k in s.votes.order;
    var i :| 0 <= i < |s.votes.order| && s.votes.order[i] == k;
    assert vs[i] == s.votes.table[k];
    CountForPositive(vs, s.votes.table[k].candidateId);
  }

  // --------------------------------------------------------------------- login

  /**
    With unique usernames, login succeeds exactly when some stored admin has
    both the submitted username and the submitted password.
   */
  lemma LoginSucceedsExactlyForStoredCredentials(s: Store, body: Body)
    requires Consistent(s) && ParseAdminLogin(body).Some?
    ensures var login := ParseAdminLogin(body).value;
      Login(s, body).status == 200 <==>
        exists k :: k in s.admins.table && s.admins.table[k].username == login.username
                                        && s.admins.table[k].password == login.password
  {
    var login := ParseAdminLogin(body).value;
    AdminLookupFacts(s, login.username);
    if exists k :: k in s.admins.table && s.admins.table[k].username == login.username
                                       && s.admins.table[k].password == login.password {
      var k :| k in s.admins.table && s.admins.table[k].username == login.username
                                   && s.admins.table[k].password == login.password;
      var found := GetAdminByUsername(s, login.username).value;
      assert found.id in s.admins.table && s.admins.table[found.id] == found;
    }
  }

  /** The body the admin login form sends for the seeded credentials. */
  function SeededLoginBody(): Body {
    JObject(map["username" := JString("UNIQUE"), "password" := JString("UNIQUE123")])
  }

  /** A store whose only admin is the seeded one accepts the seeded credentials. */
  lemma OnlyAdminLogsIn(s: Store)
    requires Values(s.admins) == [Admin(1, "UNIQUE", "UNIQUE123")]
    ensures Login(s, SeededLoginBody()) == Response(200, LoginSuccess("Login successful", AdminView(1, "UNIQUE")))
  {
    var body := SeededLoginBody();
    assert body.fields["username"] == JString("UNIQUE") && body.fields["password"] == JString("UNIQUE123");
    assert ParseAdminLogin(body) == Some(AdminLogin("UNIQUE", "UNIQUE123"));
    assert FindByUsername(Values(s.admins), "UNIQUE") == Some(Admin(1, "UNIQUE", "UNIQUE123"));
  }

  /** The seeded admin can log in with the seeded password right after start-up. */
  lemma SeededAdminLogsIn()
    ensures Login(Init(), SeededLoginBody()) == Response(200, LoginSuccess("Login successful", AdminView(1, "UNIQUE")))
  {
    InitState();
    OnlyAdminLogsIn(Init());
  }

  // ------------------------------------------------------------ request series

  /** On a consistent store, no sequence of requests changes or removes a stored vote row. */
  lemma {:induction false} RunKeepsVoteRows(s: Store, reqs: seq<Request>)
    requires Consistent(s)
    ensures var s' := Run(s, reqs).1;
      forall k :: k in s.votes.table ==> k in s'.votes.table && s'.votes.table[k] == s.votes.table[k]
    decreases |reqs|
  {
    if |reqs| > 0 {
      HandleFrame(s, reqs[0]);
      HandleKeepsConsistent(s, reqs[0]);
      RunKeepsVoteRows(Handle(s, reqs[0]).1, reqs[1..]);
    }
  }

  /** Once a token has voted it stays voted, whatever requests follow. */
  lemma VotedStaysVoted(s: Store, reqs: seq<Request>, token: string)
    requires Consistent(s) && HasVoted(s, token)
    ensures HasVoted(Run(s, reqs).1, token)
  {
    RunKeepsVoteRows(s, reqs);
  }

  /** An id the counter has issued but no candidate holds (a deleted one) is never given out again. */
  lemma {:induction false} DeletedIdsStayFree(s: Store, reqs: seq<Request>, id: int)
    requires Consistent(s) && id < s.currentCandidateId && id !in s.candidates.table
    ensures id !in Run(s, reqs).1.candidates.table
    decreases |reqs|
  {
    if |reqs| > 0 {
      HandleFrame(s, reqs[0]);
      HandleKeepsConsistent(s, reqs[0]);
      DeletedIdsStayFree(Handle(s, reqs[0]).1, reqs[1..], id);
    }
  }

  /**
    As long as no candidate is deleted, no vote row is orphaned and the
    reported total stays equal to the number of vote rows, whatever other
    requests arrive.
   */
  lemma {:induction false} NoDeletesKeepTotalEqualToRows(s: Store, reqs: seq<Request>)
    requires Consistent(s) && NoOrphans(s)
    requires forall i :: 0 <= i < |reqs| ==> !reqs[i].DeleteCandidateRequest?
    ensures NoOrphans(Run(s, reqs).1)
    ensures Stats(Run(s, reqs).1).payload.totalVotes == |GetVotes(Run(s, reqs).1)|
    decreases |reqs|
  {
    if |reqs| == 0 {
      StatsTotalCountsEveryVote(s);
    } else {
      HandleKeepsConsistent(s, reqs[0]);
      HandleKeepsNoOrphans(s, reqs[0]);
      assert forall i :: 0 <= i < |reqs[1..]| ==> reqs[1..][i] == reqs[i + 1];
      NoDeletesKeepTotalEqualToRows(Handle(s, reqs[0]).1, reqs[1..]);
    }
  }

  /**
    A vote row naming a candidate that no longer exists stays stored, and
    stays uncounted, whatever requests follow: the reported total remains
    below the number of vote rows.
   */
  lemma OrphanedVoteStaysUncounted(s: Store, reqs: seq<Request>, k: int)
    requires Consistent(s) && k in s.votes.table
    requires s.votes.table[k].candidateId !in s.candidates.table
    ensures var s' := Run(s, reqs).1;
      && k in s'.votes.table && s'.votes.table[k] == s.votes.table[k]
      && s'.votes.table[k].candidateId !in s'.candidates.table
      && Stats(s').payload.totalVotes < |GetVotes(s')|
  {
    var id := s.votes.table[k].candidateId;
    var s' := Run(s, reqs).1;
    RunKeepsConsistent(s, reqs);
    RunKeepsVoteRows(s, reqs);
    DeletedIdsStayFree(s, reqs, id);
    StatsTotalIsLiveVotes(s');
    var vs := GetVotes(s');
    assert k in s'.votes.order;
    var i :| 0 <= i < |s'.votes.order| && s'.votes.order[i] == k;
    assert vs[i].candidateId == id;
    ListingIds(s', id);
    LiveAtMostAll(GetCandidates(s'), vs);
  }

  /**
    Once a candidate that has votes is deleted, the reported total stays below
    the number of vote rows whatever requests follow.
   */
  lemma DeletedVotesStayUncounted(s: Store, id: int, reqs: seq<Request>)
    requires Consistent(s) && GetCandidate(s, id).Some? && GetCandidate(s, id).value.votes > 0
    ensures var s' := Run(DeleteCandidateRoute(s, Num(id)).1, reqs).1;
      Stats(s').payload.totalVotes < |GetVotes(s')|
  {
    var s1 := DeleteCandidateRoute(s, Num(id)).1;
    HandleKeepsConsistent(s, DeleteCandidateRequest(Num(id)));
    var vs := GetVotes(s);
    CountForPositive(vs, id);
    var i :| 0 <= i < |vs| && vs[i].candidateId == id;
    var k := s.votes.order[i];
    assert k in s.votes.table && s.votes.table[k] == vs[i];
    OrphanedVoteStaysUncounted(s1, reqs, k);
  }

  /**
    Two ballots with the same token: the first is accepted with 201, the
    second is refused with 400 "You have already voted", whichever candidate
    it names.
   */
  lemma SecondBallotWithSameTokenRefused(s: Store, first: Body, second: Body)
    requires Consistent(s)
    requires ParseInsertVote(first).Some? && ParseInsertVote(second).Some?
    requires ParseInsertVote(first).value.voterToken == ParseInsertVote(second).value.voterToken
    requires !HasVoted(s, ParseInsertVote(first).value.voterToken)
    requires GetCandidate(s, ParseInsertVote(first).value.candidateId).Some?
    ensures var rs := Run(s, [CastVoteRequest(first), CastVoteRequest(second)]).0;
      rs[0].status == 201 && rs[1] == Response(400, Message(AlreadyVoted))
  {
    var reqs := [CastVoteRequest(first), CastVoteRequest(second)];
    assert reqs[1..] == [CastVoteRequest(second)];
    assert reqs[1..][1..] == [];
  }

  /** Every store reached from the constructor's by any sequence of requests is consistent. */
  lemma ReachableConsistent(reqs: seq<Request>)
    ensures Consistent(Run(Init(), reqs).1)
  {
    InitConsistent();
    RunKeepsConsistent(Init(), reqs);
  }
}
