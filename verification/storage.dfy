/**
  The in-memory store (`MemStorage`): three insertion-ordered maps keyed by id
  and three auto-increment counters. Every operation is a pure function from
  the current store to its result and the next store.
 */
module Storage {
  import opened Optional
  import opened OrderedMaps
  import opened Schema

  datatype Store = Store(
    candidates: OrderedMap<int, Candidate>,
    votes: OrderedMap<int, Vote>,
    admins: OrderedMap<int, Admin>,
    currentCandidateId: int,
    currentVoteId: int,
    currentAdminId: int)

  /** Strictly increasing. */
  predicate Ascending(ks: seq<int>) {
    forall i, j :: 0 <= i < j < |ks| ==> ks[i] < ks[j]
  }

  /** Every id is one the counter has already handed out. */
  predicate IssuedBelow(ks: seq<int>, next: int) {
    forall i :: 0 <= i < |ks| ==> 1 <= ks[i] < next
  }

  /**
    The invariant of every store the operations below can reach from `Init`:
    the keys of each map are ids already issued by
    its counter and appear in ascending order, every record is stored under its
    own id, and tallies are never negative.
   */
  ghost predicate Wf(s: Store) {
    && s.currentCandidateId >= 1 && s.currentVoteId >= 1 && s.currentAdminId >= 1
    && Ascending(s.candidates.order) && IssuedBelow(s.candidates.order, s.currentCandidateId)
    && Ascending(s.votes.order) && IssuedBelow(s.votes.order, s.currentVoteId)
    && Ascending(s.admins.order) && IssuedBelow(s.admins.order, s.currentAdminId)
    && (forall k :: k in s.candidates.table ==>
          s.candidates.table[k].id == k && s.candidates.table[k].votes >= 0)
    && (forall k :: k in s.votes.table ==> s.votes.table[k].id == k)
    && (forall k :: k in s.admins.table ==> s.admins.table[k].id == k)
  }

  /** The uniqueness the `votes` table declares for `voterToken`: no two stored rows share a token. */
  ghost predicate TokensUnique(s: Store) {
    forall k1, k2 :: k1 in s.votes.table && k2 in s.votes.table && k1 != k2 ==>
      s.votes.table[k1].voterToken != s.votes.table[k2].voterToken
  }

  /** The uniqueness the `admins` table declares for `username`. */
  ghost predicate UsernamesUnique(s: Store) {
    forall k1, k2 :: k1 in s.admins.table && k2 in s.admins.table && k1 != k2 ==>
      s.admins.table[k1].username != s.admins.table[k2].username
  }

  /** The store before `initializeData`: empty maps, every counter at 1. */
  function EmptyStore(): Store {
    Store(Empty(), Empty(), Empty(), 1, 1, 1)
  }

  // ---------------------------------------------------------------- candidates

  /** `getCandidates`: the candidates in insertion order. */
  function GetCandidates(s: Store): seq<Candidate> {
    Values(s.candidates)
  }

  /**
    `getCandidate`: a record is found exactly when the id is listed, it is the
    record stored under that id, and on a well-formed store it carries that id.
   */
  function GetCandidate(s: Store, id: int): (r: Option<Candidate>)
    ensures r.Some? <==> id in s.candidates.order
    ensures r.Some? ==> r.value in Values(s.candidates)
    ensures Wf(s) && r.Some? ==> r.value.id == id
  {
    var r := Get(s.candidates, id);
    assert r.Some? ==> r.value in Values(s.candidates) by {
      if r.Some? {
        StoredValueIsListed(s.candidates, id);
      }
    }
    r
  }

  /** `createCandidate`: the new record takes the current counter value as id and starts at 0 votes. */
  function CreateCandidate(s: Store, data: InsertCandidate): (r: (Candidate, Store))
    ensures r.0 == Candidate(s.currentCandidateId, data.name, data.party, data.experience, 0)
    ensures r.1.currentCandidateId == s.currentCandidateId + 1
    ensures GetCandidate(r.1, r.0.id) == Some(r.0)
    ensures forall id :: id != r.0.id ==> GetCandidate(r.1, id) == GetCandidate(s, id)
    ensures r.1.votes == s.votes && r.1.admins == s.admins
    ensures r.1.currentVoteId == s.currentVoteId && r.1.currentAdminId == s.currentAdminId
  {
    var candidate := Candidate(s.currentCandidateId, data.name, data.party, data.experience, 0);
    (candidate, s.(candidates := Set(s.candidates, candidate.id, candidate),
                   currentCandidateId := s.currentCandidateId + 1))
  }

  /** The object spread `{ ...existing, ...patch }`: supplied fields win, all others are kept. */
  function ApplyPatch(c: Candidate, patch: CandidatePatch): (r: Candidate)
    ensures r.id == c.id && r.votes == c.votes
    ensures patch.name.Some? ==> r.name == patch.name.value
    ensures patch.name.None? ==> r.name == c.name
    ensures patch.party.Some? ==> r.party == patch.party.value
    ensures patch.party.None? ==> r.party == c.party
    ensures patch.experience.Some? ==> r.experience == patch.experience.value
    ensures patch.experience.None? ==> r.experience == c.experience
  {
    c.(name := if patch.name.Some? then patch.name.value else c.name,
       party := if patch.party.Some? then patch.party.value else c.party,
       experience := if patch.experience.Some? then patch.experience.value else c.experience)
  }

  /** `updateCandidate`: `None` and no change for an unknown id. */
  function UpdateCandidate(s: Store, id: int, patch: CandidatePatch): (r: (Option<Candidate>, Store))
    ensures GetCandidate(s, id).None? ==> r.0.None? && r.1 == s
    ensures GetCandidate(s, id).Some? ==>
      var before := GetCandidate(s, id).value;
      && r.0.Some?
      && r.0.value.id == before.id
      && r.0.value.votes == before.votes
      && r.0.value.name == (if patch.name.Some? then patch.name.value else before.name)
      && r.0.value.party == (if patch.party.Some? then patch.party.value else before.party)
      && r.0.value.experience == (if patch.experience.Some? then patch.experience.value else before.experience)
      && GetCandidate(r.1, id) == r.0
    ensures forall j :: j != id ==> GetCandidate(r.1, j) == GetCandidate(s, j)
    ensures r.1.votes == s.votes && r.1.admins == s.admins
    ensures r.1.currentCandidateId == s.currentCandidateId
    ensures r.1.currentVoteId == s.currentVoteId && r.1.currentAdminId == s.currentAdminId
  {
    match GetCandidate(s, id)
    case None => (None, s)
    case Some(existing) =>
      var updated := ApplyPatch(existing, patch);
      (Some(updated), s.(candidates := Set(s.candidates, id, updated)))
  }

  /** `deleteCandidate`: whether a record was removed. Vote rows are not touched. */
  function DeleteCandidate(s: Store, id: int): (r: (bool, Store))
    ensures r.0 <==> GetCandidate(s, id).Some?
    ensures GetCandidate(r.1, id).None?
    ensures forall j :: j != id ==> GetCandidate(r.1, j) == GetCandidate(s, j)
    ensures r.1.votes == s.votes && r.1.admins == s.admins
    ensures r.1.currentCandidateId == s.currentCandidateId
    ensures r.1.currentVoteId == s.currentVoteId && r.1.currentAdminId == s.currentAdminId
  {
    var (candidates, deleted) := Delete(s.candidates, id);
    (deleted, s.(candidates := candidates))
  }

  // --------------------------------------------------------------------- votes

  /** `getVotes`: the vote rows in insertion order. */
  function GetVotes(s: Store): seq<Vote> {
    Values(s.votes)
  }

  /**
    `castVote`: stores a new row with a fresh id and, when the referenced
    candidate exists, adds one to its tally. It does not look at tokens.
   */
  function CastVote(s: Store, data: InsertVote): (r: (Vote, Store))
    ensures r.0 == Vote(s.currentVoteId, data.candidateId, data.voterToken)
    ensures r.1.currentVoteId == s.currentVoteId + 1
    ensures Get(r.1.votes, r.0.id) == Some(r.0)
    ensures forall j :: j != r.0.id ==> Get(r.1.votes, j) == Get(s.votes, j)
    ensures GetCandidate(s, data.candidateId).None? ==> r.1.candidates == s.candidates
    ensures GetCandidate(s, data.candidateId).Some? ==>
      var c := GetCandidate(s, data.candidateId).value;
      && GetCandidate(r.1, c.id) == Some(c.(votes := c.votes + 1))
      && forall j :: j != c.id ==> GetCandidate(r.1, j) == GetCandidate(s, j)
    ensures r.1.admins == s.admins
    ensures r.1.currentCandidateId == s.currentCandidateId && r.1.currentAdminId == s.currentAdminId
  {
    var vote := Vote(s.currentVoteId, data.candidateId, data.voterToken);
    var votes := Set(s.votes, vote.id, vote);
    var candidates :=
      match GetCandidate(s, data.candidateId)
      case Some(c) => Set(s.candidates, c.id, c.(votes := c.votes + 1))
      case None => s.candidates;
    (vote, s.(votes := votes, candidates := candidates, currentVoteId := s.currentVoteId + 1))
  }

  /** `Array.prototype.some` over the vote rows, testing the token. */
  function AnyToken(vs: seq<Vote>, token: string): (b: bool)
    ensures b <==> exists i :: 0 <= i < |vs| && vs[i].voterToken == token
  {
    if |vs| == 0 then false
    else vs[0].voterToken == token || AnyToken(vs[1..], token)
  }

  /** `hasVoted`: some stored row carries exactly this token. */
  function HasVoted(s: Store, token: string): (b: bool)
    ensures b <==> exists k :: k in s.votes.table && s.votes.table[k].voterToken == token
  {
    var vs := GetVotes(s);
    assert (exists i :: 0 <= i < |vs| && vs[i].voterToken == token) <==>
           (exists k :: k in s.votes.table && s.votes.table[k].voterToken == token) by {
      if exists k :: k in s.votes.table && s.votes.table[k].voterToken == token {
        var k :| k in s.votes.table && s.votes.table[k].voterToken == token;
        assert k in s.votes.order;
        var i :| 0 <= i < |s.votes.order| && s.votes.order[i] == k;
        assert vs[i] == s.votes.table[k];
      }
    }
    AnyToken(vs, token)
  }

  // -------------------------------------------------------------------- admins

  /** `Array.prototype.find` over the admins: the first one with this username. */
  function FindByUsername(admins: seq<Admin>, username: string): (r: Option<Admin>)
    ensures r.None? <==> forall i :: 0 <= i < |admins| ==> admins[i].username != username
    ensures r.Some? ==>
      exists i :: 0 <= i < |admins| && admins[i] == r.value && r.value.username == username &&
        forall j :: 0 <= j < i ==> admins[j].username != username
  {
    if |admins| == 0 then None
    else if admins[0].username == username then Some(admins[0])
    else
      var r := FindByUsername(admins[1..], username);
      assert r.Some? ==>
        (exists i :: 1 <= i < |admins| && admins[i] == r.value &&
           forall j :: 0 <= j < i ==> admins[j].username != username) by {
        if r.Some? {
          var i :| 0 <= i < |admins| - 1 && admins[1..][i] == r.value && r.value.username == username &&
            forall j :: 0 <= j < i ==> admins[1..][j].username != username;
          assert forall j :: 1 <= j < i + 1 ==> admins[j] == admins[1..][j - 1];
        }
      }
      r
  }

  /** `getAdminByUsername`: a stored admin with that username, and none exactly when no stored admin has it. */
  function GetAdminByUsername(s: Store, username: string): (r: Option<Admin>)
    ensures r.Some? ==> r.value.username == username && exists k :: k in s.admins.table && s.admins.table[k] == r.value
    ensures r.None? <==> forall k :: k in s.admins.table ==> s.admins.table[k].username != username
  {
    var admins := Values(s.admins);
    var r := FindByUsername(admins, username);
    assert r.Some? ==> exists k :: k in s.admins.table && s.admins.table[k] == r.value by {
      if r.Some? {
        var i :| 0 <= i < |admins| && admins[i] == r.value;
        var k := ListedValueIsStored(s.admins, r.value);
      }
    }
    assert r.None? <==> forall k :: k in s.admins.table ==> s.admins.table[k].username != username by {
      if r.None? {
        forall k | k in s.admins.table ensures s.admins.table[k].username != username {
          StoredValueIsListed(s.admins, k);
        }
      }
    }
    r
  }

  /** `createAdmin`: the new record takes the current counter value as id; usernames are not checked. */
  function CreateAdmin(s: Store, data: InsertAdmin): (r: (Admin, Store))
    ensures r.0 == Admin(s.currentAdminId, data.username, data.password)
    ensures r.1.currentAdminId == s.currentAdminId + 1
    ensures Get(r.1.admins, r.0.id) == Some(r.0)
    ensures forall j :: j != r.0.id ==> Get(r.1.admins, j) == Get(s.admins, j)
    ensures r.1.candidates == s.candidates && r.1.votes == s.votes
    ensures r.1.currentCandidateId == s.currentCandidateId && r.1.currentVoteId == s.currentVoteId
  {
    var admin := Admin(s.currentAdminId, data.username, data.password);
    (admin, s.(admins := Set(s.admins, admin.id, admin), currentAdminId := s.currentAdminId + 1))
  }

  // ------------------------------------------------------------ initialisation

  const DefaultAdmin := InsertAdmin("UNIQUE", "UNIQUE123")

  const SampleCandidates: seq<InsertCandidate> := [
    InsertCandidate("John Mitchell", "Democratic Party", "15 years in public service"),
    InsertCandidate("Sarah Chen", "Republican Party", "Former Mayor, 8 years"),
    InsertCandidate("Robert Taylor", "Independent", "Business Leader, Community Advocate")
  ]

  /** The `forEach` of `initializeData`: each sample is added as `createCandidate` would. */
  function Seed(s: Store, samples: seq<InsertCandidate>): Store
    decreases |samples|
  {
    if |samples| == 0 then s
    else Seed(CreateCandidate(s, samples[0]).1, samples[1..])
  }

  /** The constructor followed by `initializeData`: one admin, three candidates, no vote rows. */
  function Init(): Store {
    Seed(CreateAdmin(EmptyStore(), DefaultAdmin).1, SampleCandidates)
  }
}
