/**
  Properties of the store operations: each keeps the store well formed, ids
  come from monotone counters and are never reused, listings keep insertion
  (and therefore ascending id) order, and the constraints the table schema
  declares but the store does not enforce really are not enforced.
 */
module StorageFacts {
  import opened Optional
  import opened OrderedMaps
  import opened Schema
  import opened Storage

  /** Removing a key keeps an ascending list of issued ids ascending and issued. */
  lemma {:induction false} RemoveKeepsAscending(ks: seq<int>, k: int, next: int)
    requires Ascending(ks) && IssuedBelow(ks, next)
    ensures Ascending(Remove(ks, k)) && IssuedBelow(Remove(ks, k), next)
  {
    if |ks| > 0 {
      var tail := ks[1..];
      TailAscending(ks, next);
      RemoveKeepsAscending(tail, k, next);
      if ks[0] != k {
        var rest := Remove(tail, k);
        forall x | x in rest ensures ks[0] < x < next {
          assert x in tail;
          var i :| 0 <= i < |tail| && tail[i] == x;
          assert ks[i + 1] == x;
        }
        ConsKeepsAscending(ks[0], rest, next);
      }
    }
  }

  lemma TailAscending(ks: seq<int>, next: int)
    requires |ks| > 0 && Ascending(ks) && IssuedBelow(ks, next)
    ensures Ascending(ks[1..]) && IssuedBelow(ks[1..], next)
  {
    var tail := ks[1..];
    forall i, j | 0 <= i < j < |tail| ensures tail[i] < tail[j] {
      assert tail[i] == ks[i + 1] && tail[j] == ks[j + 1];
    }
    forall i | 0 <= i < |tail| ensures 1 <= tail[i] < next {
      assert tail[i] == ks[i + 1];
    }
  }

  lemma ConsKeepsAscending(x: int, rest: seq<int>, next: int)
    requires 1 <= x < next && Ascending(rest) && IssuedBelow(rest, next)
    requires forall y :: y in rest ==> x < y
    ensures Ascending([x] + rest) && IssuedBelow([x] + rest, next)
  {
    var r := [x] + rest;
    forall i, j | 0 <= i < j < |r| ensures r[i] < r[j] {
      assert r[j] == rest[j - 1];
      if i > 0 {
        assert r[i] == rest[i - 1];
      } else {
        assert rest[j - 1] in rest;
      }
    }
    forall i | 0 <= i < |r| ensures 1 <= r[i] < next {
      if i > 0 {
        assert r[i] == rest[i - 1];
      }
    }
  }

  /** Every key of an ascending, issued map is below the counter, so the counter itself is free. */
  lemma CounterIsFresh<V>(m: OrderedMap<int, V>, next: int)
    requires IssuedBelow(m.order, next)
    ensures next !in m.table
    ensures forall k :: k in m.table ==> 1 <= k < next
  {
    forall k | k in m.table ensures 1 <= k < next {
      assert k in m.order;
    }
  }

  /** Appending the counter's value to an ascending, issued list keeps it ascending and issued. */
  lemma AppendCounterKeepsAscending(ks: seq<int>, next: int)
    requires Ascending(ks) && IssuedBelow(ks, next) && next >= 1
    ensures Ascending(ks + [next]) && IssuedBelow(ks + [next], next + 1)
  {
  }

  /**
    `createCandidate` on a reachable store: the id it hands out is not in use,
    is larger than every listed id, the record is appended to the listing, and
    the store stays well formed.
   */
  lemma CreateCandidateFacts(s: Store, data: InsertCandidate)
    requires Wf(s)
    ensures GetCandidate(s, s.currentCandidateId).None?
    ensures var (c, s') := CreateCandidate(s, data);
      && Wf(s')
      && GetCandidates(s') == GetCandidates(s) + [c]
      && (forall i :: 0 <= i < |GetCandidates(s)| ==> GetCandidates(s)[i].id < c.id)
  {
    var (c, s') := CreateCandidate(s, data);
    CounterIsFresh(s.candidates, s.currentCandidateId);
    AppendCounterKeepsAscending(s.candidates.order, s.currentCandidateId);
    ValuesSetFresh(s.candidates, c.id, c);
    forall i | 0 <= i < |GetCandidates(s)| ensures GetCandidates(s)[i].id < c.id {
      assert s.candidates.order[i] in s.candidates.table;
    }
  }

  /**
    `updateCandidate` on a reachable store keeps it well formed and keeps the
    listing order: an edited candidate stays where it was.
   */
  lemma UpdateCandidateFacts(s: Store, id: int, patch: CandidatePatch)
    requires Wf(s)
    ensures var (r, s') := UpdateCandidate(s, id, patch);
      && Wf(s')
      && s'.candidates.order == s.candidates.order
      && (r.Some? ==> r.value.id == id)
  {
  }

  /** The listing after editing the candidate at position `idx`: only that entry changes. */
  lemma UpdateCandidateInPlace(s: Store, id: int, patch: CandidatePatch, idx: nat)
    requires Wf(s) && idx < |s.candidates.order| && s.candidates.order[idx] == id
    ensures |GetCandidates(s)| == |s.candidates.order|
    ensures var (r, s') := UpdateCandidate(s, id, patch);
      r.Some? && GetCandidates(s') == GetCandidates(s)[idx := r.value]
  {
    var (r, s') := UpdateCandidate(s, id, patch);
    assert id in s.candidates.table;
    ValuesSetPresent(s.candidates, id, r.value, idx);
  }

  /** `deleteCandidate` keeps a reachable store well formed. */
  lemma DeleteCandidateKeepsWf(s: Store, id: int)
    requires Wf(s)
    ensures Wf(DeleteCandidate(s, id).1)
  {
    if id in s.candidates.table {
      RemoveKeepsAscending(s.candidates.order, id, s.currentCandidateId);
    }
  }

  /** Removing the entry under `id` from a map whose records carry their own key. */
  lemma DeleteListing(m: OrderedMap<int, Candidate>, id: int)
    requires forall k :: k in m.table ==> m.table[k].id == k
    ensures forall c :: c in Values(Delete(m, id).0) <==> c in Values(m) && c.id != id
  {
    var m' := Delete(m, id).0;
    assert m'.table == m.table - {id};
    DeleteListingTables(m, m', id);
  }

  lemma DeleteListingTables(m: OrderedMap<int, Candidate>, m': OrderedMap<int, Candidate>, id: int)
    requires m'.table == m.table - {id}
    requires forall k :: k in m.table ==> m.table[k].id == k
    ensures forall c :: c in Values(m') <==> c in Values(m) && c.id != id
  {
    forall c | c in Values(m') ensures c in Values(m) && c.id != id {
      var k := ListedValueIsStored(m', c);
      StoredValueIsListed(m, k);
    }
    forall c | c in Values(m) && c.id != id ensures c in Values(m') {
      var k := ListedValueIsStored(m, c);
      StoredValueIsListed(m', k);
    }
  }

  /**
    `deleteCandidate` on a reachable store removes exactly the candidate with
    that id from the listing and keeps every other one.
   */
  lemma DeleteCandidateFacts(s: Store, id: int)
    requires Wf(s)
    ensures var s' := DeleteCandidate(s, id).1;
      && Wf(s')
      && (forall c :: c in GetCandidates(s') <==> c in GetCandidates(s) && c.id != id)
  {
    DeleteCandidateKeepsWf(s, id);
    DeleteListing(s.candidates, id);
  }

  /**
    `castVote` on a reachable store: the row gets a fresh id, is appended to
    the vote listing, the token is then known to `hasVoted`, and the store
    stays well formed.
   */
  lemma CastVoteFacts(s: Store, data: InsertVote)
    requires Wf(s)
    ensures s.currentVoteId !in s.votes.table
    ensures var (v, s') := CastVote(s, data);
      && Wf(s')
      && GetVotes(s') == GetVotes(s) + [v]
      && HasVoted(s', data.voterToken)
  {
    var (v, s') := CastVote(s, data);
    CounterIsFresh(s.votes, s.currentVoteId);
    AppendCounterKeepsAscending(s.votes.order, s.currentVoteId);
    ValuesSetFresh(s.votes, v.id, v);
    assert s'.votes.table[v.id] == v;
  }

  /** `createAdmin` on a reachable store: a fresh id, appended to the admin listing. */
  lemma CreateAdminFacts(s: Store, data: InsertAdmin)
    requires Wf(s)
    ensures s.currentAdminId !in s.admins.table
    ensures var (a, s') := CreateAdmin(s, data);
      && Wf(s')
      && Values(s'.admins) == Values(s.admins) + [a]
  {
    var (a, s') := CreateAdmin(s, data);
    CounterIsFresh(s.admins, s.currentAdminId);
    AppendCounterKeepsAscending(s.admins.order, s.currentAdminId);
    ValuesSetFresh(s.admins, a.id, a);
  }

  /**
    `getCandidates` lists every stored candidate exactly once, in ascending id
    order, and each listed record carries the id it is stored under.
   */
  lemma CandidatesListedInIdOrder(s: Store)
    requires Wf(s)
    ensures var cs := GetCandidates(s);
      && (forall i, j :: 0 <= i < j < |cs| ==> cs[i].id < cs[j].id)
      && (forall id :: GetCandidate(s, id).Some? <==> exists i :: 0 <= i < |cs| && cs[i].id == id)
      && (forall i :: 0 <= i < |cs| ==> GetCandidate(s, cs[i].id) == Some(cs[i]))
  {
    var cs := GetCandidates(s);
    forall i | 0 <= i < |cs| ensures cs[i].id == s.candidates.order[i] {
      assert s.candidates.order[i] in s.candidates.table;
    }
    forall id | GetCandidate(s, id).Some? ensures exists i :: 0 <= i < |cs| && cs[i].id == id {
      assert id in s.candidates.order;
      var i :| 0 <= i < |s.candidates.order| && s.candidates.order[i] == id;
      assert cs[i].id == id;
    }
  }

  /**
    `getVotes` lists every stored vote row exactly once, in ascending id
    order, each under its own id.
   */
  lemma VotesListedInIdOrder(s: Store)
    requires Wf(s)
    ensures var vs := GetVotes(s);
      && (forall i, j :: 0 <= i < j < |vs| ==> vs[i].id < vs[j].id)
      && (forall k :: k in s.votes.table <==> exists i :: 0 <= i < |vs| && vs[i].id == k)
      && (forall i :: 0 <= i < |vs| ==> Get(s.votes, vs[i].id) == Some(vs[i]))
  {
    var vs := GetVotes(s);
    forall i | 0 <= i < |vs| ensures vs[i].id == s.votes.order[i] {
      assert s.votes.order[i] in s.votes.table;
    }
    forall k | k in s.votes.table ensures exists i :: 0 <= i < |vs| && vs[i].id == k {
      assert k in s.votes.order;
      var i :| 0 <= i < |s.votes.order| && s.votes.order[i] == k;
      assert vs[i].id == k;
    }
  }

  /** On a reachable store, the admin `getAdminByUsername` returns is the one stored under its own id. */
  lemma AdminLookupFacts(s: Store, username: string)
    requires Wf(s)
    ensures var r := GetAdminByUsername(s, username);
      r.Some? ==> Get(s.admins, r.value.id) == r
  {
  }

  /** The record `createCandidate` builds from `data` when the counter stands at `id`. */
  function Seeded(id: int, data: InsertCandidate): Candidate {
    Candidate(id, data.name, data.party, data.experience, 0)
  }

  /** The records `createCandidate` builds from `samples` when the counter starts at `id`. */
  function SeededList(id: int, samples: seq<InsertCandidate>): seq<Candidate>
    decreases |samples|
  {
    if |samples| == 0 then [] else [Seeded(id, samples[0])] + SeededList(id + 1, samples[1..])
  }

  /** Adding samples one by one as `createCandidate` does keeps the store well formed. */
  lemma {:induction false} SeedKeepsWf(s: Store, samples: seq<InsertCandidate>)
    requires Wf(s)
    ensures Wf(Seed(s, samples))
    ensures Seed(s, samples).currentCandidateId == s.currentCandidateId + |samples|
    ensures Seed(s, samples).votes == s.votes && Seed(s, samples).admins == s.admins
    ensures Seed(s, samples).currentVoteId == s.currentVoteId
    ensures Seed(s, samples).currentAdminId == s.currentAdminId
    decreases |samples|
  {
    if |samples| > 0 {
      CreateCandidateFacts(s, samples[0]);
      SeedKeepsWf(CreateCandidate(s, samples[0]).1, samples[1..]);
    }
  }

  /**
    Adding samples one by one as `createCandidate` does appends one record per
    sample, with consecutive ids from the counter and no votes.
   */
  lemma {:induction false} SeedListing(s: Store, samples: seq<InsertCandidate>)
    requires forall k :: k in s.candidates.table ==> k < s.currentCandidateId
    ensures GetCandidates(Seed(s, samples)) == GetCandidates(s) + SeededList(s.currentCandidateId, samples)
    decreases |samples|
  {
    if |samples| > 0 {
      var (c, s1) := CreateCandidate(s, samples[0]);
      var tail := samples[1..];
      var rest := SeededList(s1.currentCandidateId, tail);
      assert SeededList(s.currentCandidateId, samples) == [c] + rest;
      assert (GetCandidates(s) + [c]) + rest == GetCandidates(s) + ([c] + rest);
      assert Seed(s, samples) == Seed(s1, tail);
      ValuesSetFresh(s.candidates, c.id, c);
      SeedListing(s1, tail);
    }
  }

  /** The store right after construction. */
  lemma InitState()
    ensures Wf(Init())
    ensures GetCandidates(Init()) == [
      Candidate(1, "John Mitchell", "Democratic Party", "15 years in public service", 0),
      Candidate(2, "Sarah Chen", "Republican Party", "Former Mayor, 8 years", 0),
      Candidate(3, "Robert Taylor", "Independent", "Business Leader, Community Advocate", 0)]
    ensures Init().currentCandidateId == 4
    ensures Values(Init().admins) == [Admin(1, "UNIQUE", "UNIQUE123")]
    ensures Init().currentAdminId == 2
    ensures GetVotes(Init()) == [] && Init().currentVoteId == 1
  {
    var s0 := EmptyStore();
    assert Wf(s0);
    CreateAdminFacts(s0, DefaultAdmin);
    var s1 := CreateAdmin(s0, DefaultAdmin).1;
    assert GetCandidates(s1) == [] && GetVotes(s1) == [];
    SeedKeepsWf(s1, SampleCandidates);
    SeedListing(s1, SampleCandidates);
    SampleListing();
  }

  /** The records the three samples become when the counter starts at 1. */
  lemma SampleListing()
    ensures SeededList(1, SampleCandidates) == [
      Candidate(1, "John Mitchell", "Democratic Party", "15 years in public service", 0),
      Candidate(2, "Sarah Chen", "Republican Party", "Former Mayor, 8 years", 0),
      Candidate(3, "Robert Taylor", "Independent", "Business Leader, Community Advocate", 0)]
  {
    assert SampleCandidates[1..][1..][1..] == [];
  }

  /**
    `castVote` does not check tokens: casting with a token that has already
    voted stores a second row carrying it, so the declared uniqueness is lost.
   */
  lemma CastVoteDoesNotDeduplicate(s: Store, data: InsertVote)
    requires Wf(s) && HasVoted(s, data.voterToken)
    ensures !TokensUnique(CastVote(s, data).1)
  {
    var (v, s') := CastVote(s, data);
    CastVoteFacts(s, data);
    var k :| k in s.votes.table && s.votes.table[k].voterToken == data.voterToken;
    assert k != v.id && s'.votes.table[k] == s.votes.table[k];
    assert s'.votes.table[v.id] == v;
  }

  /** `find` over a list with a value appended returns what it returned before, if that was a match. */
  lemma {:induction false} FindIgnoresAppended(admins: seq<Admin>, a: Admin, username: string)
    requires FindByUsername(admins, username).Some?
    ensures FindByUsername(admins + [a], username) == FindByUsername(admins, username)
  {
    if admins[0].username != username {
      assert (admins + [a])[1..] == admins[1..] + [a];
      FindIgnoresAppended(admins[1..], a, username);
    }
  }

  /**
    `createAdmin` does not check usernames: an admin created under a username
    already in use is stored, yet lookup by that username still returns the
    earlier admin, and the declared uniqueness is lost.
   */
  lemma CreateAdminDoesNotDeduplicate(s: Store, data: InsertAdmin)
    requires Wf(s) && GetAdminByUsername(s, data.username).Some?
    ensures var (a, s') := CreateAdmin(s, data);
      && Get(s'.admins, a.id) == Some(a)
      && GetAdminByUsername(s', data.username) == GetAdminByUsername(s, data.username)
      && GetAdminByUsername(s', data.username) != Some(a)
      && !UsernamesUnique(s')
  {
    var (a, s') := CreateAdmin(s, data);
    CreateAdminFacts(s, data);
    FindIgnoresAppended(Values(s.admins), a, data.username);
    AdminLookupFacts(s, data.username);
    var earlier := GetAdminByUsername(s, data.username).value;
    assert earlier.id in s.admins.table;
    assert earlier.id != a.id;
    assert s'.admins.table[earlier.id] == earlier && s'.admins.table[a.id] == a;
  }
}
