/**
  Counting vote rows against candidate listings: how many rows name a given
  candidate, how many name a candidate that is still listed, and how the sum
  of per-candidate counts relates to the number of rows.
 */
module Tally {
  import opened Schema
  import opened Routes

  /** How many of the rows `vs` name candidate `id`. */
  function CountFor(vs: seq<Vote>, id: int): nat {
    if |vs| == 0 then 0
    else CountFor(vs[..|vs| - 1], id) + (if vs[|vs| - 1].candidateId == id then 1 else 0)
  }

  /** How many entries of the listing `cs` carry id `id`. */
  function Matches(cs: seq<Candidate>, id: int): nat {
    if |cs| == 0 then 0 else (if cs[0].id == id then 1 else 0) + Matches(cs[1..], id)
  }

  /** How many of the rows `vs` name a candidate listed in `cs`. */
  function Live(cs: seq<Candidate>, vs: seq<Vote>): nat {
    if |vs| == 0 then 0
    else Live(cs, vs[..|vs| - 1]) + (if Matches(cs, vs[|vs| - 1].candidateId) > 0 then 1 else 0)
  }

  /** The rows of `vs` counted candidate by candidate along the listing `cs`. */
  function SumCounts(cs: seq<Candidate>, vs: seq<Vote>): nat {
    if |cs| == 0 then 0 else CountFor(vs, cs[0].id) + SumCounts(cs[1..], vs)
  }

  /** No id is listed twice. */
  predicate DistinctIds(cs: seq<Candidate>) {
    forall i, j :: 0 <= i < j < |cs| ==> cs[i].id != cs[j].id
  }

  /** Appending a row adds one to the count of the candidate it names, and nothing to the others. */
  lemma CountForAppend(vs: seq<Vote>, v: Vote, id: int)
    ensures CountFor(vs + [v], id) == CountFor(vs, id) + (if v.candidateId == id then 1 else 0)
  {
    assert (vs + [v])[..|vs|] == vs;
  }

  /** A candidate no row names has count zero, and one with a positive count is named by some row. */
  lemma {:induction false} CountForPositive(vs: seq<Vote>, id: int)
    ensures CountFor(vs, id) > 0 <==> exists i :: 0 <= i < |vs| && vs[i].candidateId == id
    decreases |vs|
  {
    if |vs| > 0 {
      var init := vs[..|vs| - 1];
      CountForPositive(init, id);
      if exists i :: 0 <= i < |init| && init[i].candidateId == id {
        var i :| 0 <= i < |init| && init[i].candidateId == id;
        assert vs[i] == init[i];
      }
      if exists i :: 0 <= i < |vs| && vs[i].candidateId == id {
        var i :| 0 <= i < |vs| && vs[i].candidateId == id;
        if i < |init| {
          assert init[i] == vs[i];
        }
      }
    }
  }

  /** Along a listing without repeated ids, an id is matched at most once, and exactly when it is listed. */
  lemma {:induction false} MatchesAtMostOne(cs: seq<Candidate>, id: int)
    requires DistinctIds(cs)
    ensures Matches(cs, id) <= 1
    ensures Matches(cs, id) > 0 <==> exists i :: 0 <= i < |cs| && cs[i].id == id
    decreases |cs|
  {
    if |cs| > 0 {
      var tail := cs[1..];
      assert DistinctIds(tail) by {
        forall i, j | 0 <= i < j < |tail| ensures tail[i].id != tail[j].id {
          assert tail[i] == cs[i + 1] && tail[j] == cs[j + 1];
        }
      }
      MatchesAtMostOne(tail, id);
      if cs[0].id == id {
        forall i | 0 <= i < |tail| ensures tail[i].id != id {
          assert tail[i] == cs[i + 1];
        }
      }
      if exists i :: 0 <= i < |cs| && cs[i].id == id {
        var i :| 0 <= i < |cs| && cs[i].id == id;
        if i > 0 {
          assert tail[i - 1] == cs[i];
        }
      }
      if exists i :: 0 <= i < |tail| && tail[i].id == id {
        var i :| 0 <= i < |tail| && tail[i].id == id;
        assert cs[i + 1] == tail[i];
      }
    }
  }

  /** Appending a row adds to the candidate-by-candidate sum once per listed entry it names. */
  lemma {:induction false} SumCountsAppend(cs: seq<Candidate>, vs: seq<Vote>, v: Vote)
    ensures SumCounts(cs, vs + [v]) == SumCounts(cs, vs) + Matches(cs, v.candidateId)
    decreases |cs|
  {
    if |cs| > 0 {
      CountForAppend(vs, v, cs[0].id);
      SumCountsAppend(cs[1..], vs, v);
    }
  }

  /** Over a listing without repeated ids, counting candidate by candidate counts each row naming a listed candidate once. */
  lemma {:induction false} SumCountsIsLive(cs: seq<Candidate>, vs: seq<Vote>)
    requires DistinctIds(cs)
    ensures SumCounts(cs, vs) == Live(cs, vs)
    decreases |vs|
  {
    if |vs| > 0 {
      var init, v := vs[..|vs| - 1], vs[|vs| - 1];
      assert vs == init + [v];
      SumCountsIsLive(cs, init);
      SumCountsAppend(cs, init, v);
      MatchesAtMostOne(cs, v.candidateId);
      assert Live(cs, vs) == Live(cs, init) + (if Matches(cs, v.candidateId) > 0 then 1 else 0);
    } else {
      SumCountsOfNone(cs);
    }
  }

  /** With no rows, every candidate counts zero. */
  lemma {:induction false} SumCountsOfNone(cs: seq<Candidate>)
    ensures SumCounts(cs, []) == 0
    decreases |cs|
  {
    if |cs| > 0 {
      SumCountsOfNone(cs[1..]);
    }
  }

  /** When every listed tally is the number of rows naming that candidate, the tallies sum to the per-candidate counts. */
  lemma {:induction false} TalliesAreCounts(cs: seq<Candidate>, vs: seq<Vote>)
    requires forall i :: 0 <= i < |cs| ==> cs[i].votes == CountFor(vs, cs[i].id)
    ensures SumTallies(cs) == SumCounts(cs, vs)
    decreases |cs|
  {
    if |cs| > 0 {
      var tail := cs[1..];
      assert forall i :: 0 <= i < |tail| ==> tail[i] == cs[i + 1];
      TalliesAreCounts(tail, vs);
    }
  }

  /** At most every row names a listed candidate, and all of them do exactly when none is left out. */
  lemma {:induction false} LiveAtMostAll(cs: seq<Candidate>, vs: seq<Vote>)
    ensures Live(cs, vs) <= |vs|
    ensures Live(cs, vs) == |vs| <==> forall i :: 0 <= i < |vs| ==> Matches(cs, vs[i].candidateId) > 0
    decreases |vs|
  {
    if |vs| > 0 {
      var init := vs[..|vs| - 1];
      LiveAtMostAll(cs, init);
      assert forall i :: 0 <= i < |init| ==> init[i] == vs[i];
    }
  }
}
