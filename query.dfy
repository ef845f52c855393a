/**
 * The query that `find` answers: for every queried field, the accepted values
 * of that field. A rule matches when each queried field holds one of its
 * accepted values; the answer is the matching rules in their original order.
 */
module Query {
  import opened Wrappers
  import opened Rules

  /** The fields asked about, each with the values it may hold. */
  type Filter = map<Field, seq<Option<string>>>

  /** Every queried field of `r` holds one of the values the query accepts for it. */
  predicate Matches(r: Rule, q: Filter)
  {
    forall f :: f in q ==> Get(r, f) in q[f]
  }

  /** The rules of `rs` that match `q`, in the order they appear in `rs`. */
  function Select(rs: seq<Rule>, q: Filter): (out: seq<Rule>)
    ensures |out| <= |rs|
    ensures forall i :: 0 <= i < |out| ==> Matches(out[i], q)
  {
    if rs == [] then []
    else
      var last := rs[|rs| - 1];
      Select(rs[..|rs| - 1], q) + (if Matches(last, q) then [last] else [])
  }

  /** Selection distributes over concatenation: it keeps the order of the rules. */
  lemma {:induction false} SelectAppend(a: seq<Rule>, b: seq<Rule>, q: Filter)
    ensures Select(a + b, q) == Select(a, q) + Select(b, q)
  {
    if b == [] {
      assert a + b == a;
    } else {
      assert (a + b)[..|a + b| - 1] == a + b[..|b| - 1];
      SelectAppend(a, b[..|b| - 1], q);
    }
  }

  /** A single rule is kept exactly when it matches. */
  lemma SelectOne(r: Rule, q: Filter)
    ensures Select([r], q) == if Matches(r, q) then [r] else []
  {
    assert [r][..0] == [];
  }

  /** The positions of the rules of `rs` that match `q`, in increasing order. */
  function MatchingPositions(rs: seq<Rule>, q: Filter): seq<nat>
  {
    if rs == [] then []
    else MatchingPositions(rs[..|rs| - 1], q) + (if Matches(rs[|rs| - 1], q) then [|rs| - 1] else [])
  }

  /** The matching positions are in range, increase, and are exactly the positions of matching rules. */
  lemma {:induction false} MatchingPositionsExact(rs: seq<Rule>, q: Filter)
    ensures var idx := MatchingPositions(rs, q);
      && (forall k :: 0 <= k < |idx| ==> idx[k] < |rs|)
      && (forall k, l :: 0 <= k < l < |idx| ==> idx[k] < idx[l])
      && (forall i :: 0 <= i < |rs| ==> (i in idx <==> Matches(rs[i], q)))
  {
    if rs != [] {
      var init := rs[..|rs| - 1];
      MatchingPositionsExact(init, q);
      var idx0 := MatchingPositions(init, q);
      forall i | 0 <= i < |init| ensures rs[i] == init[i] { }
    }
  }

  /**
   * The selection is the subsequence of `rs` at the matching positions: its k-th rule is the rule
   * at the k-th matching position (which, by `MatchingPositionsExact`, increase and are exactly
   * the positions of matching rules).
   */
  lemma {:induction false} SelectIsOrderedSubsequence(rs: seq<Rule>, q: Filter)
    ensures var out, idx := Select(rs, q), MatchingPositions(rs, q);
      && |idx| == |out|
      && (forall k :: 0 <= k < |idx| ==> idx[k] < |rs| && out[k] == rs[idx[k]])
  {
    MatchingPositionsExact(rs, q);
    if rs != [] {
      var init := rs[..|rs| - 1];
      SelectIsOrderedSubsequence(init, q);
      var out0, idx0 := Select(init, q), MatchingPositions(init, q);
      var out, idx := Select(rs, q), MatchingPositions(rs, q);
      forall k | 0 <= k < |idx| ensures out[k] == rs[idx[k]] {
        if k < |idx0| {
          assert idx[k] == idx0[k] && out[k] == out0[k] && rs[idx0[k]] == init[idx0[k]];
        }
      }
    }
  }

  /** A rule is selected exactly when it is among the rules and matches the query. */
  lemma {:induction false} SelectMembers(rs: seq<Rule>, q: Filter, r: Rule)
    ensures r in Select(rs, q) <==> r in rs && Matches(r, q)
  {
    if rs != [] {
      var init, last := rs[..|rs| - 1], rs[|rs| - 1];
      SelectMembers(init, q, r);
      assert rs == init + [last];
    }
  }

  /** Each rule occurs in the selection at most as often as in the rules, exactly as often when it matches. */
  lemma {:induction false} SelectCounts(rs: seq<Rule>, q: Filter, r: Rule)
    ensures multiset(Select(rs, q))[r] == if Matches(r, q) then multiset(rs)[r] else 0
  {
    if rs != [] {
      var init, last := rs[..|rs| - 1], rs[|rs| - 1];
      SelectCounts(init, q, r);
      assert multiset(rs) == multiset(init) + multiset{last} by {
        assert rs == init + [last];
      }
      var kept := if Matches(last, q) then [last] else [];
      assert multiset(Select(rs, q)) == multiset(Select(init, q)) + multiset(kept);
    }
  }

  /** The empty query accepts every rule. */
  lemma {:induction false} SelectEmptyQuery(rs: seq<Rule>)
    ensures Select(rs, map[]) == rs
  {
    if rs != [] {
      SelectEmptyQuery(rs[..|rs| - 1]);
      assert rs == rs[..|rs| - 1] + [rs[|rs| - 1]];
    }
  }

  /** Selection keeps everything exactly when every rule matches. */
  lemma {:induction false} SelectKeepsAll(rs: seq<Rule>, q: Filter)
    ensures Select(rs, q) == rs <==> forall i :: 0 <= i < |rs| ==> Matches(rs[i], q)
  {
    if rs != [] {
      var init, last := rs[..|rs| - 1], rs[|rs| - 1];
      SelectKeepsAll(init, q);
      assert rs == init + [last];
      if !Matches(last, q) {
        assert |Select(rs, q)| < |rs|;
      } else if Select(rs, q) == rs {
        assert Select(init, q) == init by {
          assert Select(rs, q)[..|init|] == Select(init, q);
        }
      }
    }
  }

  /** Applying a query to its own answer changes nothing. */
  lemma SelectIdempotent(rs: seq<Rule>, q: Filter)
    ensures Select(Select(rs, q), q) == Select(rs, q)
  {
    SelectKeepsAll(Select(rs, q), q);
  }

  /** Queries on different fields combine by conjunction: selecting by one and then the other is selecting by both. */
  lemma {:induction false} SelectBoth(rs: seq<Rule>, q1: Filter, q2: Filter)
    requires q1.Keys !! q2.Keys
    ensures Select(Select(rs, q1), q2) == Select(rs, q1 + q2)
  {
    if rs != [] {
      var init, last := rs[..|rs| - 1], rs[|rs| - 1];
      SelectBoth(init, q1, q2);
      assert Matches(last, q1 + q2) <==> Matches(last, q1) && Matches(last, q2) by {
        if Matches(last, q1) && Matches(last, q2) {
          forall f | f in q1 + q2 ensures Get(last, f) in (q1 + q2)[f] {
            if f in q2 { assert (q1 + q2)[f] == q2[f]; } else { assert (q1 + q2)[f] == q1[f]; }
          }
        }
        if Matches(last, q1 + q2) {
          forall f | f in q1 ensures Get(last, f) in q1[f] {
            assert f !in q2 && (q1 + q2)[f] == q1[f];
          }
          forall f | f in q2 ensures Get(last, f) in q2[f] {
            assert (q1 + q2)[f] == q2[f];
          }
        }
      }
      var kept := if Matches(last, q1) then [last] else [];
      SelectAppend(Select(init, q1), kept, q2);
      SelectOne(last, q2);
    }
  }
}
