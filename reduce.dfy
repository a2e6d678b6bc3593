/** The fixed-point driver: the three rules are applied in rounds until a
    round leaves the number of solved boxes unchanged. */
module Reduction {
  import opened Topology
  import opened Boards
  import opened EliminationRule
  import opened OnlyChoiceRule
  import opened NakedTwinsRule

  /** One round of the `while not stalled` loop. */
  function Round(s: State): State {
    NakedTwins(OnlyChoice(Eliminate(s)))
  }

  /** A round never adds a digit to a box and never drops a log entry. */
  lemma RoundEvolves(s: State)
    ensures Evolves(s, Round(s))
  {
    EliminateEvolves(s);
    OnlyChoiceEvolves(Eliminate(s));
    NakedTwinsEvolves(OnlyChoice(Eliminate(s)));
    EvolvesTransitive(s, Eliminate(s), OnlyChoice(Eliminate(s)));
    EvolvesTransitive(s, OnlyChoice(Eliminate(s)), Round(s));
  }

  /** reduce_puzzle: the board after the last round and whether it is still
      possible (`False` is the second component being false). The loop ends
      because a round that does not stall solves at least one more box, and
      at most 81 can be solved. */
  function ReducePuzzle(s: State): (r: (State, bool))
    ensures r.1 <==> !HasEmpty(r.0.values)
    ensures Evolves(s, r.0)
    decreases 81 - SolvedCount(s.values)
  {
    var t := Round(s);
    RoundEvolves(s);
    if HasEmpty(t.values) then (t, false)
    else if SolvedCount(t.values) == SolvedCount(s.values) then (t, true)
    else
      SolvedCountMonotone(s.values, t.values);
      var r := ReducePuzzle(t);
      EvolvesTransitive(s, t, r.0);
      r
  }

  /** The board a round leaves does not depend on the assignment log. */
  lemma RoundIgnoresLog(s1: State, s2: State)
    requires s1.values == s2.values
    ensures Round(s1).values == Round(s2).values
  {
    EliminateIgnoresLog(s1, s2);
    OnlyChoiceIgnoresLog(Eliminate(s1), Eliminate(s2));
    NakedTwinsIgnoresLog(OnlyChoice(Eliminate(s1)), OnlyChoice(Eliminate(s2)));
  }

  /** The board and the verdict of reduce_puzzle do not depend on the
      assignment log: the log is only ever written. */
  lemma {:induction false} ReducePuzzleIgnoresLog(s1: State, s2: State)
    requires s1.values == s2.values
    ensures ReducePuzzle(s1).0.values == ReducePuzzle(s2).0.values
    ensures ReducePuzzle(s1).1 == ReducePuzzle(s2).1
    decreases 81 - SolvedCount(s1.values)
  {
    var t1 := Round(s1);
    var t2 := Round(s2);
    RoundIgnoresLog(s1, s2);
    RoundEvolves(s1);
    if !HasEmpty(t1.values) && SolvedCount(t1.values) != SolvedCount(s1.values) {
      SolvedCountMonotone(s1.values, t1.values);
      ReducePuzzleIgnoresLog(t1, t2);
    }
  }

  /** A successful reduction ends with a full round that solved no new box. */
  lemma {:induction false} ReducePuzzleStalls(s: State)
    requires ReducePuzzle(s).1
    ensures exists p :: Evolves(s, p) && ReducePuzzle(s).0 == Round(p)
                        && SolvedCount(p.values) == SolvedCount(Round(p).values)
    decreases 81 - SolvedCount(s.values)
  {
    var t := Round(s);
    RoundEvolves(s);
    if SolvedCount(t.values) == SolvedCount(s.values) {
      assert s.log <= s.log;
      assert Evolves(s, s);
    } else {
      SolvedCountMonotone(s.values, t.values);
      ReducePuzzleStalls(t);
      var p :| Evolves(t, p) && ReducePuzzle(t).0 == Round(p)
               && SolvedCount(p.values) == SolvedCount(Round(p).values);
      EvolvesTransitive(s, t, p);
    }
  }

  /** A box that is down to one digit and does not become empty keeps it. */
  lemma SolvedBoardFixed(s: Board, t: Board)
    requires AllSolved(s) && Shrinks(t, s) && !HasEmpty(t)
    ensures t == s
  {
    forall c: Cell ensures t[c] == s[c] {
      assert Narrows(t[c], s[c]);
      assert |t[c]| != 0;
      assert t[c][0] in t[c];
      assert s[c][0] in s[c];
    }
  }

  /** A round on a fully determined board with two equal peers empties a box. */
  lemma RoundExposesClash(p: State, c: Cell, d: Cell)
    requires AllSolved(p.values) && IsPeer(c, d) && p.values[c] == p.values[d]
    ensures HasEmpty(Round(p).values)
  {
    EliminateExposesClash(p, c, d);
    OnlyChoiceEvolves(Eliminate(p));
    NakedTwinsEvolves(OnlyChoice(Eliminate(p)));
    EmptyStaysEmpty(Eliminate(p).values, OnlyChoice(Eliminate(p)).values);
    EmptyStaysEmpty(OnlyChoice(Eliminate(p)).values, Round(p).values);
  }

  /** When reduction succeeds with every box determined, no two peers hold
      the same digit: the final round would otherwise have emptied a box. */
  lemma ReduceSolvedNoClash(s: State)
    requires ReducePuzzle(s).1 && AllSolved(ReducePuzzle(s).0.values)
    ensures NoPeerClash(ReducePuzzle(s).0.values)
  {
    var r := ReducePuzzle(s).0;
    ReducePuzzleStalls(s);
    var p :| Evolves(s, p) && r == Round(p) && SolvedCount(p.values) == SolvedCount(Round(p).values);
    SolvedCountFull(r.values);
    SolvedCountFull(p.values);
    RoundEvolves(p);
    SolvedBoardFixed(p.values, r.values);
    forall c: Cell, d: Cell | IsPeer(c, d) ensures r.values[c] != r.values[d] {
      if r.values[c] == r.values[d] {
        RoundExposesClash(p, c, d);
        assert false;
      }
    }
  }
}
