/** What the rules are for: none of them ever rules out a completed grid
    that was still possible. A completed grid is itself a board whose boxes
    each hold one digit; it is still possible on `b` when it `Shrinks` `b`. */
module Solutions {
  import opened Topology
  import opened Boards
  import opened EliminationRule
  import opened OnlyChoiceRule
  import opened NakedTwinsRule
  import opened Reduction

  /** Every box holds one of the nine digits and no two peers agree. */
  predicate IsSolution(sol: Board) {
    AllSolved(sol) && OnlyDigits(sol) && NoPeerClash(sol)
  }

  /** The digits a completed grid places in `cells`. */
  function Placed(sol: Board, cells: seq<Cell>): set<char>
    requires AllSolved(sol)
  {
    if |cells| == 0 then {} else {sol[cells[0]][0]} + Placed(sol, cells[1..])
  }

  lemma {:induction false} PlacedHas(sol: Board, cells: seq<Cell>, x: Cell)
    requires AllSolved(sol) && x in cells
    ensures sol[x][0] in Placed(sol, cells)
  {
    if cells[0] != x {
      PlacedHas(sol, cells[1..], x);
    }
  }

  lemma {:induction false} PlacedFrom(sol: Board, cells: seq<Cell>, ch: char)
    requires AllSolved(sol) && ch in Placed(sol, cells)
    ensures exists x :: x in cells && sol[x][0] == ch
  {
    if sol[cells[0]][0] != ch {
      PlacedFrom(sol, cells[1..], ch);
      var x :| x in cells[1..] && sol[x][0] == ch;
      assert x in cells;
    }
  }

  /** No two different cells of `cells` hold the same string in `sol`. */
  predicate AllDiffer(sol: Board, cells: seq<Cell>) {
    forall x, y :: x in cells && y in cells && x != y ==> sol[x] != sol[y]
  }

  lemma {:induction false} CharSetSize(ds: string)
    ensures |set ch | ch in ds| <= |ds|
  {
    if |ds| > 0 {
      CharSetSize(ds[1..]);
      assert (set ch | ch in ds) == {ds[0]} + (set ch | ch in ds[1..]);
    }
  }

  lemma {:induction false} PlacedSize(sol: Board, cells: seq<Cell>)
    requires AllSolved(sol) && Distinct(cells) && AllDiffer(sol, cells)
    ensures |Placed(sol, cells)| == |cells|
  {
    if |cells| > 0 {
      var x := cells[0];
      var rest := cells[1..];
      assert Distinct(rest) by {
        forall i, j | 0 <= i < j < |rest| ensures rest[i] != rest[j] {
          assert rest[i] == cells[i + 1] && rest[j] == cells[j + 1];
        }
      }
      assert AllDiffer(sol, rest) by {
        forall y, z | y in rest && z in rest && y != z ensures sol[y] != sol[z] {
          assert y in cells && z in cells;
        }
      }
      PlacedSize(sol, rest);
      if sol[x][0] in Placed(sol, rest) {
        PlacedFrom(sol, rest, sol[x][0]);
      }
    }
  }

  /** Pigeonhole: cells that hold pairwise different digits, all taken from
      `ds`, and at least as many as `ds` is long, use every digit of `ds`. */
  lemma Pigeonhole(sol: Board, cells: seq<Cell>, ds: string, d: char)
    requires AllSolved(sol) && Distinct(cells) && AllDiffer(sol, cells)
    requires forall x :: x in cells ==> sol[x][0] in ds
    requires |cells| >= |ds| && d in ds
    ensures exists x :: x in cells && sol[x] == [d]
  {
    var a := Placed(sol, cells);
    var b := set ch | ch in ds;
    PlacedSize(sol, cells);
    CharSetSize(ds);
    forall ch | ch in a ensures ch in b {
      PlacedFrom(sol, cells, ch);
    }
    assert |b - a| == 0 by {
      assert a * b == a && a + b == b;
    }
    assert d in b;
    PlacedFrom(sol, cells, d);
    var x :| x in cells && sol[x][0] == d;
    assert sol[x] == [sol[x][0]];
  }

  /** The cells of one unit of a completed grid hold different digits. */
  lemma UnitDiffers(sol: Board, k: nat)
    requires IsSolution(sol) && k < |UnitList()|
    ensures AllDiffer(sol, UnitList()[k])
  {
    forall x, y | x in UnitList()[k] && y in UnitList()[k] && x != y ensures sol[x] != sol[y] {
      UnitMatesArePeers(k, x, y);
    }
  }

  /** A one-digit box that `sol` fits holds exactly sol's digit. */
  lemma SolvedBoxAgrees(sol: Board, b: Board, c: Cell)
    requires AllSolved(sol) && Shrinks(sol, b) && |b[c]| == 1
    ensures sol[c] == b[c]
  {
    assert Narrows(sol[c], b[c]);
    assert sol[c][0] in sol[c];
    assert b[c] == [b[c][0]];
  }

  lemma EliminateBoxKeeps(s: State, box: Cell, sol: Board)
    requires IsSolution(sol) && Shrinks(sol, s.values)
    ensures Shrinks(sol, EliminateBox(s, box).values)
  {
    if |s.values[box]| == 1 {
      var r := EliminateBox(s, box);
      var d := s.values[box][0];
      EliminateBoxEffect(s, box);
      SolvedBoxAgrees(sol, s.values, box);
      forall c: Cell ensures Narrows(sol[c], r.values[c]) {
        assert Narrows(sol[c], s.values[c]);
        assert sol[c] == [sol[c][0]];
        if IsPeer(box, c) {
          assert sol[c][0] != d;
          assert sol[c][0] in r.values[c];
        }
      }
    }
  }

  lemma {:induction false} EliminateBoxesKeeps(s: State, solved: seq<Cell>, k: nat, sol: Board)
    requires k <= |solved| && IsSolution(sol) && Shrinks(sol, s.values)
    ensures Shrinks(sol, EliminateBoxes(s, solved, k).values)
  {
    if k > 0 {
      var t := EliminateBoxes(s, solved, k - 1);
      EliminateBoxesKeeps(s, solved, k - 1, sol);
      EliminateBoxKeeps(t, solved[k - 1], sol);
    }
  }

  /** eliminate only removes digits a completed grid does not use. */
  lemma EliminateKeeps(s: State, sol: Board)
    requires IsSolution(sol) && Shrinks(sol, s.values)
    ensures Shrinks(sol, Eliminate(s).values)
  {
    var solved := SolvedBoxes(s.values);
    EliminateBoxesKeeps(s, solved, |solved|, sol);
  }

  lemma OnlyChoiceStepKeeps(s: State, k: nat, d: char, sol: Board)
    requires k < |UnitList()| && d in Digits
    requires IsSolution(sol) && Shrinks(sol, s.values)
    ensures Shrinks(sol, OnlyChoiceStep(s, UnitList()[k], d).values)
  {
    var unit := UnitList()[k];
    UnitListShape();
    OnlyChoiceStepEffect(s, unit, d);
    var r := OnlyChoiceStep(s, unit, d);
    if c: Cell :| SoleHolder(s.values, unit, d, c) {
      UnitDiffers(sol, k);
      Pigeonhole(sol, unit, Digits, d);
      var x :| x in unit && sol[x] == [d];
      assert Narrows(sol[x], s.values[x]);
      assert d in s.values[x] by { assert sol[x][0] == d; }
      assert x == c;
      forall c': Cell ensures Narrows(sol[c'], r.values[c']) {
        assert Narrows(sol[c'], s.values[c']);
      }
    }
  }

  lemma {:induction false} OnlyChoiceDigitsKeeps(s: State, k: nat, n: nat, sol: Board)
    requires k < |UnitList()| && n <= |Digits|
    requires IsSolution(sol) && Shrinks(sol, s.values)
    ensures Shrinks(sol, OnlyChoiceDigits(s, UnitList()[k], n).values)
  {
    if n > 0 {
      OnlyChoiceDigitsKeeps(s, k, n - 1, sol);
      OnlyChoiceStepKeeps(OnlyChoiceDigits(s, UnitList()[k], n - 1), k, Digits[n - 1], sol);
    }
  }

  lemma {:induction false} OnlyChoiceUnitsKeeps(s: State, n: nat, sol: Board)
    requires n <= |UnitList()|
    requires IsSolution(sol) && Shrinks(sol, s.values)
    ensures Shrinks(sol, OnlyChoiceUnits(s, n).values)
  {
    if n > 0 {
      OnlyChoiceUnitsKeeps(s, n - 1, sol);
      OnlyChoiceDigitsKeeps(OnlyChoiceUnits(s, n - 1), n - 1, |Digits|, sol);
    }
  }

  /** only_choice only fixes a box to the digit a completed grid puts there. */
  lemma OnlyChoiceKeeps(s: State, sol: Board)
    requires IsSolution(sol) && Shrinks(sol, s.values)
    ensures Shrinks(sol, OnlyChoice(s).values)
  {
    OnlyChoiceUnitsKeeps(s, |UnitList()|, sol);
  }

  /** The group `digits -> group` of the table built from `b0` for unit `k`. */
  ghost predicate TableEntry(b0: Board, k: nat, digits: Cand, group: seq<Cell>)
    requires k < |UnitList()|
  {
    Distinct(group) && forall c :: c in group <==> c in UnitList()[k] && b0[c] == digits
  }

  lemma NakedTwinsEntryKeeps(s: State, k: nat, b0: Board, digits: Cand, group: seq<Cell>, sol: Board)
    requires k < |UnitList()| && TableEntry(b0, k, digits, group)
    requires Shrinks(s.values, b0)
    requires IsSolution(sol) && Shrinks(sol, s.values)
    ensures Shrinks(sol, NakedTwinsEntry(s, UnitList()[k], digits, group).values)
  {
    var unit := UnitList()[k];
    var r := NakedTwinsEntry(s, unit, digits, group);
    NakedTwinsEntryEffect(s, unit, digits, group);
    if IsNaked(digits, group) {
      UnitDiffers(sol, k);
      assert AllDiffer(sol, group);
      forall x | x in group ensures sol[x][0] in digits {
        assert Narrows(sol[x], s.values[x]) && Narrows(s.values[x], b0[x]);
        assert sol[x][0] in sol[x];
      }
      forall c: Cell ensures Narrows(sol[c], r.values[c]) {
        assert Narrows(sol[c], s.values[c]);
        if c in unit && c !in group {
          assert sol[c] == [sol[c][0]];
          forall ch | ch in digits ensures sol[c][0] != ch {
            Pigeonhole(sol, group, digits, ch);
            var x :| x in group && sol[x] == [ch];
            assert sol[c] != sol[x];
          }
          assert sol[c][0] in r.values[c];
        }
      }
    }
  }

  /** Every entry of `t` lists exactly the boxes of unit `k` holding its key
      on `b0`. */
  ghost predicate TableMatches(b0: Board, k: nat, t: Table)
    requires k < |UnitList()|
  {
    WellFormed(t) &&
    forall i :: 0 <= i < |t.keys| ==> t.keys[i] in t.boxes && TableEntry(b0, k, t.keys[i], t.boxes[t.keys[i]])
  }

  lemma BuiltTableMatches(b0: Board, k: nat)
    requires k < |UnitList()|
    ensures TableMatches(b0, k, BuildTable(b0, UnitList()[k], |UnitList()[k]|))
  {
    var unit := UnitList()[k];
    var t := BuildTable(b0, unit, |unit|);
    UnitListShape();
    BuildTableIndexes(b0, unit, |unit|);
    assert unit[..|unit|] == unit;
    forall i | 0 <= i < |t.keys| ensures t.keys[i] in t.boxes && TableEntry(b0, k, t.keys[i], t.boxes[t.keys[i]]) {
      var digits := t.keys[i];
      KeyInTable(t, i);
      assert ListsMatching(t, b0, unit, |unit|, digits);
      MatchingMembers(b0, unit, |unit|, digits);
      MatchingDistinct(b0, unit, |unit|, digits);
    }
  }

  lemma NakedTwinsEntriesStepKeeps(s: State, k: nat, t: Table, n: nat, sol: Board)
    requires k < |UnitList()| && TableMatches(s.values, k, t) && 0 < n <= |t.keys|
    requires IsSolution(sol)
    requires var u := NakedTwinsEntries(s, UnitList()[k], t, n - 1);
      Shrinks(sol, u.values) && Shrinks(u.values, s.values)
    ensures Shrinks(sol, NakedTwinsEntries(s, UnitList()[k], t, n).values)
  {
    var unit := UnitList()[k];
    var u := NakedTwinsEntries(s, unit, t, n - 1);
    var digits := t.keys[n - 1];
    NakedTwinsEntryKeeps(u, k, s.values, digits, t.boxes[digits], sol);
  }

  lemma {:induction false} NakedTwinsEntriesKeeps(s: State, k: nat, t: Table, n: nat, sol: Board)
    requires k < |UnitList()| && TableMatches(s.values, k, t) && n <= |t.keys|
    requires IsSolution(sol) && Shrinks(sol, s.values)
    ensures Shrinks(sol, NakedTwinsEntries(s, UnitList()[k], t, n).values)
  {
    if n > 0 {
      NakedTwinsEntriesKeeps(s, k, t, n - 1, sol);
      NakedTwinsEntriesEvolves(s, UnitList()[k], t, n - 1);
      NakedTwinsEntriesStepKeeps(s, k, t, n, sol);
    }
  }

  lemma NakedTwinsUnitKeeps(s: State, k: nat, sol: Board)
    requires k < |UnitList()|
    requires IsSolution(sol) && Shrinks(sol, s.values)
    ensures Shrinks(sol, NakedTwinsUnit(s, UnitList()[k]).values)
  {
    var unit := UnitList()[k];
    var t := BuildTable(s.values, unit, |unit|);
    BuiltTableMatches(s.values, k);
    NakedTwinsEntriesKeeps(s, k, t, |t.keys|, sol);
  }

  lemma {:induction false} NakedTwinsUnitsKeeps(s: State, n: nat, sol: Board)
    requires n <= |UnitList()|
    requires IsSolution(sol) && Shrinks(sol, s.values)
    ensures Shrinks(sol, NakedTwinsUnits(s, n).values)
  {
    if n > 0 {
      var t := NakedTwinsUnits(s, n - 1);
      NakedTwinsUnitsKeeps(s, n - 1, sol);
      NakedTwinsUnitKeeps(t, n - 1, sol);
      assert NakedTwinsUnits(s, n) == NakedTwinsUnit(t, UnitList()[n - 1]);
    }
  }

  /** naked_twins only removes digits a completed grid does not use there. */
  lemma NakedTwinsKeeps(s: State, sol: Board)
    requires IsSolution(sol) && Shrinks(sol, s.values)
    ensures Shrinks(sol, NakedTwins(s).values)
  {
    NakedTwinsUnitsKeeps(s, |UnitList()|, sol);
  }

  lemma RoundKeeps(s: State, sol: Board)
    requires IsSolution(sol) && Shrinks(sol, s.values)
    ensures Shrinks(sol, Round(s).values)
  {
    EliminateKeeps(s, sol);
    OnlyChoiceKeeps(Eliminate(s), sol);
    NakedTwinsKeeps(OnlyChoice(Eliminate(s)), sol);
  }

  /** Reduction never fails on a board that still admits a completed grid,
      and the grid is still possible on the reduced board. */
  lemma {:induction false} ReduceKeeps(s: State, sol: Board)
    requires IsSolution(sol) && Shrinks(sol, s.values)
    ensures ReducePuzzle(s).1 && Shrinks(sol, ReducePuzzle(s).0.values)
    decreases 81 - SolvedCount(s.values)
  {
    var t := Round(s);
    RoundKeeps(s, sol);
    RoundEvolves(s);
    if !HasEmpty(t.values) && SolvedCount(t.values) != SolvedCount(s.values) {
      SolvedCountMonotone(s.values, t.values);
      ReduceKeeps(t, sol);
    }
  }
}
