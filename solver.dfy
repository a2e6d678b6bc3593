/** The solver as the program runs it: the board is a mutable table of 81
    candidate strings changed in place, and the assignment log is a field
    the assignment primitive appends to. Each method is proved to compute
    exactly the function of the same name on `State` values. */
module Sudoku {
  import opened Topology
  import opened Boards
  import EliminationRule
  import OnlyChoiceRule
  import NakedTwinsRule
  import Reduction
  import Searching
  import Parser

  /** A fresh table holding the boxes of `b` (the `values.copy()` of search). */
  method CopyBoard(b: Board) returns (a: array<Cand>)
    ensures fresh(a) && a.Length == 81 && a[..] == b
  {
    a := new Cand[81](c requires 0 <= c < 81 => b[c]);
    SameElements(a[..], b);
  }

  class Solver {
    /** The global `assignments` list: a snapshot of the board each time a
        box is set to a single digit. */
    var assignments: seq<Board>

    constructor()
      ensures assignments == []
    {
      assignments := [];
    }

    /** The board held by `values` together with the log. */
    function StateOf(values: array<Cand>): State
      requires values.Length == 81
      reads this, values
    {
      var b: Board := values[..];
      State(b, assignments)
    }

    /** assign_value. */
    method AssignValue(values: array<Cand>, box: Cell, value: Cand)
      requires values.Length == 81
      modifies this, values
      ensures StateOf(values) == Assign(old(StateOf(values)), box, value)
    {
      if values[box] == value {
        return;
      }
      values[box] := value;
      if |value| == 1 {
        assignments := assignments + [values[..]];
      }
    }

    /** The inner loop of eliminate: the digit `target` is removed from each
        of `peers` in turn. */
    method EliminateFromPeers(values: array<Cand>, target: Cand, peers: seq<Cell>)
      requires values.Length == 81 && |target| == 1
      modifies this, values
      ensures StateOf(values) ==
        EliminationRule.EliminateFromPeers(old(StateOf(values)), target, peers, |peers|)
    {
      ghost var sb := StateOf(values);
      var j := 0;
      while j < |peers|
        invariant 0 <= j <= |peers|
        invariant StateOf(values) == EliminationRule.EliminateFromPeers(sb, target, peers, j)
      {
        EliminationRule.EliminateFromPeersNext(sb, target, peers, j);
        var peer := peers[j];
        AssignValue(values, peer, RemoveDigit(values[peer], target[0]));
        j := j + 1;
      }
    }

    /** One turn of eliminate's outer loop: a box still holding a single
        digit has that digit removed from its peers. */
    method EliminateBox(values: array<Cand>, box: Cell)
      requires values.Length == 81
      modifies this, values
      ensures StateOf(values) == EliminationRule.EliminateBox(old(StateOf(values)), box)
    {
      if |values[box]| == 1 {
        EliminateFromPeers(values, values[box], PeerList(box));
      }
    }

    /** eliminate. */
    method Eliminate(values: array<Cand>)
      requires values.Length == 81
      modifies this, values
      ensures StateOf(values) == EliminationRule.Eliminate(old(StateOf(values)))
    {
      ghost var s0 := StateOf(values);
      var solved := SolvedBoxes(values[..]);
      var k := 0;
      while k < |solved|
        invariant 0 <= k <= |solved|
        invariant StateOf(values) == EliminationRule.EliminateBoxes(s0, solved, k)
      {
        EliminationRule.EliminateBoxesNext(s0, solved, k);
        EliminateBox(values, solved[k]);
        k := k + 1;
      }
    }

    /** The digit loop of only_choice for one unit: a digit with a single
        place left in the unit is assigned there. */
    method OnlyChoiceUnit(values: array<Cand>, unit: seq<Cell>)
      requires values.Length == 81
      modifies this, values
      ensures StateOf(values) ==
        OnlyChoiceRule.OnlyChoiceDigits(old(StateOf(values)), unit, |Digits|)
    {
      ghost var su := StateOf(values);
      var k := 0;
      while k < |Digits|
        invariant 0 <= k <= |Digits|
        invariant StateOf(values) == OnlyChoiceRule.OnlyChoiceDigits(su, unit, k)
      {
        OnlyChoiceDigit(values, unit, Digits[k]);
        k := k + 1;
      }
    }

    /** One turn of the digit loop of only_choice: if exactly one box of
        the unit offers `digit`, that box is set to it. */
    method OnlyChoiceDigit(values: array<Cand>, unit: seq<Cell>, digit: char)
      requires values.Length == 81
      modifies this, values
      ensures StateOf(values) == OnlyChoiceRule.OnlyChoiceStep(old(StateOf(values)), unit, digit)
    {
      var holders := OnlyChoiceRule.Holders(values[..], unit, digit);
      if |holders| == 1 {
        AssignValue(values, holders[0], [digit]);
      }
    }

    /** only_choice. */
    method OnlyChoice(values: array<Cand>)
      requires values.Length == 81
      modifies this, values
      ensures StateOf(values) == OnlyChoiceRule.OnlyChoice(old(StateOf(values)))
    {
      ghost var s0 := StateOf(values);
      var units := UnitList();
      var n := 0;
      while n < |units|
        invariant 0 <= n <= |units|
        invariant StateOf(values) == OnlyChoiceRule.OnlyChoiceUnits(s0, n)
      {
        OnlyChoiceUnit(values, units[n]);
        n := n + 1;
      }
    }

    /** The innermost loop of naked_twins: `digit` is removed from the boxes
        of `unit` outside `group` that still offer it. */
    method RemoveFromOthers(values: array<Cand>, unit: seq<Cell>, group: seq<Cell>, digit: char)
      requires values.Length == 81
      modifies this, values
      ensures StateOf(values) ==
        NakedTwinsRule.RemoveFromOthers(old(StateOf(values)), unit, group, digit, |unit|)
    {
      ghost var s0 := StateOf(values);
      var j := 0;
      while j < |unit|
        invariant 0 <= j <= |unit|
        invariant StateOf(values) == NakedTwinsRule.RemoveFromOthers(s0, unit, group, digit, j)
      {
        ghost var sj := StateOf(values);
        var box := unit[j];
        if box !in group && digit in values[box] {
          AssignValue(values, box, RemoveDigit(values[box], digit));
        }
        assert StateOf(values) == NakedTwinsRule.RemoveFromOthers(s0, unit, group, digit, j + 1);
        j := j + 1;
      }
    }

    /** The `items()` loop of naked_twins: each entry that is naked has its
        digits removed from the rest of the unit. */
    method RemoveNakedGroups(values: array<Cand>, unit: seq<Cell>, digitsToBoxes: NakedTwinsRule.Table)
      requires values.Length == 81 && NakedTwinsRule.WellFormed(digitsToBoxes)
      modifies this, values
      ensures StateOf(values) ==
        NakedTwinsRule.NakedTwinsEntries(old(StateOf(values)), unit, digitsToBoxes, |digitsToBoxes.keys|)
    {
      ghost var su := StateOf(values);
      var e := 0;
      while e < |digitsToBoxes.keys|
        invariant 0 <= e <= |digitsToBoxes.keys|
        invariant StateOf(values) == NakedTwinsRule.NakedTwinsEntries(su, unit, digitsToBoxes, e)
      {
        var digits := digitsToBoxes.keys[e];
        NakedTwinsRule.NakedTwinsEntriesNext(su, unit, digitsToBoxes, e);
        RemoveNakedGroup(values, unit, digits, digitsToBoxes.boxes[digits]);
        e := e + 1;
      }
    }

    /** One entry of the `items()` loop: when `boxList` is a naked group,
        each of its digits is removed from the other boxes of the unit. */
    method RemoveNakedGroup(values: array<Cand>, unit: seq<Cell>, digits: Cand, boxList: seq<Cell>)
      requires values.Length == 81
      modifies this, values
      ensures StateOf(values) ==
        NakedTwinsRule.NakedTwinsEntry(old(StateOf(values)), unit, digits, boxList)
    {
      ghost var se := StateOf(values);
      if |digits| > 1 && |boxList| == |digits| {
        var m := 0;
        while m < |digits|
          invariant 0 <= m <= |digits|
          invariant StateOf(values) == NakedTwinsRule.RemoveGroupDigits(se, unit, digits, boxList, m)
        {
          RemoveFromOthers(values, unit, boxList, digits[m]);
          m := m + 1;
        }
      }
    }

    /** One iteration of the unit loop of naked_twins: the table of
        candidate strings is built from the board as it is, then its
        entries are processed in insertion order. */
    method NakedTwinsUnit(values: array<Cand>, unit: seq<Cell>)
      requires values.Length == 81
      modifies this, values
      ensures StateOf(values) == NakedTwinsRule.NakedTwinsUnit(old(StateOf(values)), unit)
    {
      ghost var su := StateOf(values);
      var digitsToBoxes := NakedTwinsRule.Table([], map[]);
      var i := 0;
      while i < |unit|
        invariant 0 <= i <= |unit|
        invariant digitsToBoxes == NakedTwinsRule.BuildTable(su.values, unit, i)
      {
        var box := unit[i];
        digitsToBoxes := NakedTwinsRule.SetDefaultAppend(digitsToBoxes, values[box], box);
        i := i + 1;
      }
      RemoveNakedGroups(values, unit, digitsToBoxes);
    }

    /** naked_twins. */
    method NakedTwins(values: array<Cand>)
      requires values.Length == 81
      modifies this, values
      ensures StateOf(values) == NakedTwinsRule.NakedTwins(old(StateOf(values)))
    {
      ghost var s0 := StateOf(values);
      var units := UnitList();
      var n := 0;
      while n < |units|
        invariant 0 <= n <= |units|
        invariant StateOf(values) == NakedTwinsRule.NakedTwinsUnits(s0, n)
      {
        NakedTwinsUnit(values, units[n]);
        n := n + 1;
      }
    }

    /** reduce_puzzle: `values` holds the reduced board; the result is false
        when a box was left empty. */
    method ReducePuzzle(values: array<Cand>) returns (ok: bool)
      requires values.Length == 81
      modifies this, values
      ensures (StateOf(values), ok) == Reduction.ReducePuzzle(old(StateOf(values)))
    {
      ghost var s0 := StateOf(values);
      var stalled := false;
      while !stalled
        invariant !stalled ==> Reduction.ReducePuzzle(StateOf(values)) == Reduction.ReducePuzzle(s0)
        invariant stalled ==> (StateOf(values), true) == Reduction.ReducePuzzle(s0)
        decreases if stalled then 0 else 82 - SolvedCount(values[..])
      {
        ghost var s := StateOf(values);
        var before := SolvedCount(values[..]);
        Eliminate(values);
        OnlyChoice(values);
        NakedTwins(values);
        ghost var t := StateOf(values);
        assert t == Reduction.Round(s);
        Reduction.RoundEvolves(s);
        var after := SolvedCount(values[..]);
        stalled := before == after;
        if HasEmpty(values[..]) {
          return false;
        }
        if !stalled {
          SolvedCountMonotone(s.values, t.values);
        }
      }
      return true;
    }

    /** search: `values` is reduced in place, then each digit of the
        branching box is tried on a copy; the result is the first solved
        board found. */
    method Search(values: array<Cand>) returns (result: Searching.Outcome)
      requires values.Length == 81
      modifies this, values
      ensures (assignments, result) == Searching.Search(old(StateOf(values)))
      ensures values[..] == Reduction.ReducePuzzle(old(StateOf(values))).0.values
      decreases TotalLen(values[..]), 3
    {
      ghost var s0 := StateOf(values);
      var ok := ReducePuzzle(values);
      if !ok {
        return Searching.Unsolvable;
      }
      var undecided := Undecided(values[..]);
      if |undecided| == 0 {
        return Searching.Solved(values[..]);
      }
      var b: Board := values[..];
      TotalLenShrinks(b, s0.values);
      var best := Searching.MinBox(b, undecided);
      result := TryDigits(b, best);
    }

    /** The `for digit in values[best_box]` loop of search over the reduced
        board `b`, with an early return on the first success. */
    method TryDigits(b: Board, best: Cell) returns (result: Searching.Outcome)
      requires |b[best]| > 1
      modifies this
      ensures (assignments, result) == Searching.TryDigits(b, old(assignments), best, 0)
      decreases TotalLen(b), 2
    {
      ghost var goal := Searching.TryDigits(b, assignments, best, 0);
      assert Searching.LeftToTry(b, assignments, best, 0, goal);
      var digits := b[best];
      var i := 0;
      while i < |digits|
        invariant 0 <= i <= |digits|
        invariant Searching.LeftToTry(b, assignments, best, i, goal)
      {
        result := TryDigitStep(b, best, i);
        if result.Solved? {
          return;
        }
        i := i + 1;
      }
      Searching.TryDigitsDone(b, assignments, best, goal);
      return Searching.Unsolvable;
    }

    /** One iteration of the digit loop: either its branch succeeds and is
        what the loop returns, or the loop goes on with the next digit. */
    method TryDigitStep(b: Board, best: Cell, i: nat) returns (result: Searching.Outcome)
      requires |b[best]| > 1 && i < |b[best]|
      modifies this
      ensures result.Solved? ==> (assignments, result) == Searching.TryDigits(b, old(assignments), best, i)
      ensures !result.Solved? ==>
        Searching.TryDigits(b, assignments, best, i + 1) == Searching.TryDigits(b, old(assignments), best, i)
      decreases TotalLen(b), 1
    {
      Searching.TryDigitsNext(b, assignments, best, i);
      result := TryDigit(b, best, b[best][i]);
    }

    /** One branch of search: a copy of `b` with `best` assigned `d`,
        searched in turn. */
    method TryDigit(b: Board, best: Cell, d: char) returns (result: Searching.Outcome)
      requires d in b[best] && |b[best]| > 1
      modifies this
      ensures (assignments, result) ==
        Searching.Search(Assign(State(b, old(assignments)), best, [d]))
      decreases TotalLen(b), 0
    {
      TotalLenUpdate(b, best, [d]);
      var newValues := CopyBoard(b);
      AssignValue(newValues, best, [d]);
      result := Search(newValues);
    }

    /** solve: `None` when the grid does not yield 81 cells. */
    method Solve(grid: string) returns (result: Parser.Option<Searching.Outcome>)
      modifies this
      ensures result.Some? <==> Parser.GridValues(grid).Some?
      ensures result.Some? ==>
        Parser.Some((assignments, result.value)) == Searching.Solve(grid, old(assignments))
      ensures result.None? ==> assignments == old(assignments)
    {
      var parsed := Parser.GridValues(grid);
      if parsed.None? {
        return Parser.None;
      }
      var values := CopyBoard(parsed.value);
      var outcome := Search(values);
      return Parser.Some(outcome);
    }
  }
}
