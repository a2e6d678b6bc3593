/** Depth-first search: reduce, then branch on the undecided box with the
    fewest candidates, trying its digits in order. */
module Searching {
  import opened Topology
  import opened Boards
  import opened Reduction
  import opened Solutions
  import opened Parser

  /** What search returns: the solved board, or a falsy value (`False` when
      reduction fails, `None` when no digit of the branching box works). */
  datatype Outcome = Solved(board: Board) | Unsolvable

  /** The order `min` uses on the pairs (number of candidates, box name). */
  predicate Before(b: Board, x: Cell, y: Cell) {
    |b[x]| < |b[y]| || (|b[x]| == |b[y]| && StrLess(Name(x), Name(y)))
  }

  /** Box names sort as the cell enumeration does. */
  lemma BeforeMeaning(b: Board, x: Cell, y: Cell)
    ensures Before(b, x, y) <==> |b[x]| < |b[y]| || (|b[x]| == |b[y]| && x < y)
  {
    NameOrder(x, y);
  }

  /** `min` over the pairs of `cells`, scanning left to right: a later pair
      replaces the current minimum only when it is strictly smaller. */
  function MinBox(b: Board, cells: seq<Cell>): (r: Cell)
    requires |cells| > 0
    ensures r in cells
  {
    if |cells| == 1 then cells[0]
    else
      var m := MinBox(b, cells[..|cells| - 1]);
      var x := cells[|cells| - 1];
      if Before(b, x, m) then x else m
  }

  /** The chosen box comes before every other box of `cells`: it has the
      fewest candidates, and among those the smallest name. */
  lemma {:induction false} MinBoxLeast(b: Board, cells: seq<Cell>)
    requires |cells| > 0
    ensures forall c :: c in cells && c != MinBox(b, cells) ==> Before(b, MinBox(b, cells), c)
    ensures forall c :: c in cells ==>
      |b[MinBox(b, cells)]| < |b[c]| || (|b[MinBox(b, cells)]| == |b[c]| && MinBox(b, cells) <= c)
  {
    var r := MinBox(b, cells);
    if |cells| > 1 {
      var front := cells[..|cells| - 1];
      var m := MinBox(b, front);
      var x := cells[|cells| - 1];
      MinBoxLeast(b, front);
      PrefixMembers(cells, |cells|);
      assert cells[..|cells|] == cells;
      BeforeMeaning(b, x, m);
      BeforeMeaning(b, m, x);
      forall c | c in cells && c != r ensures Before(b, r, c) {
        BeforeMeaning(b, r, c);
        if c != x && c != m {
          BeforeMeaning(b, m, c);
        }
      }
    }
    forall c | c in cells ensures |b[r]| < |b[c]| || (|b[r]| == |b[c]| && r <= c) {
      BeforeMeaning(b, r, c);
    }
  }

  /** search: the assignment log as it stands when the call returns, and the
      outcome. The search ends because every branch fixes one box of the
      branching board to a single digit, so the total number of candidates
      drops with each level. */
  function Search(s: State): (seq<Board>, Outcome)
    decreases TotalLen(s.values), 1, 0
  {
    var reduced := ReducePuzzle(s);
    var t := reduced.0;
    if !reduced.1 then (t.log, Unsolvable)
    else
      var open := Undecided(t.values);
      if |open| == 0 then (t.log, Solved(t.values))
      else
        TotalLenShrinks(t.values, s.values);
        TryDigits(t.values, t.log, MinBox(t.values, open), 0)
  }

  /** The `for digit in values[best_box]` loop of search, from the i-th digit
      on: each branch is a copy of `b` with `best` assigned that digit; the
      first branch that succeeds is returned. */
  function TryDigits(b: Board, log: seq<Board>, best: Cell, i: nat): (seq<Board>, Outcome)
    requires |b[best]| > 1 && i <= |b[best]|
    decreases TotalLen(b), 0, |b[best]| - i
  {
    if i == |b[best]| then (log, Unsolvable)
    else
      var child := Assign(State(b, log), best, [b[best][i]]);
      TotalLenUpdate(b, best, [b[best][i]]);
      var r := Search(child);
      if r.1.Solved? then r else TryDigits(b, r.0, best, i + 1)
  }

  /** One step of the digit loop: the branch for the i-th digit is searched,
      and the loop goes on only when it failed. */
  lemma TryDigitsNext(b: Board, log: seq<Board>, best: Cell, i: nat)
    requires |b[best]| > 1 && i < |b[best]|
    ensures TotalLen(Assign(State(b, log), best, [b[best][i]]).values) < TotalLen(b)
    ensures var r := Search(Assign(State(b, log), best, [b[best][i]]));
      TryDigits(b, log, best, i) == if r.1.Solved? then r else TryDigits(b, r.0, best, i + 1)
  {
    TotalLenUpdate(b, best, [b[best][i]]);
  }

  /** From the i-th digit on, the digit loop returns `goal`. */
  ghost predicate LeftToTry(b: Board, log: seq<Board>, best: Cell, i: nat, goal: (seq<Board>, Outcome)) {
    |b[best]| > 1 && i <= |b[best]| && TryDigits(b, log, best, i) == goal
  }

  /** The loop ends with a falsy result once every digit has failed. */
  lemma TryDigitsDone(b: Board, log: seq<Board>, best: Cell, goal: (seq<Board>, Outcome))
    requires LeftToTry(b, log, best, |b[best]|, goal)
    ensures goal == (log, Unsolvable)
  {
  }

  /** The outcome and the board search returns depend on the board alone:
      the assignment log is only ever written. */
  lemma {:induction false} SearchIgnoresLog(s1: State, s2: State)
    requires s1.values == s2.values
    ensures Search(s1).1 == Search(s2).1
    decreases TotalLen(s1.values), 1, 0
  {
    ReducePuzzleIgnoresLog(s1, s2);
    var t1 := ReducePuzzle(s1).0;
    var t2 := ReducePuzzle(s2).0;
    if ReducePuzzle(s1).1 {
      var open := Undecided(t1.values);
      if |open| > 0 {
        TotalLenShrinks(t1.values, s1.values);
        TryDigitsIgnoresLog(t1.values, t1.log, t2.log, MinBox(t1.values, open), 0);
      }
    }
  }

  lemma {:induction false} TryDigitsIgnoresLog(b: Board, log1: seq<Board>, log2: seq<Board>, best: Cell, i: nat)
    requires |b[best]| > 1 && i <= |b[best]|
    ensures TryDigits(b, log1, best, i).1 == TryDigits(b, log2, best, i).1
    decreases TotalLen(b), 0, |b[best]| - i
  {
    if i < |b[best]| {
      var c1 := Assign(State(b, log1), best, [b[best][i]]);
      var c2 := Assign(State(b, log2), best, [b[best][i]]);
      TotalLenUpdate(b, best, [b[best][i]]);
      SearchIgnoresLog(c1, c2);
      var r1 := Search(c1);
      var r2 := Search(c2);
      if !r1.1.Solved? {
        TryDigitsIgnoresLog(b, r1.0, r2.0, best, i + 1);
      }
    }
  }

  /** The outcome of the branch that fixes `best` to its i-th digit. */
  function Branch(b: Board, best: Cell, i: nat): Outcome
    requires |b[best]| > 1 && i < |b[best]|
  {
    TotalLenUpdate(b, best, [b[best][i]]);
    Search(State(b[best := [b[best][i]]], [])).1
  }

  /** The branch the loop searches for the i-th digit, whatever the log. */
  lemma BranchIs(b: Board, log: seq<Board>, best: Cell, i: nat)
    requires |b[best]| > 1 && i < |b[best]|
    ensures Branch(b, best, i) == Search(Assign(State(b, log), best, [b[best][i]])).1
  {
    SearchIgnoresLog(Assign(State(b, log), best, [b[best][i]]), State(b[best := [b[best][i]]], []));
  }

  /** The digit loop tries the digits of `best` in order: it returns the
      outcome of the first branch that succeeds, every earlier branch having
      failed, and it fails only when every branch fails. */
  lemma {:induction false} TryDigitsFirst(b: Board, log: seq<Board>, best: Cell, i: nat)
    requires |b[best]| > 1 && i <= |b[best]|
    ensures var r := TryDigits(b, log, best, i).1;
      r.Solved? ==>
        exists j :: i <= j < |b[best]| && Branch(b, best, j) == r &&
          (forall k :: i <= k < j ==> Branch(b, best, k) == Unsolvable)
    ensures !TryDigits(b, log, best, i).1.Solved? ==>
      forall k :: i <= k < |b[best]| ==> Branch(b, best, k) == Unsolvable
    decreases |b[best]| - i
  {
    if i < |b[best]| {
      var r := Search(Assign(State(b, log), best, [b[best][i]]));
      TryDigitsNext(b, log, best, i);
      BranchIs(b, log, best, i);
      if r.1.Solved? {
        assert TryDigits(b, log, best, i).1 == Branch(b, best, i);
      } else {
        assert Branch(b, best, i) == Unsolvable;
        assert TryDigits(b, log, best, i) == TryDigits(b, r.0, best, i + 1);
        TryDigitsFirst(b, r.0, best, i + 1);
        if TryDigits(b, r.0, best, i + 1).1.Solved? {
          var j :| i + 1 <= j < |b[best]| && Branch(b, best, j) == TryDigits(b, r.0, best, i + 1).1 &&
            (forall k :: i + 1 <= k < j ==> Branch(b, best, k) == Unsolvable);
          assert forall k :: i <= k < j ==> Branch(b, best, k) == Unsolvable;
        } else {
          forall k | i <= k < |b[best]| ensures Branch(b, best, k) == Unsolvable {
            if k > i {
              assert i + 1 <= k < |b[best]|;
            }
          }
        }
      }
    }
  }

  /** What search returns is fully determined, has no two equal peers, and
      only narrows its input; the assignment log only grows. */
  lemma {:induction false} SearchSound(s: State)
    ensures s.log <= Search(s).0
    ensures Search(s).1.Solved? ==>
      var v := Search(s).1.board;
      AllSolved(v) && NoPeerClash(v) && Shrinks(v, s.values)
    decreases TotalLen(s.values), 1, 0
  {
    var reduced := ReducePuzzle(s);
    var t := reduced.0;
    if reduced.1 {
      var open := Undecided(t.values);
      if |open| == 0 {
        NoUndecidedMeansSolved(t.values);
        ReduceSolvedNoClash(s);
      } else {
        TotalLenShrinks(t.values, s.values);
        TryDigitsSound(t.values, t.log, MinBox(t.values, open), 0);
        var r := Search(s);
        if r.1.Solved? {
          ShrinksTransitive(s.values, t.values, r.1.board);
        }
      }
    }
  }

  lemma {:induction false} TryDigitsSound(b: Board, log: seq<Board>, best: Cell, i: nat)
    requires |b[best]| > 1 && i <= |b[best]|
    ensures log <= TryDigits(b, log, best, i).0
    ensures TryDigits(b, log, best, i).1.Solved? ==>
      var v := TryDigits(b, log, best, i).1.board;
      AllSolved(v) && NoPeerClash(v) && Shrinks(v, b)
    decreases TotalLen(b), 0, |b[best]| - i
  {
    if i < |b[best]| {
      var d := b[best][i];
      var child := Assign(State(b, log), best, [d]);
      TotalLenUpdate(b, best, [d]);
      assert Narrows([d], b[best]);
      SearchSound(child);
      var r := Search(child);
      if r.1.Solved? {
        ShrinksTransitive(b, child.values, r.1.board);
      } else {
        TryDigitsSound(b, r.0, best, i + 1);
      }
    }
  }

  /** Search never misses a completed grid that is still possible. */
  lemma {:induction false} SearchComplete(s: State, sol: Board)
    requires IsSolution(sol) && Shrinks(sol, s.values)
    ensures Search(s).1.Solved?
    decreases TotalLen(s.values), 1, 0
  {
    ReduceKeeps(s, sol);
    var t := ReducePuzzle(s).0;
    var open := Undecided(t.values);
    if |open| > 0 {
      TotalLenShrinks(t.values, s.values);
      var best := MinBox(t.values, open);
      assert Narrows(sol[best], t.values[best]);
      assert sol[best][0] in t.values[best];
      var j :| 0 <= j < |t.values[best]| && t.values[best][j] == sol[best][0];
      TryDigitsComplete(t.values, t.log, best, 0, j, sol);
    }
  }

  lemma {:induction false} TryDigitsComplete(b: Board, log: seq<Board>, best: Cell, i: nat, j: nat, sol: Board)
    requires |b[best]| > 1 && i <= j < |b[best]|
    requires IsSolution(sol) && Shrinks(sol, b) && b[best][j] == sol[best][0]
    ensures TryDigits(b, log, best, i).1.Solved?
    decreases TotalLen(b), 0, |b[best]| - i
  {
    var d := b[best][i];
    var child := Assign(State(b, log), best, [d]);
    TotalLenUpdate(b, best, [d]);
    if i == j {
      forall c: Cell ensures Narrows(sol[c], child.values[c]) {
        if c == best {
          assert sol[c] == [sol[c][0]];
        } else {
          assert Narrows(sol[c], b[c]);
        }
      }
      SearchComplete(child, sol);
    } else {
      var r := Search(child);
      if !r.1.Solved? {
        TryDigitsComplete(b, r.0, best, i + 1, j, sol);
      }
    }
  }

  /** On a board of digits, search succeeds exactly when some completed grid
      is still possible, and then it returns one. */
  lemma SearchCorrect(s: State)
    requires OnlyDigits(s.values)
    ensures Search(s).1.Solved? <==> exists sol :: IsSolution(sol) && Shrinks(sol, s.values)
    ensures Search(s).1.Solved? ==>
      IsSolution(Search(s).1.board) && Shrinks(Search(s).1.board, s.values)
  {
    SearchSound(s);
    var r := Search(s);
    if r.1.Solved? {
      ShrinksKeepsDigits(s.values, r.1.board);
    }
    if exists sol :: IsSolution(sol) && Shrinks(sol, s.values) {
      var sol :| IsSolution(sol) && Shrinks(sol, s.values);
      SearchComplete(s, sol);
    }
  }

  /** solve: read the grid, then search. A grid that does not yield 81
      cells fails grid_values' check, here `None`. */
  function Solve(grid: string, log: seq<Board>): (r: Option<(seq<Board>, Outcome)>)
    ensures r.Some? <==> GridValues(grid).Some?
  {
    match GridValues(grid)
    case None => None
    case Some(b) => Some(Search(State(b, log)))
  }

  /** A completed grid fills in a puzzle when it keeps every given digit. */
  predicate Completes(sol: Board, b: Board) {
    forall c: Cell :: |b[c]| == 1 ==> sol[c] == b[c]
  }

  /** On a puzzle board, keeping the givens is what being still possible means. */
  lemma CompletesMeansShrinks(sol: Board, b: Board)
    requires IsSolution(sol) && IsPuzzle(b)
    ensures Completes(sol, b) <==> Shrinks(sol, b)
  {
    forall c: Cell ensures (|b[c]| == 1 ==> sol[c] == b[c]) <==> Narrows(sol[c], b[c]) {
      assert IsGivenOrOpen(b[c]);
      assert sol[c] == [sol[c][0]];
      assert sol[c][0] in sol[c];
      if b[c] == Digits {
        assert |b[c]| == 9;
      } else {
        assert b[c] == [b[c][0]];
        assert sol[c][0] in b[c] <==> sol[c][0] == b[c][0];
      }
    }
  }

  lemma PuzzleOnlyDigits(b: Board)
    requires IsPuzzle(b)
    ensures OnlyDigits(b)
  {
    forall c: Cell, ch | ch in b[c] ensures ch in Digits {
      assert IsGivenOrOpen(b[c]);
    }
  }

  /** solve finds a solution of a well-formed grid exactly when the puzzle
      has one, and what it returns solves the puzzle. */
  lemma SolveCorrect(grid: string, log: seq<Board>)
    requires GridValues(grid).Some?
    ensures var b := GridValues(grid).value;
      Solve(grid, log).Some? &&
      (Solve(grid, log).value.1.Solved? <==> exists sol :: IsSolution(sol) && Completes(sol, b))
    ensures var b := GridValues(grid).value;
      Solve(grid, log).value.1.Solved? ==>
        IsSolution(Solve(grid, log).value.1.board) && Completes(Solve(grid, log).value.1.board, b)
  {
    var b := GridValues(grid).value;
    PuzzleOnlyDigits(b);
    SearchCorrect(State(b, log));
    forall sol | IsSolution(sol) ensures Completes(sol, b) <==> Shrinks(sol, b) {
      CompletesMeansShrinks(sol, b);
    }
  }
}
