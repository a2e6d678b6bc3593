/** The board: a candidate string per cell, the assignment primitive that is
    the only way a board changes, and the log of snapshots it keeps. */
module Boards {
  import opened Topology

  /** The digits still possible for one cell, as a string such as "1379". */
  type Cand = string

  /** One candidate string per cell, indexed by cell. */
  type Board = b: seq<Cand> | |b| == 81 witness seq(81, _ => "")

  /** The nine digits in their fixed order. */
  const Digits: string := "123456789"

  /** A board together with the assignment log: the snapshots of the board
      taken each time an assignment leaves a cell with a single digit. */
  datatype State = State(values: Board, log: seq<Board>)

  /** `x.replace(d, '')`: `x` without the digit `d`. */
  function RemoveDigit(x: Cand, d: char): (r: Cand)
    ensures forall ch :: ch in r <==> ch in x && ch != d
    ensures |r| <= |x|
    ensures d in x ==> |r| < |x|
    ensures d !in x ==> r == x
  {
    if |x| == 0 then []
    else
      var rest := RemoveDigit(x[1..], d);
      assert forall ch :: ch in x <==> ch == x[0] || ch in x[1..];
      (if x[0] == d then [] else [x[0]]) + rest
  }

  /** A box that can at most be `d` is emptied by removing `d`. */
  lemma RemoveOnlyDigit(x: Cand, d: char)
    requires Narrows(x, [d])
    ensures RemoveDigit(x, d) == []
  {
    if |x| == 1 {
      assert x[0] in x;
      assert x == [d];
    }
  }

  /** `x` with every digit of `ds` removed, one digit after the other. */
  function RemoveAll(x: Cand, ds: string): (r: Cand)
    ensures forall ch :: ch in r <==> ch in x && ch !in ds
    ensures |r| <= |x|
  {
    if |ds| == 0 then x
    else
      var ds' := ds[..|ds| - 1];
      assert forall ch :: ch in ds <==> ch in ds' || ch == ds[|ds| - 1];
      RemoveDigit(RemoveAll(x, ds'), ds[|ds| - 1])
  }

  /** `x` offers no digit that `y` does not, and no more characters. */
  predicate Narrows(x: Cand, y: Cand) {
    |x| <= |y| && forall ch :: ch in x ==> ch in y
  }

  /** No cell of `t` has grown relative to `s`. */
  predicate Shrinks(t: Board, s: Board) {
    forall c: Cell :: Narrows(t[c], s[c])
  }

  /** `t` is reachable from `s`: candidates only shrank and the log only grew. */
  predicate Evolves(s: State, t: State) {
    Shrinks(t.values, s.values) && s.log <= t.log
  }

  lemma ShrinksTransitive(s: Board, t: Board, u: Board)
    requires Shrinks(t, s) && Shrinks(u, t)
    ensures Shrinks(u, s)
  {
    forall c: Cell ensures Narrows(u[c], s[c]) {
      assert Narrows(u[c], t[c]) && Narrows(t[c], s[c]);
    }
  }

  lemma EvolvesTransitive(s: State, t: State, u: State)
    requires Evolves(s, t) && Evolves(t, u)
    ensures Evolves(s, u)
  {
    ShrinksTransitive(s.values, t.values, u.values);
  }

  /** assign_value: set `box` to `value`; log a snapshot when that leaves the
      box with one digit; do nothing at all when the value is unchanged. */
  function Assign(s: State, box: Cell, value: Cand): (r: State)
    ensures r.values == s.values[box := value]
    ensures value == s.values[box] ==> r == s
    ensures value != s.values[box] && |value| == 1 ==> r.log == s.log + [r.values]
    ensures value == s.values[box] || |value| != 1 ==> r.log == s.log
    ensures Narrows(value, s.values[box]) ==> Evolves(s, r)
  {
    if s.values[box] == value then s
    else
      var v := s.values[box := value];
      State(v, if |value| == 1 then s.log + [v] else s.log)
  }

  /** The boxes c < n holding a single digit, in cell order. */
  function SolvedUpTo(b: Board, n: nat): (r: seq<Cell>)
    requires n <= 81
    ensures forall c: Cell :: c in r <==> c < n && |b[c]| == 1
    ensures |r| <= n
  {
    if n == 0 then [] else SolvedUpTo(b, n - 1) + (if |b[n - 1]| == 1 then [n - 1] else [])
  }

  /** The boxes holding a single digit, in cell order. */
  function SolvedBoxes(b: Board): seq<Cell> {
    SolvedUpTo(b, 81)
  }

  function SolvedCount(b: Board): nat {
    |SolvedBoxes(b)|
  }

  /** The boxes c < n with more than one candidate, in cell order. */
  function UndecidedBelow(b: Board, n: nat): (r: seq<Cell>)
    requires n <= 81
    ensures forall c: Cell :: c in r <==> c < n && |b[c]| > 1
  {
    if n == 0 then [] else UndecidedBelow(b, n - 1) + (if |b[n - 1]| > 1 then [n - 1] else [])
  }

  /** The boxes with more than one candidate, in cell order. */
  function Undecided(b: Board): (r: seq<Cell>)
    ensures forall c: Cell :: c in r <==> |b[c]| > 1
  {
    UndecidedBelow(b, 81)
  }

  /** Some box has no candidate left. */
  predicate HasEmpty(b: Board) {
    exists c: Cell :: |b[c]| == 0
  }

  predicate AllSolved(b: Board) {
    forall c: Cell :: |b[c]| == 1
  }

  /** No two peers hold the same candidate string. */
  predicate NoPeerClash(b: Board) {
    forall c: Cell, d: Cell :: IsPeer(c, d) ==> b[c] != b[d]
  }

  /** Every candidate is one of the nine digits. */
  predicate OnlyDigits(b: Board) {
    forall c: Cell, ch :: ch in b[c] ==> ch in Digits
  }

  lemma {:induction false} SolvedUpToMonotone(s: Board, t: Board, n: nat)
    requires n <= 81
    requires forall c: Cell :: c < n && |s[c]| == 1 ==> |t[c]| == 1
    ensures |SolvedUpTo(s, n)| <= |SolvedUpTo(t, n)|
  {
    if n > 0 {
      SolvedUpToMonotone(s, t, n - 1);
    }
  }

  /** Once solved, a box stays solved as long as it does not become empty. */
  lemma SolvedCountMonotone(s: Board, t: Board)
    requires Shrinks(t, s) && !HasEmpty(t)
    ensures SolvedCount(s) <= SolvedCount(t) <= 81
  {
    forall c: Cell | |s[c]| == 1 ensures |t[c]| == 1 {
      assert Narrows(t[c], s[c]);
      assert |t[c]| != 0;
    }
    SolvedUpToMonotone(s, t, 81);
  }

  lemma {:induction false} SolvedUpToAll(b: Board, n: nat)
    requires n <= 81
    ensures |SolvedUpTo(b, n)| == n <==> forall c: Cell :: c < n ==> |b[c]| == 1
  {
    if n > 0 {
      SolvedUpToAll(b, n - 1);
    }
  }

  lemma SolvedCountFull(b: Board)
    ensures SolvedCount(b) == 81 <==> AllSolved(b)
  {
    SolvedUpToAll(b, 81);
  }

  /** With no box empty and no box undecided, every box is solved. */
  lemma NoUndecidedMeansSolved(b: Board)
    requires !HasEmpty(b) && |Undecided(b)| == 0
    ensures AllSolved(b)
  {
    forall c: Cell ensures |b[c]| == 1 {
      assert c !in Undecided(b);
      assert |b[c]| != 0;
    }
  }

  lemma EmptyStaysEmpty(s: Board, t: Board)
    requires HasEmpty(s) && Shrinks(t, s)
    ensures HasEmpty(t)
  {
    var c: Cell :| |s[c]| == 0;
    assert Narrows(t[c], s[c]);
  }

  lemma ShrinksKeepsDigits(s: Board, t: Board)
    requires OnlyDigits(s) && Shrinks(t, s)
    ensures OnlyDigits(t)
  {
    forall c: Cell, ch | ch in t[c] ensures ch in Digits {
      assert Narrows(t[c], s[c]);
    }
  }

  /** The total number of candidates on a board: the measure of the search. */
  function TotalLen(b: seq<Cand>): nat {
    if |b| == 0 then 0 else |b[0]| + TotalLen(b[1..])
  }

  lemma {:induction false} TotalLenUpdate(b: seq<Cand>, i: nat, x: Cand)
    requires i < |b|
    ensures TotalLen(b[i := x]) == TotalLen(b) - |b[i]| + |x|
  {
    if i > 0 {
      TotalLenUpdate(b[1..], i - 1, x);
      assert b[i := x][1..] == b[1..][i - 1 := x];
    }
  }

  lemma {:induction false} TotalLenPointwise(t: seq<Cand>, s: seq<Cand>)
    requires |t| == |s|
    requires forall i :: 0 <= i < |s| ==> |t[i]| <= |s[i]|
    ensures TotalLen(t) <= TotalLen(s)
  {
    if |s| > 0 {
      TotalLenPointwise(t[1..], s[1..]);
    }
  }

  lemma TotalLenShrinks(t: Board, s: Board)
    requires Shrinks(t, s)
    ensures TotalLen(t) <= TotalLen(s)
  {
    forall i | 0 <= i < 81 ensures |t[i]| <= |s[i]| {
      assert Narrows(t[i], s[i]);
    }
    TotalLenPointwise(t, s);
  }
}
