/** The static layout of a diagonal Sudoku board: the 81 cells (boxes), the
    29 units (9 rows, 9 columns, 9 squares, 2 diagonals) and each cell's peers. */
module Topology {

  /** Row letters and column digits, in enumeration order. */
  const Rows: string := "ABCDEFGHI"
  const Cols: string := "123456789"

  /** A cell, by its position in the row-major enumeration A1, A2, ..., I9. */
  type Cell = c: int | 0 <= c < 81

  /** No element occurs twice. */
  predicate Distinct<T(==)>(xs: seq<T>) {
    forall i, j :: 0 <= i < j < |xs| ==> xs[i] != xs[j]
  }

  /** Membership in a prefix one element longer. */
  lemma PrefixMembers<T>(xs: seq<T>, j: nat)
    requires 0 < j <= |xs|
    ensures forall x :: x in xs[..j] <==> x in xs[..j - 1] || x == xs[j - 1]
  {
    assert xs[..j] == xs[..j - 1] + [xs[j - 1]];
  }

  /** In a sequence without repeats, an element is not among those before it. */
  lemma DistinctNotBefore<T>(xs: seq<T>, j: nat)
    requires Distinct(xs) && 0 < j <= |xs|
    ensures xs[j - 1] !in xs[..j - 1]
  {
    var front := xs[..j - 1];
    forall k | 0 <= k < |front| ensures front[k] != xs[j - 1] {
      assert front[k] == xs[k];
    }
  }

  /** A non-empty sequence is its front followed by its last element. */
  lemma SplitLast<T>(xs: seq<T>)
    requires |xs| > 0
    ensures xs == xs[..|xs| - 1] + [xs[|xs| - 1]]
  {
  }

  /** Sequences agreeing at every index are equal. */
  lemma SameElements<T>(xs: seq<T>, ys: seq<T>)
    requires |xs| == |ys| && forall i :: 0 <= i < |xs| ==> xs[i] == ys[i]
    ensures xs == ys
  {
  }

  /** The strings a + b for a in `a` and b in `b`, with `a` in the outer position. */
  function Cross(a: string, b: string): (r: seq<string>)
    ensures |r| == |a| * |b|
  {
    if |a| == 0 then []
    else seq(|b|, j requires 0 <= j < |b| => [a[0], b[j]]) + Cross(a[1..], b)
  }

  lemma {:induction false} CrossAt(a: string, b: string, i: nat, j: nat)
    requires i < |a| && j < |b|
    ensures i * |b| + j < |Cross(a, b)|
    ensures Cross(a, b)[i * |b| + j] == [a[i], b[j]]
  {
    if i > 0 {
      CrossAt(a[1..], b, i - 1, j);
      assert i * |b| + j == |b| + ((i - 1) * |b| + j);
    }
  }

  /** The cell names, A1 first and I9 last. */
  const Boxes: seq<string> := Cross(Rows, Cols)

  lemma BoxesAt(r: nat, c: nat)
    requires r < 9 && c < 9
    ensures |Boxes| == 81
    ensures Boxes[9 * r + c] == [Rows[r], Cols[c]]
  {
    CrossAt(Rows, Cols, r, c);
  }

  /** The name of a cell: its row letter, then its column digit. */
  function Name(c: Cell): string {
    [Rows[c / 9], Cols[c % 9]]
  }

  /** Cell c is the c-th entry of `boxes`. */
  lemma BoxesName(c: Cell)
    ensures |Boxes| == 81 && Boxes[c] == Name(c)
  {
    BoxesAt(c / 9, c % 9);
  }

  lemma NameAt(r: nat, c: nat)
    requires r < 9 && c < 9
    ensures Name(9 * r + c) == [Rows[r], Cols[c]]
  {
    DivMod9(9 * r + c, r, c);
  }

  /** Python's ordering of strings: lexicographic on characters. */
  predicate StrLess(x: string, y: string) {
    if |x| == 0 then |y| > 0
    else if |y| == 0 then false
    else x[0] < y[0] || (x[0] == y[0] && StrLess(x[1..], y[1..]))
  }

  lemma StrLessPair(a: char, b: char, c: char, d: char)
    ensures StrLess([a, b], [c, d]) <==> a < c || (a == c && b < d)
  {
    assert [a, b][1..] == [b] && [c, d][1..] == [d];
    assert [b][1..] == [] && [d][1..] == [];
    assert !StrLess([], []);
    assert StrLess([b], [d]) <==> b < d;
  }

  lemma RowsAndColsAscend(i: nat)
    requires i < 9
    ensures Rows[i] as int == 'A' as int + i
    ensures Cols[i] as int == '1' as int + i
  {
    if i == 0 {} else if i == 1 {} else if i == 2 {} else if i == 3 {}
    else if i == 4 {} else if i == 5 {} else if i == 6 {} else if i == 7 {} else {}
  }

  lemma IndexOrder(c: Cell, d: Cell)
    ensures c < d <==> c / 9 < d / 9 || (c / 9 == d / 9 && c % 9 < d % 9)
  {
  }

  /** Cell enumeration order is the order of the cell names, so a tie on the
      candidate count is broken the same way by either. */
  lemma NameOrder(c: Cell, d: Cell)
    ensures c < d <==> StrLess(Name(c), Name(d))
  {
    var rc, cc, rd, cd := c / 9, c % 9, d / 9, d % 9;
    IndexOrder(c, d);
    RowsAndColsAscend(rc);
    RowsAndColsAscend(rd);
    RowsAndColsAscend(cc);
    RowsAndColsAscend(cd);
    StrLessPair(Rows[rc], Cols[cc], Rows[rd], Cols[cd]);
  }

  function RowUnit(r: nat): (u: seq<Cell>)
    requires r < 9
  {
    seq(9, c requires 0 <= c < 9 => 9 * r + c)
  }

  function ColumnUnit(c: nat): (u: seq<Cell>)
    requires c < 9
  {
    seq(9, r requires 0 <= r < 9 => 9 * r + c)
  }

  /** Square q covers rows 3*(q/3).. and columns 3*(q%3).., read row by row. */
  function SquareUnit(q: nat): (u: seq<Cell>)
    requires q < 9
  {
    seq(9, k requires 0 <= k < 9 => 9 * (3 * (q / 3) + k / 3) + 3 * (q % 3) + k % 3)
  }

  /** row_units, column_units, square_units and diag_units. */
  function RowUnits(): seq<seq<Cell>> { seq(9, r requires 0 <= r < 9 => RowUnit(r)) }
  function ColumnUnits(): seq<seq<Cell>> { seq(9, c requires 0 <= c < 9 => ColumnUnit(c)) }
  function SquareUnits(): seq<seq<Cell>> { seq(9, q requires 0 <= q < 9 => SquareUnit(q)) }
  function DiagUnits(): seq<seq<Cell>> {
    [seq(9, i requires 0 <= i < 9 => 9 * i + i), seq(9, i requires 0 <= i < 9 => 9 * i + (8 - i))]
  }

  /** All units, in the order rows, columns, squares, diagonals. */
  function UnitList(): seq<seq<Cell>> { RowUnits() + ColumnUnits() + SquareUnits() + DiagUnits() }

  /** The names of the cells of a unit. */
  function UnitNames(u: seq<Cell>): (r: seq<string>)
    ensures |r| == |u|
  {
    seq(|u|, i requires 0 <= i < |u| => Name(u[i]))
  }

  lemma UnitNamesAt(u: seq<Cell>, i: nat, c: Cell)
    requires i < |u| && u[i] == c
    ensures UnitNames(u)[i] == Name(c)
  {
  }

  /** The index units are the name units of the source: cross(r, cols),
      cross(rows, c), cross(rs, cs) and the two diagonals. */
  lemma RowUnitNames(k: nat)
    requires k < 9
    ensures UnitNames(RowUnits()[k]) == Cross([Rows[k]], Cols)
  {
    var x := Cross([Rows[k]], Cols);
    var u := RowUnits()[k];
    assert u == RowUnit(k);
    forall i | 0 <= i < 9 ensures UnitNames(u)[i] == x[i] {
      assert u[i] == 9 * k + i;
      UnitNamesAt(u, i, 9 * k + i);
      NameAt(k, i);
      CrossAt([Rows[k]], Cols, 0, i);
    }
  }

  lemma ColumnUnitNames(k: nat)
    requires k < 9
    ensures UnitNames(ColumnUnits()[k]) == Cross(Rows, [Cols[k]])
  {
    var x := Cross(Rows, [Cols[k]]);
    var u := ColumnUnits()[k];
    assert u == ColumnUnit(k);
    forall i | 0 <= i < 9 ensures UnitNames(u)[i] == x[i] {
      assert u[i] == 9 * i + k;
      UnitNamesAt(u, i, 9 * i + k);
      NameAt(i, k);
      CrossAt(Rows, [Cols[k]], i, 0);
    }
  }

  lemma SquareUnitAt(q: nat, a: nat, b: nat)
    requires q < 9 && a < 3 && b < 3
    ensures SquareUnit(q)[3 * a + b] == 9 * (3 * (q / 3) + a) + (3 * (q % 3) + b)
  {
    var k := 3 * a + b;
    assert k / 3 == a && k % 3 == b;
  }

  lemma SquareNameAt(k: nat, a: nat, b: nat)
    requires k < 9 && a < 3 && b < 3
    ensures UnitNames(SquareUnits()[k])[3 * a + b] == [Rows[3 * (k / 3) + a], Cols[3 * (k % 3) + b]]
  {
    var r, c := 3 * (k / 3) + a, 3 * (k % 3) + b;
    var u := SquareUnits()[k];
    assert u == SquareUnit(k);
    SquareUnitAt(k, a, b);
    var cell: Cell := 9 * r + c;
    UnitNamesAt(u, 3 * a + b, cell);
    NameAt(r, c);
    assert UnitNames(u)[3 * a + b] == Name(cell) == [Rows[r], Cols[c]];
  }

  lemma CrossSliceAt(k: nat, a: nat, b: nat)
    requires k < 9 && a < 3 && b < 3
    ensures var rs, cs := Rows[3 * (k / 3)..3 * (k / 3) + 3], Cols[3 * (k % 3)..3 * (k % 3) + 3];
      |Cross(rs, cs)| == 9 && Cross(rs, cs)[3 * a + b] == [Rows[3 * (k / 3) + a], Cols[3 * (k % 3) + b]]
  {
    var rs, cs := Rows[3 * (k / 3)..3 * (k / 3) + 3], Cols[3 * (k % 3)..3 * (k % 3) + 3];
    assert |rs| == 3 && |cs| == 3;
    CrossAt(rs, cs, a, b);
  }

  lemma SquareUnitNames(k: nat)
    requires k < 9
    ensures UnitNames(SquareUnits()[k]) ==
      Cross(Rows[3 * (k / 3)..3 * (k / 3) + 3], Cols[3 * (k % 3)..3 * (k % 3) + 3])
  {
    var x := Cross(Rows[3 * (k / 3)..3 * (k / 3) + 3], Cols[3 * (k % 3)..3 * (k % 3) + 3]);
    var names := UnitNames(SquareUnits()[k]);
    CrossSliceAt(k, 0, 0);
    forall i | 0 <= i < 9 ensures names[i] == x[i] {
      var a, b := i / 3, i % 3;
      assert i == 3 * a + b;
      CrossSliceAt(k, a, b);
      SquareNameAt(k, a, b);
    }
  }

  lemma DiagUnitNames(k: nat)
    requires k < 9
    ensures UnitNames(DiagUnits()[0])[k] == [Rows[k], Cols[k]]
  {
    var u := DiagUnits()[0];
    assert u[k] == 9 * k + k;
    NameAt(k, k);
  }

  lemma AntiDiagUnitNames(k: nat)
    requires k < 9
    ensures UnitNames(DiagUnits()[1])[k] == [Rows[k], Cols[8 - k]]
  {
    var u := DiagUnits()[1];
    assert u[k] == 9 * k + (8 - k);
    NameAt(k, 8 - k);
  }

  /** There are 29 units, each of 9 distinct cells. */
  lemma UnitListShape()
    ensures |UnitList()| == 29
    ensures forall k :: 0 <= k < |UnitList()| ==> |UnitList()[k]| == 9 && Distinct(UnitList()[k])
  {
    forall k | 0 <= k < |UnitList()| ensures |UnitList()[k]| == 9 && Distinct(UnitList()[k]) {
      if k < 9 {
        assert UnitList()[k] == RowUnit(k);
      } else if k < 18 {
        assert UnitList()[k] == ColumnUnit(k - 9);
      } else if k < 27 {
        var q := k - 18;
        var u := SquareUnit(q);
        assert UnitList()[k] == u;
        forall i, j | 0 <= i < j < 9 ensures u[i] != u[j] {
          assert u[i] == 9 * (3 * (q / 3) + i / 3) + 3 * (q % 3) + i % 3;
          assert u[j] == 9 * (3 * (q / 3) + j / 3) + 3 * (q % 3) + j % 3;
        }
      } else {
        assert UnitList()[k] == DiagUnits()[k - 27];
      }
    }
  }

  /** units[s]: the units holding `s`, in unit-list order. */
  function UnitsContaining(us: seq<seq<Cell>>, s: Cell): (r: seq<seq<Cell>>)
    ensures forall u :: u in r <==> u in us && s in u
  {
    if |us| == 0 then []
    else (if s in us[0] then [us[0]] else []) + UnitsContaining(us[1..], s)
  }

  function UnitsOf(s: Cell): seq<seq<Cell>> {
    UnitsContaining(UnitList(), s)
  }

  /** sum(units, []): the units' cells laid end to end. */
  function Flatten(us: seq<seq<Cell>>): (r: seq<Cell>)
    ensures forall c :: c in r <==> exists u :: u in us && c in u
  {
    if |us| == 0 then []
    else
      var rest := Flatten(us[1..]);
      assert forall u :: u in us <==> u == us[0] || u in us[1..];
      us[0] + rest
  }

  /** peers[s]: every cell sharing a unit with `s`, except `s` itself. */
  function PeerSet(s: Cell): (r: set<Cell>)
    ensures s !in r
  {
    (set c | c in Flatten(UnitsOf(s))) - {s}
  }

  /** Two cells lie together in some unit of the unit list. */
  predicate SharesUnit(a: Cell, b: Cell) {
    exists k :: 0 <= k < |UnitList()| && a in UnitList()[k] && b in UnitList()[k]
  }

  lemma PeerSetMeaning(s: Cell, c: Cell)
    ensures c in PeerSet(s) <==> c != s && SharesUnit(s, c)
  {
    if c != s && SharesUnit(s, c) {
      var k :| 0 <= k < |UnitList()| && s in UnitList()[k] && c in UnitList()[k];
      assert UnitList()[k] in UnitsOf(s);
    }
    if c in PeerSet(s) {
      var u :| u in UnitsOf(s) && c in u;
      var k :| 0 <= k < |UnitList()| && UnitList()[k] == u;
    }
  }

  /** The peer relation is symmetric. */
  lemma PeersSymmetric(a: Cell, b: Cell)
    ensures b in PeerSet(a) <==> a in PeerSet(b)
  {
    PeerSetMeaning(a, b);
    PeerSetMeaning(b, a);
  }

  /** Two cells in the same square of the grid. */
  predicate SameSquare(c: Cell, d: Cell) {
    c / 9 / 3 == d / 9 / 3 && c % 9 / 3 == d % 9 / 3
  }

  predicate OnDiagonal(c: Cell) {
    c / 9 == c % 9
  }

  predicate OnAntiDiagonal(c: Cell) {
    c / 9 + c % 9 == 8
  }

  /** `d` is one of the peers of `c`, written out on cell indices: another
      cell of the same row, column or square, or of a diagonal both lie on. */
  predicate IsPeer(c: Cell, d: Cell) {
    c != d &&
    (c / 9 == d / 9 || c % 9 == d % 9 || SameSquare(c, d) ||
     (OnDiagonal(c) && OnDiagonal(d)) || (OnAntiDiagonal(c) && OnAntiDiagonal(d)))
  }

  lemma DivMod9(a: int, q: int, r: int)
    requires 0 <= r < 9 && a == 9 * q + r
    ensures a / 9 == q && a % 9 == r
  {
  }

  lemma DivMod3(a: int, q: int, r: int)
    requires 0 <= r < 3 && a == 3 * q + r
    ensures a / 3 == q && a % 3 == r
  {
  }

  lemma RowUnitHas(r: nat, a: Cell)
    requires r < 9
    ensures a in RowUnit(r) <==> a / 9 == r
  {
    if a in RowUnit(r) {
      var i :| 0 <= i < 9 && RowUnit(r)[i] == a;
      DivMod9(a, r, i);
    }
    if a / 9 == r {
      assert RowUnit(r)[a % 9] == a;
    }
  }

  lemma ColumnUnitHas(c: nat, a: Cell)
    requires c < 9
    ensures a in ColumnUnit(c) <==> a % 9 == c
  {
    if a in ColumnUnit(c) {
      var i :| 0 <= i < 9 && ColumnUnit(c)[i] == a;
      DivMod9(a, i, c);
    }
    if a % 9 == c {
      assert ColumnUnit(c)[a / 9] == a;
    }
  }

  lemma SquareUnitHas(q: nat, a: Cell)
    requires q < 9
    ensures a in SquareUnit(q) <==> a / 9 / 3 == q / 3 && a % 9 / 3 == q % 3
  {
    if a in SquareUnit(q) {
      var k :| 0 <= k < 9 && SquareUnit(q)[k] == a;
      var i, j := k / 3, k % 3;
      assert k == 3 * i + j;
      SquareUnitAt(q, i, j);
      DivMod9(a, 3 * (q / 3) + i, 3 * (q % 3) + j);
      DivMod3(a / 9, q / 3, i);
      DivMod3(a % 9, q % 3, j);
    }
    if a / 9 / 3 == q / 3 && a % 9 / 3 == q % 3 {
      var i, j := a / 9 % 3, a % 9 % 3;
      SquareUnitAt(q, i, j);
      assert a / 9 == 3 * (q / 3) + i;
      assert a % 9 == 3 * (q % 3) + j;
      assert SquareUnit(q)[3 * i + j] == a;
    }
  }

  lemma DiagonalsHave(a: Cell)
    ensures a in DiagUnits()[0] <==> OnDiagonal(a)
    ensures a in DiagUnits()[1] <==> OnAntiDiagonal(a)
  {
    var d, e := DiagUnits()[0], DiagUnits()[1];
    if a in d {
      var i :| 0 <= i < 9 && d[i] == a;
      DivMod9(a, i, i);
    }
    if OnDiagonal(a) {
      assert d[a / 9] == a;
    }
    if a in e {
      var i :| 0 <= i < 9 && e[i] == a;
      DivMod9(a, i, 8 - i);
    }
    if OnAntiDiagonal(a) {
      assert e[a / 9] == a;
    }
  }

  /** The cells of the k-th unit, by index arithmetic. */
  predicate InUnit(k: nat, a: Cell) {
    if k < 9 then a / 9 == k
    else if k < 18 then a % 9 == k - 9
    else if k < 27 then a / 9 / 3 == (k - 18) / 3 && a % 9 / 3 == (k - 18) % 3
    else if k == 27 then OnDiagonal(a)
    else OnAntiDiagonal(a)
  }

  lemma UnitHas(k: nat, a: Cell)
    requires k < 29
    ensures |UnitList()| == 29 && (a in UnitList()[k] <==> InUnit(k, a))
  {
    assert |UnitList()| == 29;
    if k < 9 {
      assert UnitList()[k] == RowUnit(k);
      RowUnitHas(k, a);
    } else if k < 18 {
      assert UnitList()[k] == ColumnUnit(k - 9);
      ColumnUnitHas(k - 9, a);
    } else if k < 27 {
      assert UnitList()[k] == SquareUnit(k - 18);
      SquareUnitHas(k - 18, a);
    } else {
      assert UnitList()[k] == DiagUnits()[k - 27];
      DiagonalsHave(a);
    }
  }

  /** Two different cells that share unit k pass the peer test. */
  lemma SharedUnitIsPeer(k: nat, c: Cell, d: Cell)
    requires k < 29 && c != d
    requires |UnitList()| == 29 && c in UnitList()[k] && d in UnitList()[k]
    ensures IsPeer(c, d)
  {
    UnitHas(k, c);
    UnitHas(k, d);
  }

  /** Cells c and d both lie in unit k. */
  lemma InUnitShares(k: nat, c: Cell, d: Cell)
    requires k < 29 && InUnit(k, c) && InUnit(k, d)
    ensures SharesUnit(c, d)
  {
    UnitHas(k, c);
    UnitHas(k, d);
  }

  /** The unit a pair passing the peer test shares. */
  lemma PeerSharesUnit(c: Cell, d: Cell)
    requires IsPeer(c, d)
    ensures SharesUnit(c, d)
  {
    if c / 9 == d / 9 {
      InUnitShares(c / 9, c, d);
    } else if c % 9 == d % 9 {
      InUnitShares(9 + c % 9, c, d);
    } else if SameSquare(c, d) {
      var k := 18 + 3 * (c / 9 / 3) + c % 9 / 3;
      DivMod3(k - 18, c / 9 / 3, c % 9 / 3);
      InUnitShares(k, c, d);
    } else if OnDiagonal(c) && OnDiagonal(d) {
      InUnitShares(27, c, d);
    } else {
      InUnitShares(28, c, d);
    }
  }

  /** The peer test agrees with peers[s] as the unit list defines it. */
  lemma IsPeerMeaning(c: Cell, d: Cell)
    ensures IsPeer(c, d) <==> d in PeerSet(c)
  {
    PeerSetMeaning(c, d);
    if d in PeerSet(c) {
      var k :| 0 <= k < |UnitList()| && c in UnitList()[k] && d in UnitList()[k];
      UnitListShape();
      SharedUnitIsPeer(k, c, d);
    }
    if IsPeer(c, d) {
      PeerSharesUnit(c, d);
    }
  }

  /** Two different cells of one unit are peers. */
  lemma UnitMatesArePeers(k: nat, c: Cell, d: Cell)
    requires k < |UnitList()| && c in UnitList()[k] && d in UnitList()[k] && c != d
    ensures IsPeer(c, d)
  {
    PeerSetMeaning(c, d);
    IsPeerMeaning(c, d);
  }

  /** The peers of `s` among the cells c < n, in increasing order. */
  function PeersBelow(s: Cell, n: nat): (r: seq<Cell>)
    requires n <= 81
    ensures forall c: Cell :: c in r <==> c < n && IsPeer(s, c)
  {
    if n == 0 then [] else PeersBelow(s, n - 1) + (if IsPeer(s, n - 1) then [n - 1] else [])
  }

  /** The peers of `s` in cell order; the source iterates a Python set, whose
      order is not fixed. */
  function PeerList(s: Cell): (r: seq<Cell>)
    ensures forall c: Cell :: c in r <==> IsPeer(s, c)
  {
    PeersBelow(s, 81)
  }
}
