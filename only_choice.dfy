/** The only-choice rule: a digit that fits in a single box of a unit is
    assigned to that box. */
module OnlyChoiceRule {
  import opened Topology
  import opened Boards

  /** `[box for box in unit if digit in values[box]]`. */
  function Holders(b: Board, unit: seq<Cell>, d: char): (r: seq<Cell>)
    ensures forall c :: c in r <==> c in unit && d in b[c]
    ensures Distinct(unit) ==> Distinct(r)
  {
    if |unit| == 0 then []
    else
      var rest := Holders(b, unit[1..], d);
      assert forall c :: c in unit <==> c == unit[0] || c in unit[1..];
      assert Distinct(unit) ==> unit[0] !in unit[1..];
      (if d in b[unit[0]] then [unit[0]] else []) + rest
  }

  /** `c` is the one box of `unit` that still offers `d`. */
  predicate SoleHolder(b: Board, unit: seq<Cell>, d: char, c: Cell) {
    c in unit && d in b[c] && forall c' :: c' in unit && d in b[c'] ==> c' == c
  }

  lemma FirstTwo(xs: seq<Cell>)
    requires |xs| >= 2
    ensures xs[0] in xs && xs[1] in xs
  {
  }

  lemma HoldersSingle(b: Board, unit: seq<Cell>, d: char)
    requires Distinct(unit)
    ensures var hs := Holders(b, unit, d);
      (|hs| == 1 ==> SoleHolder(b, unit, d, hs[0]))
      && forall c: Cell :: SoleHolder(b, unit, d, c) ==> hs == [c]
  {
    var hs := Holders(b, unit, d);
    if |hs| == 1 {
      assert hs[0] in hs;
    }
    forall c: Cell | SoleHolder(b, unit, d, c) ensures hs == [c] {
      assert c in hs;
      if |hs| > 1 {
        FirstTwo(hs);
        assert false;
      }
      assert hs[0] == c;
    }
  }

  /** The body of the digit loop: if exactly one box of the unit holds `d`,
      that box is assigned the single digit `d`. */
  function OnlyChoiceStep(s: State, unit: seq<Cell>, d: char): State {
    var holders := Holders(s.values, unit, d);
    if |holders| == 1 then Assign(s, holders[0], [d]) else s
  }

  /** `for digit in '123456789'` up to `Digits[..k]`. */
  function OnlyChoiceDigits(s: State, unit: seq<Cell>, k: nat): State
    requires k <= |Digits|
  {
    if k == 0 then s else OnlyChoiceStep(OnlyChoiceDigits(s, unit, k - 1), unit, Digits[k - 1])
  }

  /** `for unit in unitlist` up to `UnitList()[..n]`. */
  function OnlyChoiceUnits(s: State, n: nat): State
    requires n <= |UnitList()|
  {
    if n == 0 then s
    else OnlyChoiceDigits(OnlyChoiceUnits(s, n - 1), UnitList()[n - 1], |Digits|)
  }

  /** only_choice. */
  function OnlyChoice(s: State): State {
    OnlyChoiceUnits(s, |UnitList()|)
  }

  lemma {:induction false} OnlyChoiceDigitsIgnoresLog(s1: State, s2: State, unit: seq<Cell>, k: nat)
    requires k <= |Digits| && s1.values == s2.values
    ensures OnlyChoiceDigits(s1, unit, k).values == OnlyChoiceDigits(s2, unit, k).values
  {
    if k > 0 {
      OnlyChoiceDigitsIgnoresLog(s1, s2, unit, k - 1);
    }
  }

  lemma {:induction false} OnlyChoiceUnitsIgnoresLog(s1: State, s2: State, n: nat)
    requires n <= |UnitList()| && s1.values == s2.values
    ensures OnlyChoiceUnits(s1, n).values == OnlyChoiceUnits(s2, n).values
  {
    if n > 0 {
      OnlyChoiceUnitsIgnoresLog(s1, s2, n - 1);
      OnlyChoiceDigitsIgnoresLog(OnlyChoiceUnits(s1, n - 1), OnlyChoiceUnits(s2, n - 1), UnitList()[n - 1], |Digits|);
    }
  }

  /** The board `only_choice` leaves does not depend on the assignment log. */
  lemma OnlyChoiceIgnoresLog(s1: State, s2: State)
    requires s1.values == s2.values
    ensures OnlyChoice(s1).values == OnlyChoice(s2).values
  {
    OnlyChoiceUnitsIgnoresLog(s1, s2, |UnitList()|);
  }

  /** When exactly one box of a unit holds `d`, that box becomes the single
      digit `d` and nothing else changes; otherwise nothing changes at all. */
  lemma OnlyChoiceStepEffect(s: State, unit: seq<Cell>, d: char)
    requires Distinct(unit)
    ensures var r := OnlyChoiceStep(s, unit, d);
      && Evolves(s, r)
      && (forall c: Cell :: SoleHolder(s.values, unit, d, c) ==> r.values == s.values[c := [d]])
      && ((forall c: Cell :: !SoleHolder(s.values, unit, d, c)) ==> r == s)
  {
    HoldersSingle(s.values, unit, d);
    var hs := Holders(s.values, unit, d);
    if |hs| == 1 {
      var c := hs[0];
      assert c in hs;
      assert Narrows([d], s.values[c]) by {
        assert d in s.values[c];
        assert |s.values[c]| > 0;
      }
    }
  }

  lemma {:induction false} OnlyChoiceDigitsEvolves(s: State, unit: seq<Cell>, k: nat)
    requires k <= |Digits| && Distinct(unit)
    ensures Evolves(s, OnlyChoiceDigits(s, unit, k))
  {
    if k > 0 {
      var t := OnlyChoiceDigits(s, unit, k - 1);
      var d := Digits[k - 1];
      var u := OnlyChoiceStep(t, unit, d);
      assert OnlyChoiceDigits(s, unit, k) == u;
      OnlyChoiceDigitsEvolves(s, unit, k - 1);
      OnlyChoiceStepEffect(t, unit, d);
      assert Evolves(t, u);
      EvolvesTransitive(s, t, u);
    }
  }

  lemma {:induction false} OnlyChoiceUnitsEvolves(s: State, n: nat)
    requires n <= |UnitList()|
    ensures Evolves(s, OnlyChoiceUnits(s, n))
  {
    if n > 0 {
      var t := OnlyChoiceUnits(s, n - 1);
      OnlyChoiceUnitsEvolves(s, n - 1);
      UnitListShape();
      OnlyChoiceDigitsEvolves(t, UnitList()[n - 1], |Digits|);
      EvolvesTransitive(s, t, OnlyChoiceUnits(s, n));
    }
  }

  /** only_choice never adds a digit to a box: every write narrows a box to
      a digit it already offered. */
  lemma OnlyChoiceEvolves(s: State)
    ensures Evolves(s, OnlyChoice(s))
  {
    OnlyChoiceUnitsEvolves(s, |UnitList()|);
  }
}
