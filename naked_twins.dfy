/** The naked-twins rule, generalised: when n boxes of a unit hold the same
    n candidates (n > 1), those candidates are removed from the other boxes
    of the unit. */
module NakedTwinsRule {
  import opened Topology
  import opened Boards

  /** The dictionary `digits_to_boxes`: each candidate string met in the unit
      maps to the boxes holding exactly it; `keys` keeps insertion order,
      which is the order `items()` visits. */
  datatype Table = Table(keys: seq<Cand>, boxes: map<Cand, seq<Cell>>)

  predicate WellFormed(t: Table) {
    Distinct(t.keys) && t.boxes.Keys == set k | k in t.keys
  }

  /** `digits_to_boxes.setdefault(key, []).append(box)`. */
  function SetDefaultAppend(t: Table, key: Cand, box: Cell): (r: Table)
    requires WellFormed(t)
    ensures WellFormed(r)
    ensures key in t.boxes ==> r == Table(t.keys, t.boxes[key := t.boxes[key] + [box]])
    ensures key !in t.boxes ==> r == Table(t.keys + [key], t.boxes[key := [box]])
  {
    if key in t.boxes then Table(t.keys, t.boxes[key := t.boxes[key] + [box]])
    else Table(t.keys + [key], t.boxes[key := [box]])
  }

  /** Every key of a well-formed table is in its map. */
  lemma KeyInTable(t: Table, i: nat)
    requires WellFormed(t) && i < |t.keys|
    ensures t.keys[i] in t.boxes
  {
    assert t.keys[i] in set k | k in t.keys;
  }

  /** The boxes of `unit[..i]` whose candidates are exactly `k`, in unit order. */
  function Matching(b: Board, unit: seq<Cell>, i: nat, k: Cand): seq<Cell>
    requires i <= |unit|
  {
    if i == 0 then []
    else Matching(b, unit, i - 1, k) + (if b[unit[i - 1]] == k then [unit[i - 1]] else [])
  }

  lemma {:induction false} MatchingMembers(b: Board, unit: seq<Cell>, i: nat, k: Cand)
    requires i <= |unit|
    ensures forall c :: c in Matching(b, unit, i, k) <==> c in unit[..i] && b[c] == k
  {
    if i > 0 {
      MatchingMembers(b, unit, i - 1, k);
      PrefixMembers(unit, i);
    }
  }

  /** Over a unit without repeats, no box is listed twice. */
  lemma {:induction false} MatchingDistinct(b: Board, unit: seq<Cell>, i: nat, k: Cand)
    requires i <= |unit| && Distinct(unit)
    ensures Distinct(Matching(b, unit, i, k))
  {
    if i > 0 {
      MatchingDistinct(b, unit, i - 1, k);
      MatchingMembers(b, unit, i - 1, k);
      DistinctNotBefore(unit, i);
    }
  }

  /** Key `k` lists the boxes of `unit[..i]` holding exactly `k`, and a
      candidate string that is not a key is held by none of them. */
  ghost predicate ListsMatching(t: Table, b: Board, unit: seq<Cell>, i: nat, k: Cand)
    requires i <= |unit|
  {
    if k in t.boxes then t.boxes[k] == Matching(b, unit, i, k) else Matching(b, unit, i, k) == []
  }

  ghost predicate Indexes(t: Table, b: Board, unit: seq<Cell>, i: nat)
    requires i <= |unit|
  {
    forall k :: ListsMatching(t, b, unit, i, k)
  }

  /** Appending the next box of the unit under its own candidates keeps the
      table indexing the unit so far. */
  lemma SetDefaultAppendIndexes(t: Table, b: Board, unit: seq<Cell>, i: nat)
    requires 0 < i <= |unit|
    requires WellFormed(t) && Indexes(t, b, unit, i - 1)
    ensures Indexes(SetDefaultAppend(t, b[unit[i - 1]], unit[i - 1]), b, unit, i)
  {
    var box := unit[i - 1];
    var r := SetDefaultAppend(t, b[box], box);
    forall k ensures ListsMatching(r, b, unit, i, k) {
      assert ListsMatching(t, b, unit, i - 1, k);
    }
  }

  /** The inner `for box in unit` loop up to `unit[..i]`, on the board `b`
      as it was when the unit was reached. */
  function BuildTable(b: Board, unit: seq<Cell>, i: nat): (r: Table)
    requires i <= |unit|
    ensures WellFormed(r)
  {
    if i == 0 then Table([], map[])
    else SetDefaultAppend(BuildTable(b, unit, i - 1), b[unit[i - 1]], unit[i - 1])
  }

  /** Each key lists, in unit order, exactly the boxes of `unit[..i]` whose
      candidates equal it; every box of `unit[..i]` is listed. */
  lemma {:induction false} BuildTableIndexes(b: Board, unit: seq<Cell>, i: nat)
    requires i <= |unit|
    ensures Indexes(BuildTable(b, unit, i), b, unit, i)
  {
    if i > 0 {
      BuildTableIndexes(b, unit, i - 1);
      SetDefaultAppendIndexes(BuildTable(b, unit, i - 1), b, unit, i);
    }
  }

  /** `for box in unit` with digit `d`, up to `unit[..j]`: boxes outside the
      group that still offer `d` lose it. */
  function RemoveFromOthers(s: State, unit: seq<Cell>, group: seq<Cell>, d: char, j: nat): State
    requires j <= |unit|
  {
    if j == 0 then s
    else
      var t := RemoveFromOthers(s, unit, group, d, j - 1);
      var box := unit[j - 1];
      if box !in group && d in t.values[box] then Assign(t, box, RemoveDigit(t.values[box], d))
      else t
  }

  /** `for digit in digits` up to `digits[..m]`. */
  function RemoveGroupDigits(s: State, unit: seq<Cell>, digits: Cand, group: seq<Cell>, m: nat): State
    requires m <= |digits|
  {
    if m == 0 then s
    else RemoveFromOthers(RemoveGroupDigits(s, unit, digits, group, m - 1), unit, group, digits[m - 1], |unit|)
  }

  /** The group `digits -> group` is naked: more than one digit, and as many
      boxes as digits. */
  predicate IsNaked(digits: Cand, group: seq<Cell>) {
    |digits| > 1 && |group| == |digits|
  }

  /** One entry of the `items()` loop. */
  function NakedTwinsEntry(s: State, unit: seq<Cell>, digits: Cand, group: seq<Cell>): State {
    if IsNaked(digits, group) then RemoveGroupDigits(s, unit, digits, group, |digits|) else s
  }

  /** The `items()` loop up to `t.keys[..k]`. */
  function NakedTwinsEntries(s: State, unit: seq<Cell>, t: Table, k: nat): State
    requires WellFormed(t) && k <= |t.keys|
  {
    if k == 0 then s
    else
      var digits := t.keys[k - 1];
      NakedTwinsEntry(NakedTwinsEntries(s, unit, t, k - 1), unit, digits, t.boxes[digits])
  }

  /** The `items()` loop one entry further. */
  lemma NakedTwinsEntriesNext(s: State, unit: seq<Cell>, t: Table, k: nat)
    requires WellFormed(t) && k < |t.keys|
    ensures t.keys[k] in t.boxes
    ensures NakedTwinsEntries(s, unit, t, k + 1) ==
      NakedTwinsEntry(NakedTwinsEntries(s, unit, t, k), unit, t.keys[k], t.boxes[t.keys[k]])
  {
    KeyInTable(t, k);
  }

  /** One iteration of `for unit in unitlist`: the table is built from the
      board as the unit is reached, then its entries are processed in order. */
  function NakedTwinsUnit(s: State, unit: seq<Cell>): State {
    var t := BuildTable(s.values, unit, |unit|);
    NakedTwinsEntries(s, unit, t, |t.keys|)
  }

  /** `for unit in unitlist` up to `UnitList()[..n]`. */
  function NakedTwinsUnits(s: State, n: nat): State
    requires n <= |UnitList()|
  {
    if n == 0 then s else NakedTwinsUnit(NakedTwinsUnits(s, n - 1), UnitList()[n - 1])
  }

  /** naked_twins. */
  function NakedTwins(s: State): State {
    NakedTwinsUnits(s, |UnitList()|)
  }

  lemma {:induction false} RemoveFromOthersIgnoresLog(s1: State, s2: State, unit: seq<Cell>, group: seq<Cell>, d: char, j: nat)
    requires j <= |unit| && s1.values == s2.values
    ensures RemoveFromOthers(s1, unit, group, d, j).values == RemoveFromOthers(s2, unit, group, d, j).values
  {
    if j > 0 {
      RemoveFromOthersIgnoresLog(s1, s2, unit, group, d, j - 1);
      var t1 := RemoveFromOthers(s1, unit, group, d, j - 1);
      var t2 := RemoveFromOthers(s2, unit, group, d, j - 1);
      assert t1.values == t2.values;
    }
  }

  lemma {:induction false} RemoveGroupDigitsIgnoresLog(s1: State, s2: State, unit: seq<Cell>, digits: Cand, group: seq<Cell>, m: nat)
    requires m <= |digits| && s1.values == s2.values
    ensures RemoveGroupDigits(s1, unit, digits, group, m).values == RemoveGroupDigits(s2, unit, digits, group, m).values
  {
    if m > 0 {
      RemoveGroupDigitsIgnoresLog(s1, s2, unit, digits, group, m - 1);
      RemoveFromOthersIgnoresLog(RemoveGroupDigits(s1, unit, digits, group, m - 1),
        RemoveGroupDigits(s2, unit, digits, group, m - 1), unit, group, digits[m - 1], |unit|);
    }
  }

  lemma {:induction false} NakedTwinsEntriesIgnoresLog(s1: State, s2: State, unit: seq<Cell>, t: Table, k: nat)
    requires WellFormed(t) && k <= |t.keys| && s1.values == s2.values
    ensures NakedTwinsEntries(s1, unit, t, k).values == NakedTwinsEntries(s2, unit, t, k).values
  {
    if k > 0 {
      NakedTwinsEntriesIgnoresLog(s1, s2, unit, t, k - 1);
      var digits := t.keys[k - 1];
      var group := t.boxes[digits];
      if IsNaked(digits, group) {
        RemoveGroupDigitsIgnoresLog(NakedTwinsEntries(s1, unit, t, k - 1),
          NakedTwinsEntries(s2, unit, t, k - 1), unit, digits, group, |digits|);
      }
    }
  }

  lemma {:induction false} NakedTwinsUnitsIgnoresLog(s1: State, s2: State, n: nat)
    requires n <= |UnitList()| && s1.values == s2.values
    ensures NakedTwinsUnits(s1, n).values == NakedTwinsUnits(s2, n).values
  {
    if n > 0 {
      NakedTwinsUnitsIgnoresLog(s1, s2, n - 1);
      var t1 := NakedTwinsUnits(s1, n - 1);
      var t2 := NakedTwinsUnits(s2, n - 1);
      var unit := UnitList()[n - 1];
      var t := BuildTable(t1.values, unit, |unit|);
      NakedTwinsEntriesIgnoresLog(t1, t2, unit, t, |t.keys|);
    }
  }

  /** The board `naked_twins` leaves does not depend on the assignment log. */
  lemma NakedTwinsIgnoresLog(s1: State, s2: State)
    requires s1.values == s2.values
    ensures NakedTwins(s1).values == NakedTwins(s2).values
  {
    NakedTwinsUnitsIgnoresLog(s1, s2, |UnitList()|);
  }

  /** The boxes of `unit[..j]` outside the group have lost `d`; no other box
      has changed. */
  ghost predicate RemovedFromOthers(s: Board, r: Board, unit: seq<Cell>, group: seq<Cell>, d: char, j: nat)
    requires j <= |unit|
  {
    forall c: Cell :: r[c] == if c in unit[..j] && c !in group then RemoveDigit(s[c], d) else s[c]
  }

  /** Visiting `unit[j - 1]` extends the boxes that have lost the digit by
      that box when it lies outside the group. */
  lemma RemovedFromNextOther(s: Board, t: Board, unit: seq<Cell>, group: seq<Cell>, d: char, j: nat)
    requires 0 < j <= |unit|
    requires RemovedFromOthers(s, t, unit, group, d, j - 1)
    ensures var box := unit[j - 1];
      RemovedFromOthers(s, if box !in group then t[box := RemoveDigit(t[box], d)] else t, unit, group, d, j)
  {
    var box := unit[j - 1];
    var r := if box !in group then t[box := RemoveDigit(t[box], d)] else t;
    PrefixMembers(unit, j);
    forall c: Cell ensures r[c] == if c in unit[..j] && c !in group then RemoveDigit(s[c], d) else s[c] {
      assert t[c] == if c in unit[..j - 1] && c !in group then RemoveDigit(s[c], d) else s[c];
      if c == box && c in unit[..j - 1] && c !in group {
        assert d !in t[c];
      }
    }
  }

  /** The loop over the unit only narrows boxes and only appends to the log. */
  lemma {:induction false} RemoveFromOthersEvolves(s: State, unit: seq<Cell>, group: seq<Cell>, d: char, j: nat)
    requires j <= |unit|
    ensures Evolves(s, RemoveFromOthers(s, unit, group, d, j))
  {
    if j > 0 {
      RemoveFromOthersEvolves(s, unit, group, d, j - 1);
      var t := RemoveFromOthers(s, unit, group, d, j - 1);
      var box := unit[j - 1];
      if box !in group && d in t.values[box] {
        assert Narrows(RemoveDigit(t.values[box], d), t.values[box]);
        EvolvesTransitive(s, t, RemoveFromOthers(s, unit, group, d, j));
      }
    }
  }

  /** Removing one digit touches exactly the boxes of `unit[..j]` outside the
      group, each losing that digit. */
  lemma {:induction false} RemoveFromOthersEffect(s: State, unit: seq<Cell>, group: seq<Cell>, d: char, j: nat)
    requires j <= |unit|
    ensures RemovedFromOthers(s.values, RemoveFromOthers(s, unit, group, d, j).values, unit, group, d, j)
  {
    if j > 0 {
      RemoveFromOthersEffect(s, unit, group, d, j - 1);
      var t := RemoveFromOthers(s, unit, group, d, j - 1);
      var box := unit[j - 1];
      assert RemoveFromOthers(s, unit, group, d, j).values ==
        if box !in group then t.values[box := RemoveDigit(t.values[box], d)] else t.values;
      RemovedFromNextOther(s.values, t.values, unit, group, d, j);
    }
  }

  /** The boxes of `unit` outside the group have lost the digits `ds`; no
      other box has changed. */
  ghost predicate RemovedAllFromOthers(s: Board, r: Board, unit: seq<Cell>, group: seq<Cell>, ds: string) {
    forall c: Cell :: r[c] == if c in unit && c !in group then RemoveAll(s[c], ds) else s[c]
  }

  /** Removing one more digit from the boxes outside the group. */
  lemma RemovedAllNextDigit(s: Board, t: Board, r: Board, unit: seq<Cell>, group: seq<Cell>, digits: Cand, m: nat)
    requires 0 < m <= |digits|
    requires RemovedAllFromOthers(s, t, unit, group, digits[..m - 1])
    requires RemovedFromOthers(t, r, unit, group, digits[m - 1], |unit|)
    ensures RemovedAllFromOthers(s, r, unit, group, digits[..m])
  {
    assert digits[..m][..m - 1] == digits[..m - 1];
    assert unit[..|unit|] == unit;
  }

  /** The loop over the group's digits only narrows boxes and only appends to
      the log. */
  lemma {:induction false} RemoveGroupDigitsEvolves(s: State, unit: seq<Cell>, digits: Cand, group: seq<Cell>, m: nat)
    requires m <= |digits|
    ensures Evolves(s, RemoveGroupDigits(s, unit, digits, group, m))
  {
    if m > 0 {
      RemoveGroupDigitsEvolves(s, unit, digits, group, m - 1);
      var t := RemoveGroupDigits(s, unit, digits, group, m - 1);
      RemoveFromOthersEvolves(t, unit, group, digits[m - 1], |unit|);
      EvolvesTransitive(s, t, RemoveGroupDigits(s, unit, digits, group, m));
    }
  }

  /** After the first `m` digits of the group, every box of the unit outside
      the group has lost those digits, and no other box has changed. */
  lemma {:induction false} RemoveGroupDigitsEffect(s: State, unit: seq<Cell>, digits: Cand, group: seq<Cell>, m: nat)
    requires m <= |digits|
    ensures RemovedAllFromOthers(s.values, RemoveGroupDigits(s, unit, digits, group, m).values, unit, group, digits[..m])
  {
    if m > 0 {
      RemoveGroupDigitsEffect(s, unit, digits, group, m - 1);
      var t := RemoveGroupDigits(s, unit, digits, group, m - 1);
      RemoveFromOthersEffect(t, unit, group, digits[m - 1], |unit|);
      RemovedAllNextDigit(s.values, t.values, RemoveGroupDigits(s, unit, digits, group, m).values,
        unit, group, digits, m);
    }
  }

  /** The effect of one entry: a naked group strips its digits from the other
      boxes of the unit and leaves its own boxes and every box outside the
      unit untouched; any other entry changes nothing. */
  lemma NakedTwinsEntryEffect(s: State, unit: seq<Cell>, digits: Cand, group: seq<Cell>)
    ensures var r := NakedTwinsEntry(s, unit, digits, group);
      && Evolves(s, r)
      && (IsNaked(digits, group) ==>
            forall c: Cell :: r.values[c] ==
              if c in unit && c !in group then RemoveAll(s.values[c], digits) else s.values[c])
      && (!IsNaked(digits, group) ==> r == s)
  {
    if IsNaked(digits, group) {
      RemoveGroupDigitsEvolves(s, unit, digits, group, |digits|);
      RemoveGroupDigitsEffect(s, unit, digits, group, |digits|);
      assert digits[..|digits|] == digits;
    }
  }

  lemma NakedTwinsEntryEvolves(s: State, unit: seq<Cell>, digits: Cand, group: seq<Cell>)
    ensures Evolves(s, NakedTwinsEntry(s, unit, digits, group))
  {
    if IsNaked(digits, group) {
      RemoveGroupDigitsEvolves(s, unit, digits, group, |digits|);
    }
  }

  lemma {:induction false} NakedTwinsEntriesEvolves(s: State, unit: seq<Cell>, t: Table, k: nat)
    requires WellFormed(t) && k <= |t.keys|
    ensures Evolves(s, NakedTwinsEntries(s, unit, t, k))
  {
    if k > 0 {
      var u := NakedTwinsEntries(s, unit, t, k - 1);
      NakedTwinsEntriesEvolves(s, unit, t, k - 1);
      KeyInTable(t, k - 1);
      NakedTwinsEntryEvolves(u, unit, t.keys[k - 1], t.boxes[t.keys[k - 1]]);
      EvolvesTransitive(s, u, NakedTwinsEntries(s, unit, t, k));
    }
  }

  lemma {:induction false} NakedTwinsUnitsEvolves(s: State, n: nat)
    requires n <= |UnitList()|
    ensures Evolves(s, NakedTwinsUnits(s, n))
  {
    if n > 0 {
      var u := NakedTwinsUnits(s, n - 1);
      NakedTwinsUnitsEvolves(s, n - 1);
      var unit := UnitList()[n - 1];
      var t := BuildTable(u.values, unit, |unit|);
      NakedTwinsEntriesEvolves(u, unit, t, |t.keys|);
      EvolvesTransitive(s, u, NakedTwinsUnits(s, n));
    }
  }

  /** naked_twins never adds a digit to a box and never drops a log entry. */
  lemma NakedTwinsEvolves(s: State)
    ensures Evolves(s, NakedTwins(s))
  {
    NakedTwinsUnitsEvolves(s, |UnitList()|);
  }
}
