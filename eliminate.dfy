/** The elimination rule: a solved box's digit is removed from all its peers. */
module EliminationRule {
  import opened Topology
  import opened Boards

  /** The inner loop of `eliminate` for one solved box with digit `target`:
      each of `peers[..j]` in turn is assigned its candidates without that digit. */
  function EliminateFromPeers(s: State, target: Cand, peers: seq<Cell>, j: nat): State
    requires |target| == 1 && j <= |peers|
  {
    if j == 0 then s
    else
      var t := EliminateFromPeers(s, target, peers, j - 1);
      var peer := peers[j - 1];
      Assign(t, peer, RemoveDigit(t.values[peer], target[0]))
  }

  /** One more turn of the inner loop. */
  lemma EliminateFromPeersNext(s: State, target: Cand, peers: seq<Cell>, j: nat)
    requires |target| == 1 && j < |peers|
    ensures var t := EliminateFromPeers(s, target, peers, j);
      EliminateFromPeers(s, target, peers, j + 1) ==
      Assign(t, peers[j], RemoveDigit(t.values[peers[j]], target[0]))
  {
  }

  /** One iteration of the outer loop: the box is re-checked, and only if it
      still holds a single digit is that digit removed from its peers. */
  function EliminateBox(s: State, box: Cell): State {
    if |s.values[box]| == 1 then
      EliminateFromPeers(s, s.values[box], PeerList(box), |PeerList(box)|)
    else s
  }

  /** The outer loop over `solved[..k]`. */
  function EliminateBoxes(s: State, solved: seq<Cell>, k: nat): State
    requires k <= |solved|
  {
    if k == 0 then s else EliminateBox(EliminateBoxes(s, solved, k - 1), solved[k - 1])
  }

  /** One more turn of the outer loop. */
  lemma EliminateBoxesNext(s: State, solved: seq<Cell>, k: nat)
    requires k < |solved|
    ensures EliminateBoxes(s, solved, k + 1) == EliminateBox(EliminateBoxes(s, solved, k), solved[k])
  {
  }

  /** eliminate: the solved boxes are listed once, before any change is made. */
  function Eliminate(s: State): State {
    var solved := SolvedBoxes(s.values);
    EliminateBoxes(s, solved, |solved|)
  }

  /** The log is only ever appended to: the boards the inner loop produces
      depend on the starting board alone. */
  lemma {:induction false} EliminateFromPeersIgnoresLog(s1: State, s2: State, target: Cand, peers: seq<Cell>, j: nat)
    requires |target| == 1 && j <= |peers| && s1.values == s2.values
    ensures EliminateFromPeers(s1, target, peers, j).values == EliminateFromPeers(s2, target, peers, j).values
  {
    if j > 0 {
      EliminateFromPeersIgnoresLog(s1, s2, target, peers, j - 1);
      var t1 := EliminateFromPeers(s1, target, peers, j - 1);
      var t2 := EliminateFromPeers(s2, target, peers, j - 1);
      var peer := peers[j - 1];
      var v := RemoveDigit(t1.values[peer], target[0]);
      assert EliminateFromPeers(s1, target, peers, j) == Assign(t1, peer, v);
      assert EliminateFromPeers(s2, target, peers, j) == Assign(t2, peer, v);
    }
  }

  lemma {:induction false} EliminateBoxesIgnoresLog(s1: State, s2: State, solved: seq<Cell>, k: nat)
    requires k <= |solved| && s1.values == s2.values
    ensures EliminateBoxes(s1, solved, k).values == EliminateBoxes(s2, solved, k).values
  {
    if k > 0 {
      EliminateBoxesIgnoresLog(s1, s2, solved, k - 1);
      var t1 := EliminateBoxes(s1, solved, k - 1);
      var t2 := EliminateBoxes(s2, solved, k - 1);
      var box := solved[k - 1];
      if |t1.values[box]| == 1 {
        EliminateFromPeersIgnoresLog(t1, t2, t1.values[box], PeerList(box), |PeerList(box)|);
      }
    }
  }

  /** The board `eliminate` leaves does not depend on the assignment log. */
  lemma EliminateIgnoresLog(s1: State, s2: State)
    requires s1.values == s2.values
    ensures Eliminate(s1).values == Eliminate(s2).values
  {
    EliminateBoxesIgnoresLog(s1, s2, SolvedBoxes(s1.values), |SolvedBoxes(s1.values)|);
  }

  /** The boxes of `peers[..j]` have lost digit `d`; no other box has changed. */
  ghost predicate RemovedFromPeers(s: Board, r: Board, d: char, peers: seq<Cell>, j: nat)
    requires j <= |peers|
  {
    forall c: Cell :: r[c] == if c in peers[..j] then RemoveDigit(s[c], d) else s[c]
  }

  /** Removing the digit from `peers[j - 1]` extends the boxes that have lost it by that box. */
  lemma RemovedFromNextPeer(s: Board, t: Board, d: char, peers: seq<Cell>, j: nat)
    requires 0 < j <= |peers|
    requires RemovedFromPeers(s, t, d, peers, j - 1)
    ensures RemovedFromPeers(s, t[peers[j - 1] := RemoveDigit(t[peers[j - 1]], d)], d, peers, j)
  {
    var peer := peers[j - 1];
    var r := t[peer := RemoveDigit(t[peer], d)];
    PrefixMembers(peers, j);
    forall c: Cell ensures r[c] == if c in peers[..j] then RemoveDigit(s[c], d) else s[c] {
      assert t[c] == if c in peers[..j - 1] then RemoveDigit(s[c], d) else s[c];
      if c == peer && c in peers[..j - 1] {
        assert d !in t[c];
      }
    }
  }

  /** The inner loop only narrows boxes and only appends to the log. */
  lemma {:induction false} EliminateFromPeersEvolves(s: State, target: Cand, peers: seq<Cell>, j: nat)
    requires |target| == 1 && j <= |peers|
    ensures Evolves(s, EliminateFromPeers(s, target, peers, j))
  {
    if j > 0 {
      EliminateFromPeersEvolves(s, target, peers, j - 1);
      var t := EliminateFromPeers(s, target, peers, j - 1);
      var peer := peers[j - 1];
      var x := RemoveDigit(t.values[peer], target[0]);
      assert Narrows(x, t.values[peer]);
      EvolvesTransitive(s, t, Assign(t, peer, x));
    }
  }

  /** After `peers[..j]`, exactly those boxes have lost the digit. */
  lemma {:induction false} EliminateFromPeersEffect(s: State, target: Cand, peers: seq<Cell>, j: nat)
    requires |target| == 1 && j <= |peers|
    ensures RemovedFromPeers(s.values, EliminateFromPeers(s, target, peers, j).values, target[0], peers, j)
  {
    if j > 0 {
      EliminateFromPeersEffect(s, target, peers, j - 1);
      var t := EliminateFromPeers(s, target, peers, j - 1);
      var peer := peers[j - 1];
      assert EliminateFromPeers(s, target, peers, j).values ==
        t.values[peer := RemoveDigit(t.values[peer], target[0])];
      RemovedFromNextPeer(s.values, t.values, target[0], peers, j);
    }
  }

  /** Processing a box that still holds one digit removes that digit from
      every peer and leaves every other box, the box itself included, alone. */
  lemma EliminateBoxEffect(s: State, box: Cell)
    requires |s.values[box]| == 1
    ensures var r := EliminateBox(s, box);
      && Evolves(s, r)
      && forall c: Cell :: r.values[c] ==
           if IsPeer(box, c) then RemoveDigit(s.values[c], s.values[box][0]) else s.values[c]
  {
    var peers := PeerList(box);
    EliminateFromPeersEvolves(s, s.values[box], peers, |peers|);
    EliminateFromPeersEffect(s, s.values[box], peers, |peers|);
    assert peers[..|peers|] == peers;
  }

  lemma EliminateBoxEvolves(s: State, box: Cell)
    ensures Evolves(s, EliminateBox(s, box))
  {
    if |s.values[box]| == 1 {
      EliminateBoxEffect(s, box);
    }
  }

  /** Later iterations of the outer loop only shrink what earlier ones left. */
  lemma {:induction false} EliminateBoxesEvolves(s: State, solved: seq<Cell>, i: nat, k: nat)
    requires i <= k <= |solved|
    ensures Evolves(EliminateBoxes(s, solved, i), EliminateBoxes(s, solved, k))
  {
    if i < k {
      EliminateBoxesEvolves(s, solved, i, k - 1);
      var t := EliminateBoxes(s, solved, k - 1);
      EliminateBoxEvolves(t, solved[k - 1]);
      EvolvesTransitive(EliminateBoxes(s, solved, i), t, EliminateBoxes(s, solved, k));
    }
  }

  /** eliminate never adds a digit to a box and never drops a log entry. */
  lemma EliminateEvolves(s: State)
    ensures Evolves(s, Eliminate(s))
  {
    var solved := SolvedBoxes(s.values);
    EliminateBoxesEvolves(s, solved, 0, |solved|);
  }

  /** When a box and one of its peers can at most be the same digit,
      processing that box leaves an empty box. */
  lemma EliminateBoxClash(t: State, p: Cell, q: Cell, d: char)
    requires IsPeer(p, q)
    requires Narrows(t.values[p], [d]) && Narrows(t.values[q], [d])
    ensures HasEmpty(EliminateBox(t, p).values)
  {
    var u := EliminateBox(t, p);
    if |t.values[p]| == 0 {
      EliminateBoxEvolves(t, p);
      EmptyStaysEmpty(t.values, u.values);
    } else {
      assert t.values[p][0] in t.values[p];
      assert t.values[p] == [d];
      EliminateBoxEffect(t, p);
      RemoveOnlyDigit(t.values[q], d);
      assert u.values[q] == [];
    }
  }

  /** On a fully determined board, two peers holding the same digit make
      eliminate empty a box. */
  lemma EliminateExposesClash(s: State, p: Cell, q: Cell)
    requires AllSolved(s.values)
    requires IsPeer(p, q) && s.values[p] == s.values[q]
    ensures HasEmpty(Eliminate(s).values)
  {
    var solved := SolvedBoxes(s.values);
    assert p in solved;
    var k :| 0 <= k < |solved| && solved[k] == p;
    var t := EliminateBoxes(s, solved, k);
    var u := EliminateBoxes(s, solved, k + 1);
    EliminateBoxesEvolves(s, solved, 0, k);
    var d := s.values[p][0];
    assert s.values[p] == [d];
    assert Narrows(t.values[p], s.values[p]) && Narrows(t.values[q], s.values[q]);
    EliminateBoxClash(t, p, q, d);
    EliminateBoxesEvolves(s, solved, k + 1, |solved|);
    EmptyStaysEmpty(u.values, Eliminate(s).values);
  }
}
