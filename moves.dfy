// The successor rule shared by every solver (get_neighbors): a red piece
// steps right into an empty cell or jumps right over one occupied cell into
// the empty cell beyond it; a green piece does the same to the left.

module Moves {
  import opened Board

  /** A move of the piece at src to the cell dst. */
  datatype Move = Move(src: nat, dst: nat)

  /** The rule stated declaratively: the destination is empty and lies one
      cell in the piece's direction, or two cells with an occupied cell between. */
  predicate Legal(s: State, m: Move)
  {
    && m.src < |s| && m.dst < |s| && s[m.dst] == Empty
    && (|| (s[m.src] == Red && (m.dst == m.src + 1 || (m.dst == m.src + 2 && s[m.src + 1] != Empty)))
        || (s[m.src] == Green && (m.src == m.dst + 1 || (m.src == m.dst + 2 && s[m.dst + 1] != Empty))))
  }

  predicate InRange(s: State, ms: seq<Move>)
  {
    forall m :: m in ms ==> m.src < |s| && m.dst < |s|
  }

  /** The board after a move: the origin is emptied, the destination gets the piece. */
  function Apply(s: State, m: Move): State
    requires m.src < |s| && m.dst < |s|
  {
    s[m.src := Empty][m.dst := s[m.src]]
  }

  /** The moves of the piece at i. The source tries the step and then the
      jump; the step needs the next cell empty and the jump needs it
      occupied, so at most one applies and they are written as one choice. */
  function MovesAt(s: State, i: nat): seq<Move>
    requires i < |s|
  {
    var n := |s|;
    match s[i]
    case Red =>
      if i + 1 < n && s[i + 1] == Empty then [Move(i, i + 1)]
      else if i + 2 < n && s[i + 1] != Empty && s[i + 2] == Empty then [Move(i, i + 2)]
      else []
    case Green =>
      if i >= 1 && s[i - 1] == Empty then [Move(i, i - 1)]
      else if i >= 2 && s[i - 1] != Empty && s[i - 2] == Empty then [Move(i, i - 2)]
      else []
    case Empty => []
  }

  /** The moves of the pieces at indices below k, by increasing index. */
  function MovesBefore(s: State, k: nat): seq<Move>
    requires k <= |s|
  {
    if k == 0 then [] else MovesBefore(s, k - 1) + MovesAt(s, k - 1)
  }

  function Moves(s: State): seq<Move>
  {
    MovesBefore(s, |s|)
  }

  lemma MovesAtExact(s: State, i: nat, m: Move)
    requires i < |s|
    ensures m in MovesAt(s, i) <==> Legal(s, m) && m.src == i
  {
  }

  lemma {:induction false} MovesBeforeSound(s: State, k: nat, m: Move)
    requires k <= |s| && m in MovesBefore(s, k)
    ensures Legal(s, m) && m.src < k
  {
    var a, b := MovesBefore(s, k - 1), MovesAt(s, k - 1);
    assert m in a + b;
    if m in a {
      MovesBeforeSound(s, k - 1, m);
    } else {
      MovesAtExact(s, k - 1, m);
    }
  }

  lemma {:induction false} MovesBeforeComplete(s: State, k: nat, m: Move)
    requires k <= |s| && Legal(s, m) && m.src < k
    ensures m in MovesBefore(s, k)
  {
    var a, b := MovesBefore(s, k - 1), MovesAt(s, k - 1);
    if m.src < k - 1 {
      MovesBeforeComplete(s, k - 1, m);
      assert m in a;
    } else {
      MovesAtExact(s, k - 1, m);
      assert m in b;
    }
    assert MovesBefore(s, k) == a + b;
  }

  lemma MovesBeforeExact(s: State, k: nat, m: Move)
    requires k <= |s|
    ensures m in MovesBefore(s, k) <==> Legal(s, m) && m.src < k
  {
    if m in MovesBefore(s, k) {
      MovesBeforeSound(s, k, m);
    }
    if Legal(s, m) && m.src < k {
      MovesBeforeComplete(s, k, m);
    }
  }

  /** get_neighbors generates exactly the legal moves. */
  lemma MovesExact(s: State, m: Move)
    ensures m in Moves(s) <==> Legal(s, m)
  {
    MovesBeforeExact(s, |s|, m);
  }

  /** The successor states of s, in generation order. */
  function Neighbors(s: State): (ns: seq<State>)
  {
    NeighborsBefore(s, |s|)
  }

  /** The successors produced by the pieces at indices below k. */
  function NeighborsBefore(s: State, k: nat): seq<State>
    requires k <= |s|
  {
    if k == 0 then [] else NeighborsBefore(s, k - 1) + PieceNeighbors(s, k - 1)
  }

  /** The successors produced by the piece at i, built the way the source
      builds them: a copy with the origin emptied and the destination filled
      (step and jump again written as one choice). */
  function PieceNeighbors(s: State, i: nat): seq<State>
    requires i < |s|
  {
    var n := |s|;
    match s[i]
    case Red =>
      if i + 1 < n && s[i + 1] == Empty then [s[i := Empty][i + 1 := Red]]
      else if i + 2 < n && s[i + 1] != Empty && s[i + 2] == Empty then [s[i := Empty][i + 2 := Red]]
      else []
    case Green =>
      if i >= 1 && s[i - 1] == Empty then [s[i := Empty][i - 1 := Green]]
      else if i >= 2 && s[i - 1] != Empty && s[i - 2] == Empty then [s[i := Empty][i - 2 := Green]]
      else []
    case Empty => []
  }

  /** The successors of one piece are the targets of its moves. */
  lemma PieceNeighborsAreTargets(s: State, i: nat)
    requires i < |s|
    ensures LeadTo(s, PieceNeighbors(s, i), MovesAt(s, i))
  {
  }

  /** ns lists the boards the moves ms lead to, in the same order. */
  predicate LeadTo(s: State, ns: seq<State>, ms: seq<Move>)
  {
    && InRange(s, ms) && |ns| == |ms|
    && forall j :: 0 <= j < |ms| ==> ns[j] == Apply(s, ms[j])
  }

  lemma LeadToConcat(s: State, na: seq<State>, a: seq<Move>, nb: seq<State>, b: seq<Move>)
    requires LeadTo(s, na, a) && LeadTo(s, nb, b)
    ensures LeadTo(s, na + nb, a + b)
  {
    forall j | 0 <= j < |a + b| ensures (na + nb)[j] == Apply(s, (a + b)[j]) {
      if j < |a| {
        assert (na + nb)[j] == na[j] && (a + b)[j] == a[j];
      } else {
        assert (na + nb)[j] == nb[j - |a|] && (a + b)[j] == b[j - |a|];
      }
    }
  }

  lemma {:induction false} NeighborsBeforeTargets(s: State, k: nat)
    requires k <= |s|
    ensures LeadTo(s, NeighborsBefore(s, k), MovesBefore(s, k))
  {
    if k > 0 {
      NeighborsBeforeTargets(s, k - 1);
      PieceNeighborsAreTargets(s, k - 1);
      var a, b := MovesBefore(s, k - 1), MovesAt(s, k - 1);
      var na, nb := NeighborsBefore(s, k - 1), PieceNeighbors(s, k - 1);
      LeadToConcat(s, na, a, nb, b);
      assert MovesBefore(s, k) == a + b;
      assert NeighborsBefore(s, k) == na + nb;
    }
  }

  /** The neighbours are the boards the generated moves lead to, in order. */
  lemma NeighborsAreTargets(s: State)
    ensures LeadTo(s, Neighbors(s), Moves(s))
  {
    NeighborsBeforeTargets(s, |s|);
  }

  /** get_neighbors: one pass over the pieces, appending each successor built
      from a copy of the board. */
  method GetNeighbors(s: State) returns (neighbors: seq<State>)
    ensures neighbors == Neighbors(s)
  {
    neighbors := [];
    var n := |s|;
    for i := 0 to n
      invariant neighbors == NeighborsBefore(s, i)
    {
      ghost var before := neighbors;
      if s[i] == Red {
        if i + 1 < n && s[i + 1] == Empty {
          var newState := s[i := Empty][i + 1 := Red];
          neighbors := neighbors + [newState];
        }
        if i + 2 < n && s[i + 1] != Empty && s[i + 2] == Empty {
          var newState := s[i := Empty][i + 2 := Red];
          neighbors := neighbors + [newState];
        }
      } else if s[i] == Green {
        if i >= 1 && s[i - 1] == Empty {
          var newState := s[i := Empty][i - 1 := Green];
          neighbors := neighbors + [newState];
        }
        if i >= 2 && s[i - 1] != Empty && s[i - 2] == Empty {
          var newState := s[i := Empty][i - 2 := Green];
          neighbors := neighbors + [newState];
        }
      }
      assert neighbors == before + PieceNeighbors(s, i);
    }
  }

  /** The neighbours are exactly the boards reached by legal moves. */
  lemma NeighborsExact(s: State, t: State)
    ensures t in Neighbors(s) <==> exists m :: Legal(s, m) && t == Apply(s, m)
  {
    NeighborsAreTargets(s);
    if t in Neighbors(s) {
      var k :| 0 <= k < |Moves(s)| && t == Neighbors(s)[k];
      MovesExact(s, Moves(s)[k]);
    }
    if m :| Legal(s, m) && t == Apply(s, m) {
      MovesExact(s, m);
      var k :| 0 <= k < |Moves(s)| && Moves(s)[k] == m;
      assert Neighbors(s)[k] == t;
    }
  }

  /** What one legal move does to the board: same length and same pieces,
      exactly two cells change, a red piece goes right by one or two and a
      green piece left by one or two, and a jumped-over cell is occupied and
      kept. */
  lemma LegalMoveShape(s: State, m: Move)
    requires Legal(s, m)
    ensures var t := Apply(s, m);
      && |t| == |s|
      && multiset(t) == multiset(s)
      && m.src != m.dst
      && t[m.src] == Empty && t[m.dst] == s[m.src]
      && (forall k :: 0 <= k < |s| ==> (t[k] != s[k] <==> k == m.src || k == m.dst))
      && (s[m.src] == Red ==> m.dst == m.src + 1 || m.dst == m.src + 2)
      && (s[m.src] == Green ==> m.dst + 1 == m.src || m.dst + 2 == m.src)
      && (m.dst == m.src + 2 ==> s[m.src + 1] != Empty && t[m.src + 1] == s[m.src + 1])
      && (m.src == m.dst + 2 ==> s[m.dst + 1] != Empty && t[m.dst + 1] == s[m.dst + 1])
  {
    var s1 := s[m.src := Empty];
    assert multiset(s1) == multiset(s) - multiset{s[m.src]} + multiset{Empty};
    assert multiset(s1[m.dst := s[m.src]]) == multiset(s1) - multiset{s1[m.dst]} + multiset{s[m.src]};
  }

  /** A legal move lowers the potential by the distance travelled, 1 or 2. */
  lemma LegalMovePotential(s: State, m: Move)
    requires Legal(s, m)
    ensures var d := if m.src < m.dst then m.dst - m.src else m.src - m.dst;
      (d == 1 || d == 2) && Potential(Apply(s, m)) + d == Potential(s)
  {
    var s1 := s[m.src := Empty];
    PotentialUpdate(s, m.src, Empty);
    PotentialUpdate(s1, m.dst, s[m.src]);
  }

  /** Every neighbour keeps the length and the pieces of the board. */
  lemma NeighborFacts(s: State, t: State)
    requires t in Neighbors(s)
    ensures |t| == |s| && multiset(t) == multiset(s)
  {
    NeighborsExact(s, t);
    var m :| Legal(s, m) && t == Apply(s, m);
    LegalMoveShape(s, m);
  }

  /** Every neighbour has a potential lower by one or two. */
  lemma NeighborPotential(s: State, t: State)
    requires t in Neighbors(s)
    ensures Potential(t) < Potential(s) && Potential(s) <= Potential(t) + 2
  {
    NeighborsExact(s, t);
    var m :| Legal(s, m) && t == Apply(s, m);
    LegalMovePotential(s, m);
  }

  /** A piece never has both a step and a jump: the step needs the next cell
      empty, the jump needs it occupied. */
  lemma OneMovePerPiece(s: State, i: nat)
    requires i < |s|
    ensures |MovesAt(s, i)| <= 1
  {
  }

  predicate Ordered(ms: seq<Move>)
  {
    forall i, j :: 0 <= i < j < |ms| ==> ms[i].src < ms[j].src
  }

  lemma {:induction false} MovesBeforeOrdered(s: State, k: nat)
    requires k <= |s|
    ensures Ordered(MovesBefore(s, k))
    ensures forall m :: m in MovesBefore(s, k) ==> m.src < k
  {
    if k > 0 {
      MovesBeforeOrdered(s, k - 1);
      var a, b := MovesBefore(s, k - 1), MovesAt(s, k - 1);
      OneMovePerPiece(s, k - 1);
      forall m | m in b ensures m.src == k - 1 {
        MovesAtExact(s, k - 1, m);
      }
      forall i, j | 0 <= i < j < |a + b| ensures (a + b)[i].src < (a + b)[j].src {
        if j < |a| {
          assert (a + b)[i] == a[i] && (a + b)[j] == a[j];
        } else {
          assert (a + b)[i] in a && (a + b)[j] in b;
        }
      }
    }
  }

  /** Neighbours come out in strictly increasing order of the index of the
      piece that moved, at most one per piece. */
  lemma NeighborsOrdered(s: State)
    ensures LeadTo(s, Neighbors(s), Moves(s))
    ensures Ordered(Moves(s))
  {
    NeighborsAreTargets(s);
    MovesBeforeOrdered(s, |s|);
  }

  /** The worked example: on "R_G" the successors are exactly "_RG" then "RG_". */
  lemma RedEmptyGreen()
    ensures Neighbors([Red, Empty, Green]) == [[Empty, Red, Green], [Red, Green, Empty]]
  {
    var s := [Red, Empty, Green];
    assert MovesAt(s, 0) == [Move(0, 1)];
    assert MovesAt(s, 1) == [];
    assert MovesAt(s, 2) == [Move(2, 1)];
    assert MovesBefore(s, 1) == [Move(0, 1)];
    assert MovesBefore(s, 2) == [Move(0, 1)];
    assert MovesBefore(s, 3) == [Move(0, 1), Move(2, 1)];
    assert Apply(s, Move(0, 1)) == [Empty, Red, Green];
    assert Apply(s, Move(2, 1)) == [Red, Green, Empty];
  }
}
