// The board of one-dimensional Chinese checkers: a row of cells, each
// holding a red piece (moves right), a green piece (moves left) or nothing.

module Wrappers {
  datatype Option<T> = None | Some(value: T)
}

module Board {
  import opened Wrappers

  /** One cell of the board; shown as 'R', 'G' and '_' respectively. */
  datatype Cell = Red | Green | Empty

  /** A board state, compared by content. */
  type State = seq<Cell>

  function Symbol(c: Cell): char
  {
    match c
    case Red => 'R'
    case Green => 'G'
    case Empty => '_'
  }

  function ParseSymbol(ch: char): Option<Cell>
  {
    if ch == 'R' then Some(Red)
    else if ch == 'G' then Some(Green)
    else if ch == '_' then Some(Empty)
    else None
  }

  /** The string form of a board. */
  function Show(s: State): (str: string)
    ensures |str| == |s|
    ensures forall i :: 0 <= i < |s| ==> str[i] == Symbol(s[i])
  {
    if s == [] then [] else [Symbol(s[0])] + Show(s[1..])
  }

  /** Reads a board from its string form; None on a symbol outside R, G, _. */
  function Read(str: string): (r: Option<State>)
    ensures r.Some? ==> |r.value| == |str|
  {
    if str == [] then Some([])
    else match (ParseSymbol(str[0]), Read(str[1..]))
      case (Some(c), Some(rest)) => Some([c] + rest)
      case _ => None
  }

  lemma {:induction false} ReadShow(s: State)
    ensures Read(Show(s)) == Some(s)
  {
    if s != [] {
      var str := Show(s);
      ReadShow(s[1..]);
      assert str == [Symbol(s[0])] + Show(s[1..]);
      assert str[0] == Symbol(s[0]) && str[1..] == Show(s[1..]);
      assert ParseSymbol(str[0]) == Some(s[0]);
      assert Read(str) == Some([s[0]] + s[1..]);
      assert s == [s[0]] + s[1..];
    }
  }

  lemma {:induction false} ShowRead(str: string)
    requires Read(str).Some?
    ensures Show(Read(str).value) == str
  {
    if str != [] {
      ShowRead(str[1..]);
    }
  }

  /** The contribution of one cell to the potential: a red piece at i can
      still travel n-1-i cells to the right, a green one i cells to the left. */
  function Weight(n: nat, i: nat, c: Cell): nat
    requires i < n
  {
    match c
    case Red => n - 1 - i
    case Green => i
    case Empty => 0
  }

  function PotentialPrefix(s: State, k: nat): nat
    requires k <= |s|
  {
    if k == 0 then 0 else PotentialPrefix(s, k - 1) + Weight(|s|, k - 1, s[k - 1])
  }

  /** Sum over red pieces at i of n-1-i plus sum over green pieces at i of i. */
  function Potential(s: State): nat
  {
    PotentialPrefix(s, |s|)
  }

  lemma {:induction false} PotentialPrefixUpdate(s: State, i: nat, c: Cell, k: nat)
    requires i < |s| && k <= |s|
    ensures PotentialPrefix(s[i := c], k) + (if i < k then Weight(|s|, i, s[i]) else 0)
         == PotentialPrefix(s, k) + (if i < k then Weight(|s|, i, c) else 0)
  {
    if k > 0 {
      PotentialPrefixUpdate(s, i, c, k - 1);
    }
  }

  /** Overwriting one cell changes the potential by the difference of weights. */
  lemma PotentialUpdate(s: State, i: nat, c: Cell)
    requires i < |s|
    ensures Potential(s[i := c]) + Weight(|s|, i, s[i]) == Potential(s) + Weight(|s|, i, c)
  {
    PotentialPrefixUpdate(s, i, c, |s|);
  }

  /** All boards of length n: a finite universe for the searches. */
  ghost function AllBoards(n: nat): (u: set<State>)
  {
    if n == 0 then {[]}
    else set c, b | c in {Red, Green, Empty} && b in AllBoards(n - 1) :: [c] + b
  }

  lemma {:induction false} InAllBoards(s: State)
    ensures s in AllBoards(|s|)
  {
    if s != [] {
      InAllBoards(s[1..]);
      assert s[0].Red? || s[0].Green? || s[0].Empty?;
      assert s[0] in {Red, Green, Empty};
      assert s == [s[0]] + s[1..];
    }
  }

  lemma {:induction false} AllBoardsLength(n: nat, s: State)
    requires s in AllBoards(n)
    ensures |s| == n
  {
    if n > 0 {
      var c, b :| c in {Red, Green, Empty} && b in AllBoards(n - 1) && s == [c] + b;
      AllBoardsLength(n - 1, b);
    }
  }
}
