/** The Zobrist key as a function of the occupancy alone. Starting from the key
    `newGame` sets (0) and applying only `makeMove`, the key is the XOR, over the
    occupied cells, of the constant for the cell and the side OPPOSITE to its
    owner (because `makeMove` hashes after flipping the side). Two move orders that
    reach the same boards therefore reach the same key, and the same side to move. */
module PositionKey {
  import opened Bitboard

  /** What cell c contributes to the key of a position built by `makeMove` alone. */
  function Contribution(o: bv9, x: bv9, c: Cell): bv32
  {
    if Holds(o, c) then Zobrist(c, X)
    else if Holds(x, c) then Zobrist(c, O)
    else 0
  }

  /** The contributions of the nine cells, in cell order. */
  ghost function Contributions(o: bv9, x: bv9): (r: seq<bv32>)
    ensures |r| == 9
    ensures forall c: Cell :: r[c] == Contribution(o, x, c)
  {
    seq(9, (c: int) requires 0 <= c < 9 => Contribution(o, x, c))
  }

  /** The XOR of the elements of `cs` from index k on. */
  ghost function XorFrom(cs: seq<bv32>, k: nat): bv32
    requires k <= |cs|
    decreases |cs| - k
  {
    if k == |cs| then 0 else Xor(cs[k], XorFrom(cs, k + 1))
  }

  /** The key the occupancy of `s` determines. */
  ghost function KeyOf(s: State): bv32
  {
    XorFrom(Contributions(s.o, s.x), 0)
  }

  lemma {:induction false} XorFromZeros(cs: seq<bv32>, k: nat)
    requires k <= |cs|
    requires forall j | 0 <= j < |cs| :: cs[j] == 0
    ensures XorFrom(cs, k) == 0
    decreases |cs| - k
  {
    if k < |cs| {
      XorFromZeros(cs, k + 1);
    }
  }

  /** XOR-ing z into one element moves the XOR of every suffix that contains it by z,
      and leaves the others alone. */
  lemma {:induction false} XorFromUpdate(cs: seq<bv32>, i: nat, z: bv32, k: nat)
    requires i < |cs| && k <= |cs|
    ensures XorFrom(cs[i := Xor(cs[i], z)], k) == if k <= i then Xor(XorFrom(cs, k), z) else XorFrom(cs, k)
    decreases |cs| - k
  {
    if k < |cs| {
      var ds := cs[i := Xor(cs[i], z)];
      XorFromUpdate(cs, i, z, k + 1);
      if k == i {
        XorFirst(cs[k], ds[k], XorFrom(cs, k + 1), XorFrom(ds, k + 1), z);
      } else if k < i {
        XorSecond(cs[k], ds[k], XorFrom(cs, k + 1), XorFrom(ds, k + 1), z);
      }
    }
  }

  lemma EmptyBoardsHaveKeyZero()
    ensures XorFrom(Contributions(0, 0), 0) == 0
  {
    var cs := Contributions(0, 0);
    forall j | 0 <= j < |cs|
      ensures cs[j] == 0
    {
      Unowned(0, 0, j, 0);
    }
    XorFromZeros(cs, 0);
  }

  lemma XorFirst(a: bv32, a': bv32, b: bv32, b': bv32, z: bv32)
    requires a' == Xor(a, z) && b' == b
    ensures Xor(a', b') == Xor(Xor(a, b), z)
  {
    XorAssociative(a, z, b);
    XorCommutative(z, b);
    XorAssociative(a, b, z);
  }

  lemma XorSecond(a: bv32, a': bv32, b: bv32, b': bv32, z: bv32)
    requires a' == a && b' == Xor(b, z)
    ensures Xor(a', b') == Xor(Xor(a, b), z)
  {
    XorAssociative(a, b, z);
  }

  /** A move changes no other cell's contribution. */
  lemma MoveKeepsOtherCell(s: State, i: Cell, d: Cell)
    requires d != i
    ensures Contribution(MakeMove(s, i).o, MakeMove(s, i).x, d) == Contribution(s.o, s.x, d)
  {
    var r := MakeMove(s, i);
    if s.side == O {
      OtherBitUnchanged(s.o, i, d);
    } else {
      OtherBitUnchanged(s.x, i, d);
    }
    ContributionCongruent(s.o, s.x, r.o, r.x, d);
  }

  lemma OtherBitUnchanged(b: bv9, i: Cell, d: Cell)
    requires d != i
    ensures Holds(Place(b, i), d) == Holds(b, d)
  {
    PlaceHolds(b, i, d);
  }

  /** A cell's contribution depends only on who holds it. */
  lemma ContributionCongruent(o: bv9, x: bv9, o': bv9, x': bv9, d: Cell)
    requires Holds(o, d) == Holds(o', d) && Holds(x, d) == Holds(x', d)
    ensures Contribution(o, x, d) == Contribution(o', x', d)
  {
  }

  /** A move on an empty cell changes its own contribution from 0 to the constant of
      the side the move flips to. */
  lemma MoveSetsItsCell(s: State, i: Cell)
    requires IsEmpty(s, i)
    ensures Contribution(MakeMove(s, i).o, MakeMove(s, i).x, i)
         == Xor(Contribution(s.o, s.x, i), Zobrist(i, s.side.Flip()))
  {
    var r := MakeMove(s, i);
    EmptyInBothBoards(s, i);
    if s.side == O {
      SetBitHolds(s.o, r.o, i);
      OwnedByO(r.o, r.x, i);
    } else {
      SetBitHolds(s.x, r.x, i);
      OwnedByX(r.o, r.x, i);
    }
    Unowned(s.o, s.x, i, Zobrist(i, s.side.Flip()));
  }

  lemma SetBitHolds(b: bv9, b': bv9, i: Cell)
    requires b' == Place(b, i)
    ensures Holds(b', i)
  {
  }

  lemma OwnedByO(o: bv9, x: bv9, i: Cell)
    requires Holds(o, i)
    ensures Contribution(o, x, i) == Zobrist(i, X)
  {
  }

  lemma OwnedByX(o: bv9, x: bv9, i: Cell)
    requires !Holds(o, i) && Holds(x, i)
    ensures Contribution(o, x, i) == Zobrist(i, O)
  {
  }

  lemma Unowned(o: bv9, x: bv9, i: Cell, z: bv32)
    requires !Holds(o, i) && !Holds(x, i)
    ensures Xor(Contribution(o, x, i), z) == z
  {
  }

  /** `makeMove` on an empty cell keeps the key equal to the key of the occupancy. */
  lemma MakeMoveKeepsKeyOf(s: State, i: Cell)
    requires IsEmpty(s, i)
    requires s.key == KeyOf(s)
    ensures MakeMove(s, i).key == KeyOf(MakeMove(s, i))
  {
    MakeMoveChangesKeyOf(s, i);
    MakeMoveKey(s, i);
  }

  /** The occupancy key moves by the same constant `makeMove` XORs into the key. */
  lemma MakeMoveChangesKeyOf(s: State, i: Cell)
    requires IsEmpty(s, i)
    ensures KeyOf(MakeMove(s, i)) == Xor(KeyOf(s), Zobrist(i, s.side.Flip()))
  {
    var r := MakeMove(s, i);
    var z := Zobrist(i, s.side.Flip());
    var cs, ds := Contributions(s.o, s.x), Contributions(r.o, r.x);
    forall d: Cell
      ensures ds[d] == cs[i := Xor(cs[i], z)][d]
    {
      if d == i {
        MoveSetsItsCell(s, i);
      } else {
        MoveKeepsOtherCell(s, i, d);
      }
    }
    assert ds == cs[i := Xor(cs[i], z)];
    XorFromUpdate(cs, i, z, 0);
  }

  /** A sequence of `makeMove` calls. Each flips the side, so an even number of moves
      leaves the side to move as it was. */
  function Play(s: State, moves: seq<Cell>): (r: State)
    ensures r.side == (if |moves| % 2 == 0 then s.side else s.side.Flip())
    decreases |moves|
  {
    if |moves| == 0 then s else Play(MakeMove(s, moves[0]), moves[1..])
  }

  /** Every move of the sequence is on a cell empty at its turn, as the click guard ensures. */
  ghost predicate Legal(s: State, moves: seq<Cell>)
    decreases |moves|
  {
    |moves| == 0 || (IsEmpty(s, moves[0]) && Legal(MakeMove(s, moves[0]), moves[1..]))
  }

  /** X has moved as often as O when X is to move, once more when O is to move. */
  ghost predicate Balanced(s: State)
  {
    if s.side == X then |Cells(s.x)| == |Cells(s.o)| else |Cells(s.x)| == |Cells(s.o)| + 1
  }

  lemma MakeMoveKeepsBalanced(s: State, i: Cell)
    requires IsEmpty(s, i) && Balanced(s)
    ensures Balanced(MakeMove(s, i))
  {
    MakeMoveFillsCell(s, i);
  }

  /** Legal play from a well-formed position keeps the boards disjoint, the key equal
      to the key of the occupancy and the move counts balanced. */
  lemma {:induction false} PlayKeepsKeyOf(s: State, moves: seq<Cell>)
    requires Legal(s, moves)
    requires s.key == KeyOf(s) && Disjoint(s) && Balanced(s)
    ensures Play(s, moves).key == KeyOf(Play(s, moves))
    ensures Disjoint(Play(s, moves)) && Balanced(Play(s, moves))
    decreases |moves|
  {
    if |moves| > 0 {
      var c := moves[0];
      MakeMoveKeepsKeyOf(s, c);
      MakeMoveFillsCell(s, c);
      MakeMoveKeepsBalanced(s, c);
      PlayKeepsKeyOf(MakeMove(s, c), moves[1..]);
    }
  }

  /** The start position is well formed: key 0 is the key of the empty boards. */
  lemma StartIsWellFormed()
    ensures Start.key == KeyOf(Start) && Disjoint(Start) && Balanced(Start)
  {
    EmptyBoardsHaveKeyZero();
    assert Cells(0) == {};
  }

  /** After moves alone from a new game the key is the key of the occupancy. */
  lemma KeyFromMovesAlone(moves: seq<Cell>)
    requires Legal(Start, moves)
    ensures Play(Start, moves).key == KeyOf(Play(Start, moves))
  {
    StartIsWellFormed();
    PlayKeepsKeyOf(Start, moves);
  }

  /** Two legal move orders from a new game that reach the same boards reach the
      same position: the same side to move and the same key. */
  lemma KeyIndependentOfOrder(m1: seq<Cell>, m2: seq<Cell>)
    requires Legal(Start, m1) && Legal(Start, m2)
    requires Play(Start, m1).o == Play(Start, m2).o && Play(Start, m1).x == Play(Start, m2).x
    ensures Play(Start, m1) == Play(Start, m2)
  {
    StartIsWellFormed();
    PlayKeepsKeyOf(Start, m1);
    PlayKeepsKeyOf(Start, m2);
  }
}
