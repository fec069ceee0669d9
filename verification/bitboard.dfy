/** The board primitives that both copies of the engine share as identical code:
    the state record, the cell test, the move, the incremental key update, the
    eight line masks and the win and full-board tests. */
module Bitboard {

  /** A cell index on the 3x3 grid, row-major, top-left = 0. */
  type Cell = c: int | 0 <= c < 9

  /** The side to move. Board 0 belongs to O and board 1 to X; `Flip` is `side ^= 1`. */
  datatype Side = O | X {
    function Flip(): (r: Side)
      ensures r != this
    {
      if this == O then X else O
    }
  }

  /** The engine's module-level position: the two 9-bit occupancy masks, the side
      to move and the 32-bit Zobrist key. */
  datatype State = State(o: bv9, x: bv9, side: Side, key: bv32)

  /** All nine cells occupied. */
  const Full: bv9 := 511

  /** The position `newGame` resets to: empty boards, X to move, key 0. */
  const Start: State := State(0, 0, X, 0)

  /** `1 << index`, written out per cell. */
  function Bit(c: Cell): bv9
  {
    if c == 0 then 1 else if c == 1 then 2 else if c == 2 then 4
    else if c == 3 then 8 else if c == 4 then 16 else if c == 5 then 32
    else if c == 6 then 64 else if c == 7 then 128 else 256
  }

  lemma BitIsShift(c: Cell)
    ensures Bit(c) == 1 << c
  {
  }

  /** `board |= 1 << index` */
  function Place(b: bv9, c: Cell): bv9
  {
    b | Bit(c)
  }

  /** `board &= ~(1 << index)` */
  function Clear(b: bv9, c: Cell): bv9
  {
    b & !Bit(c)
  }

  /** `key ^= constant`. A named function, so that the key lemmas below speak of
      one call the solver treats as a unit instead of reasoning about 32 bits. */
  function Xor(a: bv32, b: bv32): bv32
  {
    a ^ b
  }

  function Board(s: State, p: Side): bv9
  {
    if p == O then s.o else s.x
  }

  /** The cells set in either mask. Named for the same reason as `Xor`: the board
      lemmas state facts about it once, and callers use those facts. */
  function Union(a: bv9, b: bv9): bv9
  {
    a | b
  }

  /** No cell set in both masks. Named, like `Union`, so that disjointness is one
      fact to carry rather than a bit-vector equation to solve again. */
  predicate Apart(a: bv9, b: bv9)
  {
    a & b == 0
  }

  function Occupied(s: State): bv9
  {
    Union(s.o, s.x)
  }

  /** The same boards and side to move; the keys may differ. */
  predicate SameBoards(a: State, b: State)
  {
    a.o == b.o && a.x == b.x && a.side == b.side
  }

  /** No cell is held by both players. */
  predicate Disjoint(s: State)
  {
    Apart(s.o, s.x)
  }

  /** The mask `b` has the bit of cell c set. */
  predicate Holds(b: bv9, c: Cell)
  {
    b & Bit(c) != 0
  }

  /** The cells whose bit is set in `b`. */
  ghost function Cells(b: bv9): set<int>
  {
    set c | 0 <= c < 9 && Holds(b, c)
  }

  /** The cells whose bit is clear in `b`. */
  ghost function EmptyCells(b: bv9): set<int>
  {
    set c | 0 <= c < 9 && !Holds(b, c)
  }

  /** The number of empty cells: the measure the search descends on. */
  ghost function Free(s: State): nat
  {
    |EmptyCells(Occupied(s))|
  }

  /** `isEmpty(index)`: the cell's bit is clear in the union of the two boards. */
  predicate IsEmpty(s: State, c: Cell)
  {
    !Holds(Occupied(s), c)
  }

  lemma IsEmptyMeansNeitherBoard(s: State, c: Cell)
    ensures IsEmpty(s, c) <==> c !in Cells(s.o) && c !in Cells(s.x)
    ensures IsEmpty(s, c) <==> c in EmptyCells(Occupied(s))
  {
    HoldsInUnion(s.o, s.x, c);
  }

  lemma XorAssociative(a: bv32, b: bv32, c: bv32)
    ensures Xor(Xor(a, b), c) == Xor(a, Xor(b, c))
  {
  }

  lemma XorCommutative(a: bv32, b: bv32)
    ensures Xor(a, b) == Xor(b, a)
  {
  }

  /** The per-(cell, side) constants of `zobristKeys`. */
  const ZobristKeys: seq<(bv32, bv32)> := [
    (0x1a2b3c4d, 0x9a8b7c6d),
    (0x2b3c4d5e, 0x8b7c6d5e),
    (0x3c4d5e6f, 0x7c6d5e4f),
    (0x4d5e6f78, 0x6d5e4f32),
    (0x5e6f7890, 0x5e4f3210),
    (0x6f7890a1, 0x4f3210a2),
    (0x7890a1b2, 0x3210a2b3),
    (0x90a1b2c3, 0x10a2b3c4),
    (0xa1b2c3d4, 0xa2b3c4d5)
  ]

  /** `zobristKeys[index][side]` */
  function Zobrist(c: Cell, p: Side): bv32
  {
    if p == O then ZobristKeys[c].0 else ZobristKeys[c].1
  }

  /** The two constants of every cell differ, so XOR-ing both into a key always changes it. */
  lemma ZobristSidesDiffer(c: Cell)
    ensures Xor(Zobrist(c, O), Zobrist(c, X)) != 0
  {
    assert Zobrist(c, O) != Zobrist(c, X);
    XorOfDistinct(Zobrist(c, O), Zobrist(c, X));
  }

  lemma XorOfDistinct(a: bv32, b: bv32)
    requires a != b
    ensures Xor(a, b) != 0
  {
  }

  /** `hashKey(index)`: XOR the constant of the cell and the CURRENT side into the key. */
  function HashKey(s: State, c: Cell): (r: State)
    ensures r.o == s.o && r.x == s.x && r.side == s.side
    ensures Xor(r.key, Zobrist(c, s.side)) == s.key
  {
    s.(key := Xor(s.key, Zobrist(c, s.side)))
  }

  /** `makeMove(index)`: set the cell in the mover's board, flip the side, then hash
      the cell with the side as it is AFTER the flip. The source does not check the
      cell; `MakeMoveFillsCell` states what it does to the empty cells its callers pass. */
  function MakeMove(s: State, c: Cell): (r: State)
    ensures r.side == s.side.Flip()
    ensures s.side == O ==> r.o == Place(s.o, c) && r.x == s.x
    ensures s.side == X ==> r.x == Place(s.x, c) && r.o == s.o
  {
    var placed := if s.side == O then s.(o := Place(s.o, c)) else s.(x := Place(s.x, c));
    HashKey(placed.(side := s.side.Flip()), c)
  }

  /** The key moves by the constant of the cell and the side that moves next. */
  lemma MakeMoveKey(s: State, c: Cell)
    ensures MakeMove(s, c).key == Xor(s.key, Zobrist(c, s.side.Flip()))
  {
  }

  /** A move on an empty cell adds exactly that cell to the mover's board, so the
      number of empty cells drops by one and the boards stay disjoint. */
  lemma MakeMoveFillsCell(s: State, c: Cell)
    requires IsEmpty(s, c)
    ensures Cells(Board(MakeMove(s, c), s.side)) == Cells(Board(s, s.side)) + {c}
    ensures |Cells(Board(MakeMove(s, c), s.side))| == |Cells(Board(s, s.side))| + 1
    ensures EmptyCells(Occupied(MakeMove(s, c))) == EmptyCells(Occupied(s)) - {c}
    ensures Free(MakeMove(s, c)) == Free(s) - 1
    ensures Disjoint(s) ==> Disjoint(MakeMove(s, c))
  {
    MoverGainsCell(s, c);
    UnionLosesCell(s, c);
    if Disjoint(s) {
      MoveKeepsDisjoint(s, c);
    }
  }

  lemma EmptyInBothBoards(s: State, c: Cell)
    requires IsEmpty(s, c)
    ensures !Holds(s.o, c) && !Holds(s.x, c)
  {
    HoldsInUnion(s.o, s.x, c);
  }

  lemma MoverGainsCell(s: State, c: Cell)
    requires IsEmpty(s, c)
    ensures Cells(Board(MakeMove(s, c), s.side)) == Cells(Board(s, s.side)) + {c}
    ensures |Cells(Board(MakeMove(s, c), s.side))| == |Cells(Board(s, s.side))| + 1
  {
    EmptyInBothBoards(s, c);
    MoverBoardWasClear(s, c);
    MoverBoardGainsBit(s, c);
    PlaceAddsCell(Board(s, s.side), c);
  }

  lemma MoverBoardWasClear(s: State, c: Cell)
    requires !Holds(s.o, c) && !Holds(s.x, c)
    ensures !Holds(Board(s, s.side), c)
  {
  }

  lemma MoverBoardGainsBit(s: State, c: Cell)
    ensures Board(MakeMove(s, c), s.side) == Place(Board(s, s.side), c)
  {
  }

  lemma UnionLosesCell(s: State, c: Cell)
    requires IsEmpty(s, c)
    ensures EmptyCells(Occupied(MakeMove(s, c))) == EmptyCells(Occupied(s)) - {c}
    ensures Free(MakeMove(s, c)) == Free(s) - 1
  {
    PlacedBitFillsUnion(s, c, MakeMove(s, c));
    PlaceFillsCell(Occupied(s), c);
  }

  lemma MoveKeepsDisjoint(s: State, c: Cell)
    requires IsEmpty(s, c) && Disjoint(s)
    ensures Disjoint(MakeMove(s, c))
  {
    EmptyInBothBoards(s, c);
    PlacedBitKeepsDisjoint(s, c, MakeMove(s, c));
  }

  lemma PlacedBitFillsUnion(s: State, c: Cell, r: State)
    requires s.side == O ==> r.o == Place(s.o, c) && r.x == s.x
    requires s.side == X ==> r.x == Place(s.x, c) && r.o == s.o
    ensures Occupied(r) == Place(Occupied(s), c)
  {
    if s.side == O {
      PlaceUnionLeft(s.o, s.x, c);
    } else {
      PlaceUnionRight(s.o, s.x, c);
    }
  }

  lemma PlacedBitKeepsDisjoint(s: State, c: Cell, r: State)
    requires Disjoint(s) && !Holds(s.o, c) && !Holds(s.x, c)
    requires s.side == O ==> r.o == Place(s.o, c) && r.x == s.x
    requires s.side == X ==> r.x == Place(s.x, c) && r.o == s.o
    ensures Disjoint(r)
  {
    if s.side == O {
      PlaceKeepsApartLeft(s.o, s.x, c);
    } else {
      PlaceKeepsApartRight(s.o, s.x, c);
    }
  }

  /* Bit algebra behind `bitBoard[side] |= 1 << index`, one fact per lemma. */

  lemma HoldsInUnion(a: bv9, b: bv9, c: Cell)
    ensures Holds(Union(a, b), c) <==> Holds(a, c) || Holds(b, c)
  {
    SingleBit(c);
  }

  /** `1 << index` has exactly one bit set. */
  lemma SingleBit(c: Cell)
    ensures var m := Bit(c); m == 1 || m == 2 || m == 4 || m == 8 || m == 16 || m == 32 || m == 64 || m == 128 || m == 256
  {
  }

  /** Two cells' bits overlap exactly when they are the same cell. */
  lemma BitsOverlap(c: Cell, d: Cell)
    ensures Bit(c) & Bit(d) != 0 <==> c == d
  {
  }

  lemma PlaceUnionLeft(a: bv9, b: bv9, c: Cell)
    ensures Union(Place(a, c), b) == Place(Union(a, b), c)
  {
  }

  lemma PlaceUnionRight(a: bv9, b: bv9, c: Cell)
    ensures Union(a, Place(b, c)) == Place(Union(a, b), c)
  {
  }

  lemma PlaceKeepsApartLeft(a: bv9, b: bv9, c: Cell)
    requires Apart(a, b) && !Holds(b, c)
    ensures Apart(Place(a, c), b)
  {
  }

  lemma PlaceKeepsApartRight(a: bv9, b: bv9, c: Cell)
    requires Apart(a, b) && !Holds(a, c)
    ensures Apart(a, Place(b, c))
  {
  }

  /* Bit algebra behind `bitBoard[side] &= ~(1 << index)`. */

  lemma ClearHolds(b: bv9, c: Cell, d: Cell)
    ensures Holds(Clear(b, c), d) <==> Holds(b, d) && d != c
  {
    if c != d {
      BitsOverlap(c, d);
    }
    SingleBit(c);
    SingleBit(d);
  }

  /** Clearing cell c removes exactly c from the mask's cells. */
  lemma ClearRemovesCell(b: bv9, c: Cell)
    ensures Cells(Clear(b, c)) == Cells(b) - {c}
  {
    forall d: Cell
      ensures Holds(Clear(b, c), d) <==> Holds(b, d) && d != c
    {
      ClearHolds(b, c, d);
    }
  }

  lemma ClearKeepsApartLeft(a: bv9, b: bv9, c: Cell)
    requires Apart(a, b)
    ensures Apart(Clear(a, c), b)
  {
  }

  lemma ClearKeepsApartRight(a: bv9, b: bv9, c: Cell)
    requires Apart(a, b)
    ensures Apart(a, Clear(b, c))
  {
  }

  /** The occupied cells are the cells of either board. */
  lemma OccupiedCells(s: State)
    ensures Cells(Occupied(s)) == Cells(s.o) + Cells(s.x)
  {
    forall d: Cell
      ensures Holds(Occupied(s), d) <==> Holds(s.o, d) || Holds(s.x, d)
    {
      HoldsInUnion(s.o, s.x, d);
    }
  }

  /** Setting the clear bit of cell c adds exactly c to the mask's cells. */
  lemma PlaceAddsCell(b: bv9, c: Cell)
    requires !Holds(b, c)
    ensures Cells(Place(b, c)) == Cells(b) + {c}
    ensures |Cells(Place(b, c))| == |Cells(b)| + 1
  {
    PlaceHoldsOnlyThere(b, c);
  }

  /** Setting the clear bit of cell c removes exactly c from the mask's empty cells. */
  lemma PlaceFillsCell(b: bv9, c: Cell)
    requires !Holds(b, c)
    ensures EmptyCells(Place(b, c)) == EmptyCells(b) - {c}
    ensures |EmptyCells(Place(b, c))| == |EmptyCells(b)| - 1
  {
    PlaceHoldsOnlyThere(b, c);
  }

  lemma PlaceHoldsOnlyThere(b: bv9, c: Cell)
    ensures forall d: Cell :: Holds(Place(b, c), d) <==> Holds(b, d) || d == c
  {
    forall d: Cell
      ensures Holds(Place(b, c), d) <==> Holds(b, d) || d == c
    {
      PlaceHolds(b, c, d);
    }
  }

  lemma PlaceHolds(b: bv9, c: Cell, d: Cell)
    ensures Holds(Place(b, c), d) <==> Holds(b, d) || d == c
  {
    if c != d {
      BitsOverlap(c, d);
    }
  }

  /** More occupied cells never means more empty cells. */
  lemma FreeShrinks(b: bv9, b': bv9)
    requires Cells(b) <= Cells(b')
    ensures EmptyCells(b') <= EmptyCells(b)
    ensures |EmptyCells(b')| <= |EmptyCells(b)|
  {
    forall d | d in EmptyCells(b')
      ensures d in EmptyCells(b)
    {
      StillClear(b, b', d);
    }
    SubsetNoLarger(EmptyCells(b'), EmptyCells(b));
  }

  /** A board has at most nine empty cells. */
  lemma FreeAtMostNine(s: State)
    ensures Free(s) <= 9
  {
    assert Cells(0) == {};
    assert EmptyCells(0) == {0, 1, 2, 3, 4, 5, 6, 7, 8};
    FreeShrinks(0, Occupied(s));
  }

  lemma StillClear(b: bv9, b': bv9, d: Cell)
    requires Cells(b) <= Cells(b') && !Holds(b', d)
    ensures !Holds(b, d)
  {
    assert d !in Cells(b');
  }

  lemma SubsetNoLarger(e': set<int>, e: set<int>)
    requires e' <= e
    ensures |e'| <= |e|
  {
    assert e == e' + (e - e');
  }

  /** `isDraw()`: the union of the two boards is 511. */
  predicate IsDraw(s: State)
  {
    Occupied(s) == Full
  }

  /** The draw test is exactly "no empty cell"; it says nothing about lines. */
  lemma IsDrawMeansNoEmptyCell(s: State)
    ensures IsDraw(s) <==> forall c: Cell :: !IsEmpty(s, c)
    ensures IsDraw(s) <==> Free(s) == 0
  {
    var b := Occupied(s);
    if forall c: Cell :: !IsEmpty(s, c) {
      assert !IsEmpty(s, 0) && !IsEmpty(s, 1) && !IsEmpty(s, 2);
      assert !IsEmpty(s, 3) && !IsEmpty(s, 4) && !IsEmpty(s, 5);
      assert !IsEmpty(s, 6) && !IsEmpty(s, 7) && !IsEmpty(s, 8);
      assert b == Full;
    }
    if Free(s) == 0 {
      forall c: Cell
        ensures !IsEmpty(s, c)
      {
        assert c !in EmptyCells(b);
      }
    }
    if IsDraw(s) {
      assert EmptyCells(b) == {};
    }
  }

  /** `bitMasks`: the eight winning lines. */
  const LineMasks: seq<bv9> := [7, 56, 448, 73, 146, 292, 273, 84]

  /** The board holds every cell of the mask. */
  predicate Completes(b: bv9, mask: bv9)
  {
    b & mask == mask
  }

  /** The board holds some complete line. */
  ghost predicate HasLine(b: bv9)
  {
    exists j | 0 <= j < |LineMasks| :: Completes(b, LineMasks[j])
  }

  /** Neither board completes any of the masks k .. j-1. */
  ghost predicate NoLineIn(s: State, k: int, j: int)
    requires 0 <= k <= j <= |LineMasks|
  {
    forall i | k <= i < j :: !Completes(s.o, LineMasks[i]) && !Completes(s.x, LineMasks[i])
  }

  /** The `for (const mask of bitMasks)` scan of `isWin`, from mask k on: the first
      mask that either board completes decides, O's board checked before X's. */
  function WinFrom(s: State, k: nat): (r: int)
    requires k <= |LineMasks|
    ensures r == -1 <==> exists j | k <= j < |LineMasks| ::
                           Completes(s.o, LineMasks[j]) && NoLineIn(s, k, j)
    ensures r == 1 <==> exists j | k <= j < |LineMasks| ::
                          !Completes(s.o, LineMasks[j]) && Completes(s.x, LineMasks[j]) && NoLineIn(s, k, j)
    ensures r == 0 <==> NoLineIn(s, k, |LineMasks|)
    decreases |LineMasks| - k
  {
    if k == |LineMasks| then 0
    else if Completes(s.o, LineMasks[k]) then -1
    else if Completes(s.x, LineMasks[k]) then 1
    else
      NoLineExtends(s, k);
      WinFrom(s, k + 1)
  }

  /** When mask k is not completed, no line in k+1 .. j-1 is no line in k .. j-1. */
  lemma NoLineExtends(s: State, k: nat)
    requires k < |LineMasks|
    requires !Completes(s.o, LineMasks[k]) && !Completes(s.x, LineMasks[k])
    ensures forall j | k + 1 <= j <= |LineMasks| :: NoLineIn(s, k + 1, j) <==> NoLineIn(s, k, j)
  {
    forall j | k + 1 <= j <= |LineMasks|
      ensures NoLineIn(s, k + 1, j) ==> NoLineIn(s, k, j)
    {
      if NoLineIn(s, k + 1, j) {
        forall i | k <= i < j
          ensures !Completes(s.o, LineMasks[i]) && !Completes(s.x, LineMasks[i])
        {
          if i > k {
            assert k + 1 <= i < j;
          }
        }
      }
    }
  }

  /** `isWin()`: -1 when O holds a line, 1 when X does, 0 when neither. */
  function IsWin(s: State): (r: int)
    ensures r == -1 || r == 0 || r == 1
    ensures r == 0 <==> !HasLine(s.o) && !HasLine(s.x)
    ensures r == -1 ==> HasLine(s.o)
    ensures r == 1 ==> HasLine(s.x)
    ensures HasLine(s.o) && !HasLine(s.x) ==> r == -1
    ensures HasLine(s.x) && !HasLine(s.o) ==> r == 1
  {
    WinFrom(s, 0)
  }

  /** The draw test does not exclude a win: a full board can hold a line. */
  lemma DrawDoesNotExcludeWin()
    ensures var s := State(0x0CA, 0x135, O, 0); IsDraw(s) && Disjoint(s) && IsWin(s) == 1
  {
    var s := State(0x0CA, 0x135, O, 0);
    assert Completes(s.x, LineMasks[6]);
    assert !HasLine(s.o) by {
      forall j | 0 <= j < |LineMasks|
        ensures !Completes(s.o, LineMasks[j])
      {
      }
    }
  }
}
