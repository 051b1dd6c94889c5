/** The puzzle object of states/game.js: a board of rows and the coordinate
    of the empty tile, both updated in place, passed explicitly to every
    operation. The board contents are specified by the pure functions of
    Boards; Math.random() values are parameters (see RandomDraws). */
module Puzzles {
  import opened Coordinates
  import opened RandomDraws
  import opened Boards

  /** The number of swaps scramblePuzzle performs for the count draw `r`:
      Math.floor(r * 100 * w * h), made odd by adding one when even. */
  function SwapCount(r: Draw, w: nat, h: nat): (n: nat)
    ensures n >= 1 && n % 2 == 1
    ensures w * h >= 1 ==> n <= 100 * w * h
  {
    var drawn := FloorTimes(r, 100 * w * h);
    if drawn % 2 == 0 then drawn + 1 else drawn
  }

  class Puzzle {
    var board: Grid
    var emptyTile: Coord

    /** A rectangular board of at least one row, and the empty tile on it. */
    ghost predicate Valid()
      reads this
    {
      |board| >= 1 && IsGrid(board, |board[0]|, |board|) &&
      InBounds(emptyTile, |board[0]|, |board|)
    }

    /** getPuzzleHeight: the number of rows. */
    function Height(): (h: nat)
      reads this
      ensures forall c :: Has(board, c) ==> 0 <= c.y < h
    {
      |board|
    }

    /** getPuzzleWidth: the length of row 0, which on a valid board is the
        length of every row. */
    function Width(): (w: nat)
      reads this
      requires |board| >= 1
      ensures Valid() ==> IsGrid(board, w, Height())
    {
      |board[0]|
    }

    /** getValueAtCoord */
    function ValueAt(c: Coord): (v: int)
      reads this
      requires Has(board, c)
      ensures v in Values(board)
    {
      GetInValues(board, c);
      Get(board, c)
    }

    /** The cells other than the empty one hold each of 1 .. w*h-1 exactly
        once. True from creation on; the empty cell itself holds w*h until
        the first swap and 0 afterwards. */
    ghost predicate Tiled()
      reads this
      requires Valid()
    {
      NonEmptyTiles(board, emptyTile) == Span(1, Width() * Height())
    }

    /** The first half of createPuzzle: the numbered board and the empty
        tile in the bottom-right corner, before scrambling. */
    constructor (width: nat, height: nat)
      requires width >= 1 && height >= 1
      ensures Valid() && Width() == width && Height() == height
      ensures board == InitialGrid(width, height)
      ensures emptyTile == Coord(width - 1, height - 1)
      ensures Tiled()
    {
      var rows: Grid := [];
      var i := 0;
      var row := 0;
      while row < height
        invariant 0 <= row <= height
        invariant rows == InitialGrid(width, row)
        invariant i == row * width
      {
        var cells: seq<int> := [];
        var col := 0;
        while col < width
          invariant 0 <= col <= width
          invariant cells == Row(row * width + 1, col)
          invariant i == row * width + col
        {
          i := i + 1;
          cells := cells + [i];
          col := col + 1;
        }
        MulPred(row + 1, width);
        rows := rows + [cells];
        row := row + 1;
      }
      board := rows;
      emptyTile := Coord(width - 1, height - 1);
      new;
      InitialTiles(width, height);
    }

    /** setValueAtCoord */
    method SetValueAt(c: Coord, value: int)
      requires Valid() && Has(board, c)
      modifies this
      ensures Valid() && Width() == old(Width()) && Height() == old(Height())
      ensures board == Set(old(board), c, value) && emptyTile == old(emptyTile)
    {
      SetCells(board, c, value);
      board := Set(board, c, value);
    }

    /** setEmptyCoord: clear the cell to 0 and make it the empty tile. */
    method SetEmptyCoord(c: Coord)
      requires Valid() && Has(board, c)
      modifies this
      ensures Valid() && Width() == old(Width()) && Height() == old(Height())
      ensures board == Set(old(board), c, 0) && emptyTile == c
    {
      SetValueAt(c, 0);
      emptyTile := c;
    }

    /** isSwappable: the clicked cell is one of the four cells next to the
        empty tile. It does not check bounds. */
    function IsSwappable(clicked: Coord): (r: bool)
      reads this
      ensures r <==> clicked in Adjacent(emptyTile)
    {
      NeighboursAreAdjacent(emptyTile, clicked);
      NeighboursSymmetric(clicked, emptyTile);
      AreNeighbours(clicked, emptyTile)
    }

    /** isWithinBounds: the coordinate names a cell of the board. */
    function IsWithinBounds(c: Coord): (r: bool)
      reads this
      requires Valid()
      ensures r <==> Has(board, c)
    {
      HasIffInBounds(board, Width(), Height(), c);
      InBounds(c, Width(), Height())
    }

    /** findSwapCandidates: the in-bounds cells among left, right, top and
        bottom of the empty tile, in that order. */
    method FindSwapCandidates() returns (result: seq<Coord>)
      requires Valid()
      ensures result == SwapCandidates(emptyTile, Width(), Height())
      ensures forall c :: c in result <==> Has(board, c) && IsSwappable(c)
      ensures Width() * Height() >= 2 ==> |result| >= 1
    {
      var left := Left(emptyTile);
      var right := Right(emptyTile);
      var top := Top(emptyTile);
      var bottom := Bottom(emptyTile);
      var candidates := [left, right, top, bottom];
      result := [];
      var i := 0;
      while i < |candidates|
        invariant 0 <= i <= |candidates|
        invariant result == KeepInBounds(candidates[..i], Width(), Height())
      {
        assert candidates[..i + 1][..i] == candidates[..i];
        if IsWithinBounds(candidates[i]) {
          result := result + [candidates[i]];
        }
        i := i + 1;
      }
      assert candidates[..i] == Adjacent(emptyTile);
      CandidatesAreLegalMoves(emptyTile, Width(), Height());
      forall c
        ensures c in result <==> Has(board, c) && IsSwappable(c)
      {
        HasIffInBounds(board, Width(), Height(), c);
        NeighboursAreAdjacent(emptyTile, c);
        NeighboursSymmetric(c, emptyTile);
      }
      if Width() * Height() >= 2 {
        CandidatesNonEmpty(emptyTile, Width(), Height());
      }
    }

    /** swapWithEmpty: the empty cell receives the value of `toSwap`, then
        `toSwap` is cleared to 0 and becomes the empty tile. */
    method SwapWithEmpty(toSwap: Coord)
      requires Valid() && Has(board, toSwap)
      modifies this
      ensures Valid() && Width() == old(Width()) && Height() == old(Height())
      ensures board == SwapGrid(old(board), old(emptyTile), toSwap)
      ensures emptyTile == toSwap && Get(board, toSwap) == 0
      ensures toSwap != old(emptyTile) ==> Get(board, old(emptyTile)) == old(Get(board, toSwap))
      ensures forall d :: Has(board, d) && d != old(emptyTile) && d != toSwap ==> Get(board, d) == old(Get(board, d))
    {
      ghost var before := board;
      ghost var gap := emptyTile;
      SwapCells(before, gap, toSwap);
      SetValueAt(emptyTile, ValueAt(toSwap));
      SetEmptyCoord(toSwap);
    }

    /** performRandomSwap: swap the empty tile with the candidate the draw
        picks, Math.floor(r * candidates.length). */
    method PerformRandomSwap(r: Draw)
      requires Valid() && Width() * Height() >= 2
      modifies this
      ensures Valid() && Width() == old(Width()) && Height() == old(Height())
      ensures var cs := SwapCandidates(old(emptyTile), Width(), Height());
        |cs| >= 1 && emptyTile == cs[FloorTimes(r, |cs|)]
      ensures AreNeighbours(emptyTile, old(emptyTile))
      ensures board == SwapGrid(old(board), old(emptyTile), emptyTile)
      ensures EvenCell(emptyTile) != old(EvenCell(emptyTile)) && Get(board, emptyTile) == 0
      ensures NonEmptyTiles(board, emptyTile) == old(NonEmptyTiles(board, emptyTile))
    {
      ghost var before, gap := board, emptyTile;
      var candidates := FindSwapCandidates();
      var choice := FloorTimes(r, |candidates|);
      assert candidates[choice] in candidates;
      SwapWithEmpty(candidates[choice]);
      NeighbourSwap(before, gap, emptyTile);
    }

    /** scramblePuzzle: an odd number of random legal swaps, the k-th one
        chosen by the draw swapDraws[k]. Every swap moves the empty tile to
        a neighbour, which flips the parity of x + y, so after an odd number
        of them the empty tile is not where it started. */
    method ScramblePuzzle(countDraw: Draw, swapDraws: seq<Draw>)
      requires Valid() && Width() * Height() >= 2
      requires |swapDraws| >= SwapCount(countDraw, Width(), Height())
      modifies this
      ensures Valid() && Width() == old(Width()) && Height() == old(Height())
      ensures Layout(board, emptyTile) ==
        Scramble(old(board), old(emptyTile), Width(), Height(), swapDraws[..SwapCount(countDraw, Width(), Height())])
      ensures EvenCell(emptyTile) != old(EvenCell(emptyTile))
      ensures Get(board, emptyTile) == 0
      ensures NonEmptyTiles(board, emptyTile) == old(NonEmptyTiles(board, emptyTile))
    {
      // Math.floor(Math.random() * 100 * w * h), then made odd
      var amountOfSwaps := SwapCount(countDraw, Width(), Height());
      ghost var total := amountOfSwaps;
      ghost var w, h := Width(), Height();
      ghost var start, gap := board, emptyTile;
      assert IsGrid(start, w, h) && InBounds(gap, w, h) && w * h >= 2;
      var k := 0;
      while amountOfSwaps > 0
        invariant 0 <= amountOfSwaps && k + amountOfSwaps == total
        invariant Valid() && Width() == w && Height() == h
        invariant Layout(board, emptyTile) == Scramble(start, gap, w, h, swapDraws[..k])
      {
        amountOfSwaps := amountOfSwaps - 1;
        PerformRandomSwap(swapDraws[k]);
        assert swapDraws[..k + 1][..k] == swapDraws[..k];
        k := k + 1;
      }
      assert k == total == SwapCount(countDraw, Width(), Height());
      ScrambleKeepsTiles(start, gap, w, h, swapDraws[..total]);
      ScrambleColour(start, gap, w, h, swapDraws[..total]);
    }

    /** createPuzzle: the numbered board, then the scramble. The result is
        never solved, and it holds each of 0 .. w*h-1 exactly once. */
    static method CreatePuzzle(width: nat, height: nat, countDraw: Draw, swapDraws: seq<Draw>)
      returns (puzzle: Puzzle)
      requires width >= 1 && height >= 1 && width * height >= 2
      requires |swapDraws| >= SwapCount(countDraw, width, height)
      ensures fresh(puzzle)
      ensures puzzle.Valid() && puzzle.Width() == width && puzzle.Height() == height
      ensures puzzle.Tiled() && Get(puzzle.board, puzzle.emptyTile) == 0
      ensures Values(puzzle.board) == Span(0, width * height)
      ensures puzzle.emptyTile != Coord(width - 1, height - 1)
      ensures !IsSolved(puzzle.board, width, height)
      ensures IsGrid(InitialGrid(width, height), width, height) &&
        Layout(puzzle.board, puzzle.emptyTile) ==
        Scramble(InitialGrid(width, height), Coord(width - 1, height - 1), width, height,
                 swapDraws[..SwapCount(countDraw, width, height)])
    {
      puzzle := new Puzzle(width, height);
      puzzle.ScramblePuzzle(countDraw, swapDraws);
      TilesWithZeroGap(puzzle.board, puzzle.emptyTile, width * height);
      MisplacedGapNotSolved(puzzle.board, width, height, puzzle.emptyTile);
    }

    /** tileClickedHandler, without the redraw: a click next to the empty
        tile is swapped into it and the win test runs; any other click
        changes nothing. `won` is true iff gameWon is reached. */
    method TileClicked(clicked: Coord) returns (won: bool)
      requires Valid() && Has(board, clicked)
      modifies this
      ensures Valid() && Width() == old(Width()) && Height() == old(Height())
      ensures old(AreNeighbours(clicked, emptyTile)) ==>
        board == SwapGrid(old(board), old(emptyTile), clicked) && emptyTile == clicked
      ensures !old(AreNeighbours(clicked, emptyTile)) ==>
        board == old(board) && emptyTile == old(emptyTile)
      ensures won <==> old(AreNeighbours(clicked, emptyTile)) && IsSolved(board, Width(), Height())
    {
      won := false;
      if IsSwappable(clicked) {
        SwapWithEmpty(clicked);
        won := CheckGameWon();
      }
    }

    /** checkGameWon: scan the rows in order and stop at the first cell that
        differs from its expected value; `won` is true iff the scan gets
        through, i.e. iff gameWon would be called. */
    method CheckGameWon() returns (won: bool)
      requires Valid()
      ensures won <==> IsSolved(board, Width(), Height())
    {
      var row := 0;
      while row < Height()
        invariant 0 <= row <= Height()
        invariant forall r, c :: 0 <= r < row && 0 <= c < Width() ==> board[r][c] == Expected(r, c, Width(), Height())
      {
        var col := 0;
        while col < Width()
          invariant 0 <= col <= Width()
          invariant forall c :: 0 <= c < col ==> board[row][c] == Expected(row, c, Width(), Height())
        {
          var expectedValue := row * Width() + col + 1;
          if expectedValue == Height() * Width() {
            expectedValue := 0;
          }
          if ValueAt(Coord(col, row)) != expectedValue {
            return false;
          }
          col := col + 1;
        }
        row := row + 1;
      }
      return true;
    }
  }
}
