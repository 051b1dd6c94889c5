/** game.js: the same puzzle logic as states/game.js, but the puzzle lives in
    one module-level variable instead of being passed around. That variable
    is the field `puzzle` of a Game object, undefined (null) until the first
    createPuzzle, which replaces it with a fresh puzzle. Every other
    operation works on whatever puzzle the global currently holds. */
module GlobalPuzzle {
  import opened Coordinates
  import opened RandomDraws
  import opened Boards
  import opened Puzzles

  class Game {
    /** `let puzzle;` */
    var puzzle: Puzzle?

    constructor ()
      ensures puzzle == null
    {
      puzzle := null;
    }

    ghost predicate Valid()
      reads this, puzzle
    {
      puzzle != null && puzzle.Valid()
    }

    /** createPuzzle: build the numbered board, store it in the global and
        scramble it. The previous puzzle, if any, is dropped, not reused. */
    method CreatePuzzle(width: nat, height: nat, countDraw: Draw, swapDraws: seq<Draw>)
      requires width >= 1 && height >= 1 && width * height >= 2
      requires |swapDraws| >= SwapCount(countDraw, width, height)
      modifies this
      ensures Valid() && fresh(puzzle)
      ensures puzzle.Width() == width && puzzle.Height() == height
      ensures puzzle.Tiled() && Get(puzzle.board, puzzle.emptyTile) == 0
      ensures Values(puzzle.board) == Span(0, width * height)
      ensures puzzle.emptyTile != Coord(width - 1, height - 1)
      ensures !IsSolved(puzzle.board, width, height)
      ensures IsGrid(InitialGrid(width, height), width, height) &&
        Layout(puzzle.board, puzzle.emptyTile) ==
        Scramble(InitialGrid(width, height), Coord(width - 1, height - 1), width, height,
                 swapDraws[..SwapCount(countDraw, width, height)])
    {
      puzzle := new Puzzle(width, height);
      ScramblePuzzle(countDraw, swapDraws);
      TilesWithZeroGap(puzzle.board, puzzle.emptyTile, width * height);
      MisplacedGapNotSolved(puzzle.board, width, height, puzzle.emptyTile);
    }

    /** getPuzzleHeight */
    function Height(): (h: nat)
      reads this, puzzle
      requires Valid()
      ensures h >= 1 && forall c :: Has(puzzle.board, c) ==> 0 <= c.y < h
    {
      puzzle.Height()
    }

    /** getPuzzleWidth */
    function Width(): (w: nat)
      reads this, puzzle
      requires Valid()
      ensures w >= 1 && IsGrid(puzzle.board, w, Height())
    {
      puzzle.Width()
    }

    /** getValueAtCoord */
    function ValueAt(c: Coord): (v: int)
      reads this, puzzle
      requires Valid() && Has(puzzle.board, c)
      ensures v in Values(puzzle.board)
    {
      puzzle.ValueAt(c)
    }

    /** setValueAtCoord */
    method SetValueAt(c: Coord, value: int)
      requires Valid() && Has(puzzle.board, c)
      modifies puzzle
      ensures Valid() && Width() == old(Width()) && Height() == old(Height())
      ensures puzzle.board == Set(old(puzzle.board), c, value)
      ensures puzzle.emptyTile == old(puzzle.emptyTile)
    {
      puzzle.SetValueAt(c, value);
    }

    /** setEmptyCoord */
    method SetEmptyCoord(c: Coord)
      requires Valid() && Has(puzzle.board, c)
      modifies puzzle
      ensures Valid() && Width() == old(Width()) && Height() == old(Height())
      ensures puzzle.board == Set(old(puzzle.board), c, 0) && puzzle.emptyTile == c
    {
      puzzle.SetEmptyCoord(c);
    }

    /** isSwappable */
    function IsSwappable(clicked: Coord): (r: bool)
      reads this, puzzle
      requires Valid()
      ensures r <==> Distance(clicked, puzzle.emptyTile) == 1
    {
      puzzle.IsSwappable(clicked)
    }

    /** isWithinBounds */
    function IsWithinBounds(c: Coord): (r: bool)
      reads this, puzzle
      requires Valid()
      ensures r <==> Has(puzzle.board, c)
      ensures r <==> InBounds(c, Width(), Height())
    {
      HasIffInBounds(puzzle.board, Width(), Height(), c);
      puzzle.IsWithinBounds(c)
    }

    /** findSwapCandidates: only in-bounds neighbours of the empty tile, in
        the order left, right, top, bottom, and none of them left out. */
    method FindSwapCandidates() returns (result: seq<Coord>)
      requires Valid()
      ensures result == SwapCandidates(puzzle.emptyTile, Width(), Height())
      ensures forall c :: c in result <==> InBounds(c, Width(), Height()) && AreNeighbours(c, puzzle.emptyTile)
    {
      result := puzzle.FindSwapCandidates();
      CandidatesAreLegalMoves(puzzle.emptyTile, Width(), Height());
    }

    /** swapWithEmpty */
    method SwapWithEmpty(toSwap: Coord)
      requires Valid() && Has(puzzle.board, toSwap)
      modifies puzzle
      ensures Valid() && Width() == old(Width()) && Height() == old(Height())
      ensures puzzle.board == SwapGrid(old(puzzle.board), old(puzzle.emptyTile), toSwap)
      ensures puzzle.emptyTile == toSwap
      ensures toSwap != old(puzzle.emptyTile) ==>
        NonEmptyTiles(puzzle.board, toSwap) == old(NonEmptyTiles(puzzle.board, puzzle.emptyTile))
    {
      ghost var before := puzzle.board;
      ghost var gap := puzzle.emptyTile;
      puzzle.SwapWithEmpty(toSwap);
      if toSwap != gap {
        SwapKeepsTiles(before, gap, toSwap);
      }
    }

    /** performRandomSwap */
    method PerformRandomSwap(r: Draw)
      requires Valid() && Width() * Height() >= 2
      modifies puzzle
      ensures Valid() && Width() == old(Width()) && Height() == old(Height())
      ensures var cs := SwapCandidates(old(puzzle.emptyTile), Width(), Height());
        |cs| >= 1 && puzzle.emptyTile == cs[FloorTimes(r, |cs|)]
      ensures puzzle.board == SwapGrid(old(puzzle.board), old(puzzle.emptyTile), puzzle.emptyTile)
    {
      puzzle.PerformRandomSwap(r);
    }

    /** scramblePuzzle */
    method ScramblePuzzle(countDraw: Draw, swapDraws: seq<Draw>)
      requires Valid() && Width() * Height() >= 2
      requires |swapDraws| >= SwapCount(countDraw, Width(), Height())
      modifies puzzle
      ensures Valid() && Width() == old(Width()) && Height() == old(Height())
      ensures Layout(puzzle.board, puzzle.emptyTile) ==
        Scramble(old(puzzle.board), old(puzzle.emptyTile), Width(), Height(),
                 swapDraws[..SwapCount(countDraw, Width(), Height())])
      ensures EvenCell(puzzle.emptyTile) != old(EvenCell(puzzle.emptyTile))
      ensures Get(puzzle.board, puzzle.emptyTile) == 0
      ensures NonEmptyTiles(puzzle.board, puzzle.emptyTile) == old(NonEmptyTiles(puzzle.board, puzzle.emptyTile))
    {
      // Math.floor(Math.random() * 100 * w * h), then made odd
      var amountOfSwaps := SwapCount(countDraw, Width(), Height());
      ghost var total := amountOfSwaps;
      ghost var w, h := Width(), Height();
      ghost var start, gap := puzzle.board, puzzle.emptyTile;
      assert IsGrid(start, w, h) && InBounds(gap, w, h) && w * h >= 2;
      var k := 0;
      while amountOfSwaps > 0
        invariant 0 <= amountOfSwaps && k + amountOfSwaps == total
        invariant Valid() && Width() == w && Height() == h
        invariant Layout(puzzle.board, puzzle.emptyTile) == Scramble(start, gap, w, h, swapDraws[..k])
      {
        amountOfSwaps := amountOfSwaps - 1;
        PerformRandomSwap(swapDraws[k]);
        assert swapDraws[..k + 1][..k] == swapDraws[..k];
        k := k + 1;
      }
      assert k == total == SwapCount(countDraw, Width(), Height());
      ScrambleKeepsTiles(start, gap, w, h, swapDraws[..total]);
      ScrambleColour(start, gap, w, h, swapDraws[..total]);
    }

    /** tileClickedHandler, without the redraw. */
    method TileClicked(clicked: Coord) returns (won: bool)
      requires Valid() && Has(puzzle.board, clicked)
      modifies puzzle
      ensures Valid() && Width() == old(Width()) && Height() == old(Height())
      ensures old(AreNeighbours(clicked, puzzle.emptyTile)) ==>
        puzzle.board == SwapGrid(old(puzzle.board), old(puzzle.emptyTile), clicked) && puzzle.emptyTile == clicked
      ensures !old(AreNeighbours(clicked, puzzle.emptyTile)) ==>
        puzzle.board == old(puzzle.board) && puzzle.emptyTile == old(puzzle.emptyTile)
      ensures won <==> old(AreNeighbours(clicked, puzzle.emptyTile)) && IsSolved(puzzle.board, Width(), Height())
    {
      won := puzzle.TileClicked(clicked);
    }

    /** checkGameWon: false at the first cell that differs from its expected
        value (0 for the last cell); true iff gameWon would be called. */
    method CheckGameWon() returns (won: bool)
      requires Valid()
      ensures won <==> (
        puzzle.board[Height() - 1][Width() - 1] == 0 &&
        forall r, c :: 0 <= r < Height() && 0 <= c < Width() && (r, c) != (Height() - 1, Width() - 1) ==>
          puzzle.board[r][c] == r * Width() + c + 1)
    {
      won := puzzle.CheckGameWon();
      SolvedLayout(puzzle.board, Width(), Height());
    }
  }
}
