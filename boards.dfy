/** The puzzle board as a value: a sequence of rows, row-major, with the
    cell at coordinate (x, y) stored in row y, column x. Everything the
    puzzle object does to its board is specified here by pure functions,
    and the properties of the game (the swap is a self-inverse
    transposition, it keeps the tiles, the candidate search finds exactly
    the legal moves, the win test) are proved about them. */
module Boards {
  import opened Coordinates
  import opened RandomDraws

  type Grid = seq<seq<int>>

  /** `h` rows of `w` cells each. */
  predicate IsGrid(g: Grid, w: int, h: int) {
    |g| == h && forall r :: 0 <= r < |g| ==> |g[r]| == w
  }

  /** isWithinBounds, given the board's width and height. */
  predicate InBounds(c: Coord, w: int, h: int) {
    0 <= c.x < w && 0 <= c.y < h
  }

  /** The cell at `c` exists in `g`. */
  predicate Has(g: Grid, c: Coord) {
    0 <= c.y < |g| && 0 <= c.x < |g[c.y]|
  }

  lemma HasIffInBounds(g: Grid, w: int, h: int, c: Coord)
    requires IsGrid(g, w, h)
    ensures Has(g, c) <==> InBounds(c, w, h)
  {
  }

  /** getValueAtCoord */
  function Get(g: Grid, c: Coord): int
    requires Has(g, c)
  {
    g[c.y][c.x]
  }

  /** setValueAtCoord */
  function Set(g: Grid, c: Coord, v: int): Grid
    requires Has(g, c)
  {
    g[c.y := g[c.y][c.x := v]]
  }

  /** Writing one cell keeps the shape, changes that cell and no other. */
  lemma SetCells(g: Grid, c: Coord, v: int)
    requires Has(g, c)
    ensures |Set(g, c, v)| == |g|
    ensures forall r :: 0 <= r < |g| ==> |Set(g, c, v)[r]| == |g[r]|
    ensures forall d :: Has(g, d) ==> Has(Set(g, c, v), d) && Get(Set(g, c, v), d) == if d == c then v else Get(g, d)
  {
  }

  /** swapWithEmpty on the board: the empty cell `e` receives the value of
      `t`, then `t` is cleared to 0. */
  function SwapGrid(g: Grid, e: Coord, t: Coord): Grid
    requires Has(g, e) && Has(g, t)
  {
    SetCells(g, e, Get(g, t));
    Set(Set(g, e, Get(g, t)), t, 0)
  }

  /** The frame of a swap: `t` ends up 0, the old empty cell holds what `t`
      held, the shape is unchanged and every other cell is untouched. */
  lemma SwapCells(g: Grid, e: Coord, t: Coord)
    requires Has(g, e) && Has(g, t)
    ensures forall w, h :: IsGrid(g, w, h) ==> IsGrid(SwapGrid(g, e, t), w, h)
    ensures Has(SwapGrid(g, e, t), t) && Get(SwapGrid(g, e, t), t) == 0
    ensures t != e ==> Has(SwapGrid(g, e, t), e) && Get(SwapGrid(g, e, t), e) == Get(g, t)
    ensures forall d :: Has(g, d) && d != e && d != t ==> Has(SwapGrid(g, e, t), d) && Get(SwapGrid(g, e, t), d) == Get(g, d)
  {
    var g1 := Set(g, e, Get(g, t));
    SetCells(g, e, Get(g, t));
    SetCells(g1, t, 0);
  }

  /** Two boards of the same shape that agree on every cell are equal. */
  lemma GridExtensionality(g: Grid, k: Grid)
    requires |g| == |k|
    requires forall r :: 0 <= r < |g| ==> |g[r]| == |k[r]|
    requires forall d :: Has(g, d) ==> Get(g, d) == Get(k, d)
    ensures g == k
  {
    forall r | 0 <= r < |g|
      ensures g[r] == k[r]
    {
      forall x | 0 <= x < |g[r]|
        ensures g[r][x] == k[r][x]
      {
        assert Has(g, Coord(x, r));
      }
    }
  }

  /** A swap is undone by swapping back, provided the empty cell held 0:
      moving tile `t` into the gap and then the tile now at `e` back into
      the gap at `t` restores the board exactly. */
  lemma SwapRoundTrip(g: Grid, e: Coord, t: Coord)
    requires Has(g, e) && Has(g, t) && e != t
    requires Get(g, e) == 0
    ensures Has(SwapGrid(g, e, t), t) && Has(SwapGrid(g, e, t), e)
    ensures SwapGrid(SwapGrid(g, e, t), t, e) == g
  {
    var g1 := SwapGrid(g, e, t);
    SwapCells(g, e, t);
    var g2 := SwapGrid(g1, t, e);
    SwapCells(g1, t, e);
    forall r | 0 <= r < |g|
      ensures |g2[r]| == |g[r]|
    {
      var g1a := Set(g, e, Get(g, t));
      SetCells(g, e, Get(g, t));
      SetCells(g1a, t, 0);
      var g2a := Set(g1, t, Get(g1, e));
      SetCells(g1, t, Get(g1, e));
      SetCells(g2a, e, 0);
    }
    forall d | Has(g, d)
      ensures Get(g, d) == Get(g2, d)
    {
    }
    GridExtensionality(g, g2);
  }

  /** Before the first swap the empty cell does not hold 0, and there the
      swap back does NOT restore the board: the old empty cell comes back
      as 0 instead of its original value. */
  lemma SwapBackClearsNonZeroGap(g: Grid, e: Coord, t: Coord)
    requires Has(g, e) && Has(g, t) && e != t
    requires Get(g, e) != 0
    ensures Has(SwapGrid(g, e, t), t) && Has(SwapGrid(g, e, t), e)
    ensures SwapGrid(SwapGrid(g, e, t), t, e) != g
  {
    var g1 := SwapGrid(g, e, t);
    SwapCells(g, e, t);
    SwapCells(g1, t, e);
  }

  // ---------------------------------------------------------------------
  // The multiset of tiles

  /** Every value on the board, with multiplicity. */
  function Values(g: Grid): multiset<int> {
    if g == [] then multiset{} else Values(g[..|g| - 1]) + multiset(g[|g| - 1])
  }

  /** The multiset {lo, ..., hi - 1}. */
  function Span(lo: int, hi: int): multiset<int>
    decreases hi - lo
  {
    if hi <= lo then multiset{} else Span(lo, hi - 1) + multiset{hi - 1}
  }

  lemma {:induction false} SpanMembers(lo: int, hi: int, v: int)
    ensures Span(lo, hi)[v] == if lo <= v < hi then 1 else 0
    decreases hi - lo
  {
    if lo < hi {
      SpanMembers(lo, hi - 1, v);
    }
  }

  lemma {:induction false} SpanConcat(a: int, b: int, c: int)
    requires a <= b <= c
    ensures Span(a, b) + Span(b, c) == Span(a, c)
    decreases c - b
  {
    if b < c {
      SpanConcat(a, b, c - 1);
      assert Span(b, c) == Span(b, c - 1) + multiset{c - 1};
      assert Span(a, c) == Span(a, c - 1) + multiset{c - 1};
    } else {
      assert Span(b, c) == multiset{};
    }
  }

  /** The tiles other than the empty cell. */
  function NonEmptyTiles(g: Grid, e: Coord): multiset<int>
    requires Has(g, e)
  {
    Values(g) - multiset{Get(g, e)}
  }

  lemma {:induction false} GetInValues(g: Grid, c: Coord)
    requires Has(g, c)
    ensures Get(g, c) in Values(g)
  {
    var n := |g| - 1;
    if c.y < n {
      assert g[..n][c.y] == g[c.y];
      GetInValues(g[..n], c);
    } else {
      assert g[n][c.x] in multiset(g[n]);
    }
  }

  /** Writing one cell replaces one occurrence of its old value by the new
      value in the multiset of the board. */
  lemma {:induction false} ValuesAfterSet(g: Grid, c: Coord, v: int)
    requires Has(g, c)
    ensures Values(Set(g, c, v)) == Values(g) - multiset{Get(g, c)} + multiset{v}
  {
    var n := |g| - 1;
    if c.y < n {
      assert g[..n][c.y] == g[c.y];
      ValuesAfterSet(g[..n], c, v);
      GetInValues(g[..n], c);
      ValuesAfterSetEarlierRow(g, c, v);
    } else {
      ValuesAfterSetLastRow(g, c, v);
    }
  }

  lemma ValuesAfterSetLastRow(g: Grid, c: Coord, v: int)
    requires Has(g, c) && c.y == |g| - 1
    ensures Values(Set(g, c, v)) == Values(g) - multiset{Get(g, c)} + multiset{v}
  {
    var n := |g| - 1;
    var g' := Set(g, c, v);
    assert g'[..n] == g[..n];
    assert g'[n] == g[n][c.x := v];
    assert multiset(g'[n]) == multiset(g[n]) - multiset{g[n][c.x]} + multiset{v};
    assert Get(g, c) in multiset(g[n]);
    ShiftRight(Values(g[..n]), multiset(g[n]), Get(g, c), v);
  }

  lemma ValuesAfterSetEarlierRow(g: Grid, c: Coord, v: int)
    requires Has(g, c) && c.y < |g| - 1
    requires Get(g, c) in Values(g[..|g| - 1])
    requires Values(Set(g[..|g| - 1], c, v)) == Values(g[..|g| - 1]) - multiset{Get(g, c)} + multiset{v}
    ensures Values(Set(g, c, v)) == Values(g) - multiset{Get(g, c)} + multiset{v}
  {
    var n := |g| - 1;
    var g' := Set(g, c, v);
    assert g'[..n] == Set(g[..n], c, v);
    assert g'[n] == g[n];
    ShiftLeft(Values(g[..n]), multiset(g[n]), Get(g, c), v);
  }

  lemma ShiftRight(a: multiset<int>, b: multiset<int>, o: int, v: int)
    requires o in b
    ensures a + (b - multiset{o} + multiset{v}) == a + b - multiset{o} + multiset{v}
  {
  }

  lemma ShiftLeft(a: multiset<int>, b: multiset<int>, o: int, v: int)
    requires o in a
    ensures (a - multiset{o} + multiset{v}) + b == a + b - multiset{o} + multiset{v}
  {
  }

  /** A swap with a different cell trades the old gap value for 0 ... */
  lemma ValuesAfterSwap(g: Grid, e: Coord, t: Coord)
    requires Has(g, e) && Has(g, t) && e != t
    ensures Values(SwapGrid(g, e, t)) == Values(g) - multiset{Get(g, e)} + multiset{0}
  {
    var g1 := Set(g, e, Get(g, t));
    SetCells(g, e, Get(g, t));
    ValuesAfterSet(g, e, Get(g, t));
    ValuesAfterSet(g1, t, 0);
    GetInValues(g, e);
    assert Get(g1, t) == Get(g, t);
  }

  /** Once the gap holds 0 (after the first swap), a swap keeps the whole
      multiset of values. */
  lemma SwapAfterFirstKeepsValues(g: Grid, e: Coord, t: Coord)
    requires Has(g, e) && Has(g, t) && e != t && Get(g, e) == 0
    ensures Values(SwapGrid(g, e, t)) == Values(g)
  {
    ValuesAfterSwap(g, e, t);
    GetInValues(g, e);
  }

  /** ... so the tiles outside the gap are exactly the same before and after:
      no tile is created, destroyed or duplicated. */
  lemma SwapKeepsTiles(g: Grid, e: Coord, t: Coord)
    requires Has(g, e) && Has(g, t) && e != t
    ensures Has(SwapGrid(g, e, t), t)
    ensures NonEmptyTiles(SwapGrid(g, e, t), t) == NonEmptyTiles(g, e)
  {
    SwapCells(g, e, t);
    ValuesAfterSwap(g, e, t);
  }

  /** What one legal move does: the 0 lands on the moved tile's cell, the
      gap changes colour, and the other tiles stay the same multiset. */
  lemma NeighbourSwap(g: Grid, e: Coord, t: Coord)
    requires Has(g, e) && Has(g, t) && AreNeighbours(t, e)
    ensures EvenCell(t) != EvenCell(e)
    ensures Has(SwapGrid(g, e, t), t) && Get(SwapGrid(g, e, t), t) == 0
    ensures NonEmptyTiles(SwapGrid(g, e, t), t) == NonEmptyTiles(g, e)
  {
    NeighbourFlipsParity(t, e);
    NeighboursIrreflexive(e);
    SwapCells(g, e, t);
    SwapKeepsTiles(g, e, t);
  }

  /** Once the gap holds 0 and the other tiles are 1 .. n-1, the board holds
      each of 0 .. n-1 exactly once, and the gap is the only 0. */
  lemma TilesWithZeroGap(g: Grid, e: Coord, n: int)
    requires Has(g, e) && Get(g, e) == 0 && n >= 1
    requires NonEmptyTiles(g, e) == Span(1, n)
    ensures Values(g) == Span(0, n)
    ensures forall d :: Has(g, d) && d != e ==> 1 <= Get(g, d) < n
  {
    GetInValues(g, e);
    SpanConcat(0, 1, n);
    assert Span(0, 1) == multiset{0};
    forall d | Has(g, d) && d != e
      ensures 1 <= Get(g, d) < n
    {
      GetAmongOthers(g, e, d);
      SpanMembers(1, n, Get(g, d));
    }
  }

  /** A cell other than `e` contributes to the tiles outside `e`. */
  lemma GetAmongOthers(g: Grid, e: Coord, d: Coord)
    requires Has(g, e) && Has(g, d) && d != e
    ensures Get(g, d) in NonEmptyTiles(g, e)
  {
    var v := Get(g, d);
    var g' := Set(g, e, v + 1);
    ValuesAfterSet(g, e, v + 1);
    SetCells(g, e, v + 1);
    GetInValues(g', d);
  }

  // ---------------------------------------------------------------------
  // The board createPuzzle builds

  /** [start, start + 1, ..., start + w - 1] */
  function Row(start: int, w: nat): seq<int> {
    if w == 0 then [] else Row(start, w - 1) + [start + w - 1]
  }

  /** The numbered board before scrambling: 1 .. w*h in row-major order. */
  function InitialGrid(w: nat, h: nat): Grid {
    if h == 0 then [] else InitialGrid(w, h - 1) + [Row((h - 1) * w + 1, w)]
  }

  lemma {:induction false} RowCells(start: int, w: nat)
    ensures |Row(start, w)| == w
    ensures forall c :: 0 <= c < w ==> Row(start, w)[c] == start + c
    ensures multiset(Row(start, w)) == Span(start, start + w)
  {
    if w > 0 {
      var prev := Row(start, w - 1);
      var last := start + w - 1;
      RowCells(start, w - 1);
      assert Row(start, w) == prev + [last];
      assert forall c :: 0 <= c < w - 1 ==> Row(start, w)[c] == prev[c];
      assert multiset(Row(start, w)) == multiset(prev) + multiset{last};
      assert Span(start, start + w) == Span(start, last) + multiset{last};
    }
  }

  /** The board built by createPuzzle holds row * w + col + 1 at (col, row). */
  lemma {:induction false} InitialGridCells(w: nat, h: nat)
    ensures IsGrid(InitialGrid(w, h), w, h)
    ensures forall r, c :: 0 <= r < h && 0 <= c < w ==> InitialGrid(w, h)[r][c] == r * w + c + 1
  {
    if h > 0 {
      InitialGridCells(w, h - 1);
      RowCells((h - 1) * w + 1, w);
    }
  }

  lemma {:induction false} InitialValues(w: nat, h: nat)
    ensures Values(InitialGrid(w, h)) == Span(1, w * h + 1)
  {
    if h == 0 {
      assert w * h == 0;
    } else {
      var start := (h - 1) * w + 1;
      InitialValues(w, h - 1);
      RowCells(start, w);
      MulPred(h, w);
      RowOnTop(InitialGrid(w, h - 1), Row(start, w), start, w, w * h + 1);
    }
  }

  /** Appending a row of start .. total-1 to a board of 1 .. start-1. */
  lemma RowOnTop(g: Grid, row: seq<int>, start: int, w: nat, total: int)
    requires Values(g) == Span(1, start) && multiset(row) == Span(start, start + w)
    requires 1 <= start && start + w == total
    ensures Values(g + [row]) == Span(1, total)
  {
    ValuesSnoc(g, row);
    SpanConcat(1, start, total);
  }

  lemma ValuesSnoc(g: Grid, row: seq<int>)
    ensures Values(g + [row]) == Values(g) + multiset(row)
  {
    assert (g + [row])[..|g|] == g;
  }

  /** (h - 1) * w + w == w * h, and the commuted form. */
  lemma MulPred(h: int, w: int)
    ensures (h - 1) * w + w == w * h && w * (h - 1) == (h - 1) * w
    ensures h >= 1 && w >= 0 ==> (h - 1) * w >= 0
  {
  }

  /** From creation on, the cells other than the bottom-right one hold each
      of 1 .. w*h-1 exactly once; the bottom-right one holds w*h, not 0. */
  lemma InitialTiles(w: nat, h: nat)
    requires w >= 1 && h >= 1
    ensures IsGrid(InitialGrid(w, h), w, h)
    ensures Has(InitialGrid(w, h), Coord(w - 1, h - 1))
    ensures Get(InitialGrid(w, h), Coord(w - 1, h - 1)) == w * h
    ensures NonEmptyTiles(InitialGrid(w, h), Coord(w - 1, h - 1)) == Span(1, w * h)
  {
    var g := InitialGrid(w, h);
    var n := w * h;
    InitialGridCells(w, h);
    InitialValues(w, h);
    MulPred(h, w);
    MulLe(1, h, w);
    assert g[h - 1][w - 1] == (h - 1) * w + (w - 1) + 1;
    assert Get(g, Coord(w - 1, h - 1)) == n && n >= 1;
    assert Span(1, n + 1) == Span(1, n) + multiset{n};
  }

  // ---------------------------------------------------------------------
  // Legal moves

  /** The members of `cs` inside a w by h board, in their original order. */
  function KeepInBounds(cs: seq<Coord>, w: int, h: int): seq<Coord> {
    if cs == [] then []
    else KeepInBounds(cs[..|cs| - 1], w, h) + if InBounds(cs[|cs| - 1], w, h) then [cs[|cs| - 1]] else []
  }

  /** findSwapCandidates: the in-bounds ones among left, right, top, bottom. */
  function SwapCandidates(e: Coord, w: int, h: int): seq<Coord> {
    KeepInBounds(Adjacent(e), w, h)
  }

  lemma {:induction false} KeepInBoundsMembers(cs: seq<Coord>, w: int, h: int)
    ensures forall c :: c in KeepInBounds(cs, w, h) <==> c in cs && InBounds(c, w, h)
  {
    if cs != [] {
      KeepInBoundsMembers(cs[..|cs| - 1], w, h);
      assert cs == cs[..|cs| - 1] + [cs[|cs| - 1]];
    }
  }

  /** The candidates are exactly the in-bounds neighbours of the gap: none
      is out of bounds and none that is in bounds is dropped. */
  lemma CandidatesAreLegalMoves(e: Coord, w: int, h: int)
    ensures forall c :: c in SwapCandidates(e, w, h) <==> InBounds(c, w, h) && AreNeighbours(c, e)
  {
    KeepInBoundsMembers(Adjacent(e), w, h);
    forall c
      ensures c in Adjacent(e) <==> AreNeighbours(c, e)
    {
      NeighboursAreAdjacent(e, c);
      NeighboursSymmetric(c, e);
    }
  }

  function Indicator(b: bool): nat { if b then 1 else 0 }

  lemma KeepInBoundsSnoc(cs: seq<Coord>, c: Coord, w: int, h: int)
    ensures |KeepInBounds(cs + [c], w, h)| == |KeepInBounds(cs, w, h)| + Indicator(InBounds(c, w, h))
  {
    assert (cs + [c])[..|cs|] == cs;
  }

  /** One candidate per side of the gap that is not on the board's border. */
  lemma CandidateCount(e: Coord, w: int, h: int)
    requires InBounds(e, w, h)
    ensures |SwapCandidates(e, w, h)| ==
      Indicator(e.x > 0) + Indicator(e.x < w - 1) + Indicator(e.y > 0) + Indicator(e.y < h - 1)
  {
    var l, r, t, b := Left(e), Right(e), Top(e), Bottom(e);
    KeepInBoundsSnoc([], l, w, h);
    assert [] + [l] == [l];
    KeepInBoundsSnoc([l], r, w, h);
    assert [l] + [r] == [l, r];
    KeepInBoundsSnoc([l, r], t, w, h);
    assert [l, r] + [t] == [l, r, t];
    KeepInBoundsSnoc([l, r, t], b, w, h);
    assert [l, r, t] + [b] == Adjacent(e);
  }

  /** On a board at least 2 by 2: two candidates in a corner, three on an
      edge, four inside. */
  lemma CornerEdgeInterior(e: Coord, w: int, h: int)
    requires w >= 2 && h >= 2 && InBounds(e, w, h)
    ensures (e.x == 0 || e.x == w - 1) && (e.y == 0 || e.y == h - 1) ==> |SwapCandidates(e, w, h)| == 2
    ensures (0 < e.x < w - 1) != (0 < e.y < h - 1) ==> |SwapCandidates(e, w, h)| == 3
    ensures 0 < e.x < w - 1 && 0 < e.y < h - 1 ==> |SwapCandidates(e, w, h)| == 4
  {
    CandidateCount(e, w, h);
  }

  /** Unless the board is a single cell, the gap always has a candidate. */
  lemma CandidatesNonEmpty(e: Coord, w: int, h: int)
    requires InBounds(e, w, h) && w * h >= 2
    ensures |SwapCandidates(e, w, h)| >= 1
  {
    CandidateCount(e, w, h);
    assert !(w == 1 && h == 1);
  }

  // ---------------------------------------------------------------------
  // Scrambling

  /** A board together with the position of its empty cell. */
  datatype Layout = Layout(board: Grid, gap: Coord)

  /** The layout reached from (g, e) by one random swap per draw, in order:
      each draw r picks candidate Math.floor(r * candidates.length) of the
      layout the earlier draws reached, and that tile is swapped into the
      gap. */
  function Scramble(g: Grid, e: Coord, w: int, h: int, ds: seq<Draw>): (s: Layout)
    requires IsGrid(g, w, h) && InBounds(e, w, h) && w * h >= 2
    ensures IsGrid(s.board, w, h) && InBounds(s.gap, w, h)
    decreases |ds|
  {
    if ds == [] then Layout(g, e)
    else
      var p := Scramble(g, e, w, h, ds[..|ds| - 1]);
      var cs := SwapCandidates(p.gap, w, h);
      CandidatesNonEmpty(p.gap, w, h);
      CandidatesAreLegalMoves(p.gap, w, h);
      var t := cs[FloorTimes(ds[|ds| - 1], |cs|)];
      assert t in cs;
      HasIffInBounds(p.board, w, h, t);
      HasIffInBounds(p.board, w, h, p.gap);
      SwapCells(p.board, p.gap, t);
      Layout(SwapGrid(p.board, p.gap, t), t)
  }

  /** The last draw of a scramble moves a neighbour of the gap that the
      earlier draws left into that gap. */
  lemma ScrambleLast(g: Grid, e: Coord, w: int, h: int, ds: seq<Draw>)
    requires IsGrid(g, w, h) && InBounds(e, w, h) && w * h >= 2 && ds != []
    ensures var p, s := Scramble(g, e, w, h, ds[..|ds| - 1]), Scramble(g, e, w, h, ds);
      Has(p.board, p.gap) && Has(p.board, s.gap) && AreNeighbours(s.gap, p.gap) &&
      s.board == SwapGrid(p.board, p.gap, s.gap)
  {
    var p := Scramble(g, e, w, h, ds[..|ds| - 1]);
    var cs := SwapCandidates(p.gap, w, h);
    CandidatesNonEmpty(p.gap, w, h);
    CandidatesAreLegalMoves(p.gap, w, h);
    var t := cs[FloorTimes(ds[|ds| - 1], |cs|)];
    assert t in cs;
    HasIffInBounds(p.board, w, h, t);
    HasIffInBounds(p.board, w, h, p.gap);
  }

  /** Whatever the draws, a scramble keeps the tiles outside the gap, and
      after at least one swap the gap holds 0. */
  lemma {:induction false} ScrambleKeepsTiles(g: Grid, e: Coord, w: int, h: int, ds: seq<Draw>)
    requires IsGrid(g, w, h) && InBounds(e, w, h) && w * h >= 2
    ensures Has(g, e)
    ensures var s := Scramble(g, e, w, h, ds);
      Has(s.board, s.gap) && NonEmptyTiles(s.board, s.gap) == NonEmptyTiles(g, e) &&
      (|ds| >= 1 ==> Get(s.board, s.gap) == 0)
    decreases |ds|
  {
    HasIffInBounds(g, w, h, e);
    if ds != [] {
      var p := Scramble(g, e, w, h, ds[..|ds| - 1]);
      var s := Scramble(g, e, w, h, ds);
      ScrambleKeepsTiles(g, e, w, h, ds[..|ds| - 1]);
      ScrambleLast(g, e, w, h, ds);
      NeighbourSwap(p.board, p.gap, s.gap);
    }
  }

  /** The gap's colour after a scramble differs from the start's exactly
      when the number of swaps is odd. */
  lemma {:induction false} ScrambleColour(g: Grid, e: Coord, w: int, h: int, ds: seq<Draw>)
    requires IsGrid(g, w, h) && InBounds(e, w, h) && w * h >= 2
    ensures EvenCell(Scramble(g, e, w, h, ds).gap) == (EvenCell(e) == IsEven(|ds|))
    decreases |ds|
  {
    if ds != [] {
      var pre := ds[..|ds| - 1];
      var p := Scramble(g, e, w, h, pre);
      var s := Scramble(g, e, w, h, ds);
      ScrambleColour(g, e, w, h, pre);
      ScrambleLast(g, e, w, h, ds);
      NeighbourFlipsParity(s.gap, p.gap);
      assert |ds| == |pre| + 1;
    }
  }

  /** Evenness counted one step at a time. */
  function IsEven(n: nat): (r: bool)
    ensures r <==> n % 2 == 0
  {
    if n == 0 then true else !IsEven(n - 1)
  }

  // ---------------------------------------------------------------------
  // The solved layout

  /** checkGameWon's expected value at (col, row): row * w + col + 1, except
      that the value w*h (the last cell) is expected to be 0. */
  function Expected(row: int, col: int, w: int, h: int): int {
    if row * w + col + 1 == h * w then 0 else row * w + col + 1
  }

  predicate IsSolved(g: Grid, w: int, h: int) {
    IsGrid(g, w, h) &&
    forall r, c :: 0 <= r < h && 0 <= c < w ==> g[r][c] == Expected(r, c, w, h)
  }

  /** Inside the board, row * w + col + 1 reaches w*h only at the last cell. */
  lemma LastCellOnly(r: int, c: int, w: int, h: int)
    requires 0 <= r < h && 0 <= c < w
    ensures r * w + c + 1 == h * w <==> r == h - 1 && c == w - 1
  {
    MulPred(h, w);
    if r < h - 1 {
      MulLe(r + 1, h - 1, w);
      MulPred(r + 1, w);
    }
  }

  lemma MulLe(a: int, b: int, w: int)
    requires a <= b && w >= 0
    ensures a * w <= b * w
  {
  }

  /** The solved layout: every cell holds row * w + col + 1, except the
      bottom-right one, which holds 0. */
  lemma SolvedLayout(g: Grid, w: int, h: int)
    requires IsGrid(g, w, h) && w >= 1 && h >= 1
    ensures IsSolved(g, w, h) <==>
      g[h - 1][w - 1] == 0 &&
      forall r, c :: 0 <= r < h && 0 <= c < w && (r, c) != (h - 1, w - 1) ==> g[r][c] == r * w + c + 1
  {
    forall r, c | 0 <= r < h && 0 <= c < w
      ensures Expected(r, c, w, h) == if (r, c) == (h - 1, w - 1) then 0 else r * w + c + 1
    {
      LastCellOnly(r, c, w, h);
    }
  }

  /** A board whose 0 sits anywhere but the bottom-right cell is not solved. */
  lemma MisplacedGapNotSolved(g: Grid, w: int, h: int, e: Coord)
    requires IsGrid(g, w, h) && InBounds(e, w, h)
    requires Get(g, e) == 0 && e != Coord(w - 1, h - 1)
    ensures !IsSolved(g, w, h)
  {
    LastCellOnly(e.y, e.x, w, h);
  }

  /** The freshly numbered board is not solved either: its last cell holds
      w*h, where the win test expects 0. */
  lemma InitialNotSolved(w: nat, h: nat)
    requires w >= 1 && h >= 1
    ensures !IsSolved(InitialGrid(w, h), w, h)
  {
    InitialTiles(w, h);
  }
}
