/** The two player actions on a single cell: reveal (left click) and flag
    toggle (right click or M). Each returns the new board with its result. */
module Actions {
  import opened Board

  /** No cell of the board is both flagged and revealed. */
  ghost predicate Exclusive(g: Grid, b: Board)
    requires Fits(g, b)
  {
    forall p :: g.InBounds(p) ==> !(At(g, b, p).flagged && At(g, b, p).revealed)
  }

  /** `cell` is the revealed cell, or None where the game returns NULL. */
  datatype RevealResult = RevealResult(cell: Option<Cell>, board: Board)

  /** `delta` is what the caller adds to its mines-left counter. */
  datatype FlagResult = FlagResult(delta: int, board: Board)

  /** Reveal the cell at `p` unless it is already revealed or flagged. */
  function RevealCell(g: Grid, b: Board, p: Pos): (res: RevealResult)
    requires Fits(g, b) && g.InBounds(p)
    ensures Fits(g, res.board)
    ensures res.cell.None? <==> At(g, b, p).revealed || At(g, b, p).flagged
    ensures res.cell.None? ==> res.board == b
    ensures res.cell.Some? ==>
              && res.cell.value == At(g, res.board, p)
              && res.cell.value.revealed
              && res.cell.value.value == At(g, b, p).value
              && !res.cell.value.flagged
    ensures forall q :: g.InBounds(q) && q != p ==> At(g, res.board, q) == At(g, b, q)
    ensures Count(res.board, Flagged) == Count(b, Flagged)
    ensures Exclusive(g, b) ==> Exclusive(g, res.board)
  {
    var c := At(g, b, p);
    if c.revealed || c.flagged then RevealResult(None, b)
    else
      var c' := c.(revealed := true);
      CountPut(b, g.Index(p), c', Flagged);
      RevealResult(Some(c'), Put(g, b, p, c'))
  }

  /** Revealing the same cell twice: the second call returns None and
      leaves the board as the first call left it. */
  lemma RevealTwice(g: Grid, b: Board, p: Pos)
    requires Fits(g, b) && g.InBounds(p)
    ensures var first := RevealCell(g, b, p);
            RevealCell(g, first.board, p) == RevealResult(None, first.board)
  {
  }

  /** Toggle the flag of an unrevealed cell; a revealed cell is left alone. */
  function FlagCell(g: Grid, b: Board, p: Pos): (res: FlagResult)
    requires Fits(g, b) && g.InBounds(p)
    ensures Fits(g, res.board)
    ensures res.delta in {-1, 0, 1}
    ensures res.delta == 0 <==> At(g, b, p).revealed
    ensures res.delta == 0 ==> res.board == b
    ensures res.delta != 0 ==>
              && At(g, res.board, p).value == At(g, b, p).value
              && !At(g, res.board, p).revealed
              && At(g, res.board, p).flagged == !At(g, b, p).flagged
              && (res.delta == -1 <==> At(g, res.board, p).flagged)
    ensures forall q :: g.InBounds(q) && q != p ==> At(g, res.board, q) == At(g, b, q)
    // a counter kept as `total - number of flags` stays so after `+= delta`
    ensures res.delta == Count(b, Flagged) - Count(res.board, Flagged)
    ensures Exclusive(g, b) ==> Exclusive(g, res.board)
  {
    var c := At(g, b, p);
    if c.revealed then FlagResult(0, b)
    else
      var c' := c.(flagged := !c.flagged);
      CountPut(b, g.Index(p), c', Flagged);
      FlagResult(if c'.flagged then -1 else 1, Put(g, b, p, c'))
  }

  /** Two consecutive toggles cancel: the deltas sum to zero and the board
      is restored. */
  lemma FlagTwice(g: Grid, b: Board, p: Pos)
    requires Fits(g, b) && g.InBounds(p)
    ensures var first := FlagCell(g, b, p);
            var second := FlagCell(g, first.board, p);
            first.delta + second.delta == 0 && second.board == b
  {
    var first := FlagCell(g, b, p);
    var second := FlagCell(g, first.board, p);
    if !At(g, b, p).revealed {
      var i := g.Index(p);
      assert first.board == b[i := b[i].(flagged := !b[i].flagged)];
      assert second.board == first.board[i := b[i]];
    }
  }
}
