/** The win condition polled after every left click. */
module Win {
  import opened Board

  /** Every cell that is not a mine is revealed; flags, and whether mine
      cells are revealed, play no part. */
  ghost predicate AllSafeRevealed(g: Grid, b: Board)
    requires Fits(g, b)
  {
    forall p :: g.InBounds(p) && !IsMine(At(g, b, p)) ==> At(g, b, p).revealed
  }

  /** Scan the grid row by row and stop at the first hidden safe cell. */
  method CheckGameWon(g: Grid, b: Board) returns (won: bool)
    requires Fits(g, b)
    ensures won <==> AllSafeRevealed(g, b)
  {
    var y := 0;
    while y < g.rows
      invariant 0 <= y <= g.rows
      invariant forall p :: g.InBounds(p) && p.y < y && !IsMine(At(g, b, p)) ==> At(g, b, p).revealed
    {
      var x := 0;
      while x < g.cols
        invariant 0 <= x <= g.cols
        invariant forall p :: g.InBounds(p) && (p.y < y || (p.y == y && p.x < x)) && !IsMine(At(g, b, p)) ==>
                                At(g, b, p).revealed
      {
        var cell := At(g, b, Pos(x, y));
        if cell.value != MINE && !cell.revealed {
          return false;
        }
        x := x + 1;
      }
      y := y + 1;
    }
    return true;
  }

  /** Boards that agree on every cell's value and revealed state agree on
      the win condition: toggling flags never wins or loses the game. */
  lemma WinIgnoresFlags(g: Grid, b: Board, b': Board)
    requires Fits(g, b) && Fits(g, b')
    requires forall p :: g.InBounds(p) ==>
               At(g, b, p).value == At(g, b', p).value && At(g, b, p).revealed == At(g, b', p).revealed
    ensures AllSafeRevealed(g, b) <==> AllSafeRevealed(g, b')
  {
  }
}
