/** The minesweeper board: cells, positions, the row-major flat layout and
    the 8-neighbourhood of a position, plus counting over the flat board. */
module Board {

  /** The value a cell holds when it is a mine (a count is never negative). */
  const MINE: int := -1

  datatype Option<T> = None | Some(value: T)

  /** One square of the grid. `value` is MINE or the number of adjacent mines. */
  datatype Cell = Cell(value: int, flagged: bool, revealed: bool)

  /** The cell every square of a fresh board holds (all-zero initialiser). */
  const EmptyCell: Cell := Cell(0, false, false)

  predicate IsMine(c: Cell) { c.value == MINE }
  predicate IsFlagged(c: Cell) { c.flagged }
  predicate IsRevealed(c: Cell) { c.revealed }

  /** The cell properties the game counts over a board. */
  datatype Feature = Mined | Flagged | Revealed

  predicate Has(c: Cell, f: Feature)
  {
    match f
    case Mined => IsMine(c)
    case Flagged => IsFlagged(c)
    case Revealed => IsRevealed(c)
  }

  /** Neither flagged nor revealed: the only state in which a cell may be
      revealed or pushed by the flood fill. */
  predicate Hidden(c: Cell) { !c.flagged && !c.revealed }

  /** A grid coordinate: `x` is the column, `y` the row. */
  datatype Pos = Pos(x: int, y: int)

  /** The board dimensions (compile-time ROWS and COLUMNS in the game). */
  datatype Grid = Grid(rows: nat, cols: nat) {

    predicate Valid() { rows > 0 && cols > 0 }

    function Size(): nat { rows * cols }

    predicate InBounds(p: Pos) { 0 <= p.x < cols && 0 <= p.y < rows }

    /** Row-major position of `p` in the flat board. */
    function Index(p: Pos): (i: nat)
      requires InBounds(p)
      ensures i < Size()
    {
      IndexInRange(this, p);
      p.y * cols + p.x
    }
  }

  lemma IndexInRange(g: Grid, p: Pos)
    requires g.InBounds(p)
    ensures 0 <= p.y * g.cols + p.x < g.rows * g.cols
  {
    MulMono(p.y, g.rows - 1, g.cols);
    assert (g.rows - 1) * g.cols == g.rows * g.cols - g.cols;
  }

  lemma MulMono(a: int, b: int, c: nat)
    requires 0 <= a <= b
    ensures 0 <= a * c <= b * c
  {
  }

  /** Distinct in-bounds positions occupy distinct slots of the flat board. */
  lemma IndexInjective(g: Grid, p: Pos, q: Pos)
    requires g.InBounds(p) && g.InBounds(q)
    ensures g.Index(p) == g.Index(q) ==> p == q
  {
    if p.y < q.y {
      MulMono(p.y + 1, q.y, g.cols);
      assert (p.y + 1) * g.cols == p.y * g.cols + g.cols;
    } else if q.y < p.y {
      MulMono(q.y + 1, p.y, g.cols);
      assert (q.y + 1) * g.cols == q.y * g.cols + g.cols;
    }
  }

  type Board = seq<Cell>

  /** The flat board has one cell per grid square. */
  predicate Fits(g: Grid, b: Board) { |b| == g.Size() }

  function At(g: Grid, b: Board, p: Pos): Cell
    requires Fits(g, b) && g.InBounds(p)
  {
    b[g.Index(p)]
  }

  /** The board with the cell at `p` replaced by `c`. */
  function Put(g: Grid, b: Board, p: Pos, c: Cell): (r: Board)
    requires Fits(g, b) && g.InBounds(p)
    ensures Fits(g, r)
    ensures forall q :: g.InBounds(q) ==> At(g, r, q) == if q == p then c else At(g, b, q)
  {
    var r := b[g.Index(p) := c];
    forall q | g.InBounds(q)
      ensures At(g, r, q) == if q == p then c else At(g, b, q)
    {
      IndexInjective(g, p, q);
    }
    r
  }

  /** A fresh board of the given dimensions: every cell zero, hidden. */
  function EmptyBoard(g: Grid): (b: Board)
    ensures Fits(g, b)
    ensures forall p :: g.InBounds(p) ==> At(g, b, p) == EmptyCell
  {
    seq(g.Size(), i => EmptyCell)
  }

  /** `q` is one of the up to eight squares around `p` (not `p` itself). */
  predicate Adjacent(p: Pos, q: Pos)
  {
    p != q && -1 <= q.x - p.x <= 1 && -1 <= q.y - p.y <= 1
  }

  predicate Distinct<T(==)>(s: seq<T>)
  {
    forall i, j :: 0 <= i < j < |s| ==> s[i] != s[j]
  }

  /** Concatenating two duplicate-free sequences with no common element
      gives a duplicate-free sequence. */
  lemma DistinctConcat<T>(a: seq<T>, b: seq<T>)
    requires Distinct(a) && Distinct(b)
    requires forall i, j :: 0 <= i < |a| && 0 <= j < |b| ==> a[i] != b[j]
    ensures Distinct(a + b)
  {
  }

  /** The eight offsets in the order the game visits them: rows above to
      below (dy = -1, 0, 1), and within a row left to right (dx = -1, 0, 1),
      skipping the centre. */
  function Around(p: Pos): (r: seq<Pos>)
    ensures |r| == 8
    ensures Distinct(r)
    ensures forall q :: q in r <==> Adjacent(p, q)
  {
    var r := [Pos(p.x - 1, p.y - 1), Pos(p.x, p.y - 1), Pos(p.x + 1, p.y - 1),
              Pos(p.x - 1, p.y),                         Pos(p.x + 1, p.y),
              Pos(p.x - 1, p.y + 1), Pos(p.x, p.y + 1), Pos(p.x + 1, p.y + 1)];
    forall q | Adjacent(p, q)
      ensures q in r
    {
      var dx, dy := q.x - p.x, q.y - p.y;
      if dy == -1 {
        if dx == -1 { assert q == r[0]; } else if dx == 0 { assert q == r[1]; } else { assert q == r[2]; }
      } else if dy == 0 {
        if dx == -1 { assert q == r[3]; } else { assert q == r[4]; }
      } else {
        if dx == -1 { assert q == r[5]; } else if dx == 0 { assert q == r[6]; } else { assert q == r[7]; }
      }
    }
    r
  }

  /** The positions of `ps` that lie on the grid, in their original order
      (the game's out-of-bounds `continue`). */
  function Clip(g: Grid, ps: seq<Pos>): (r: seq<Pos>)
    ensures |r| <= |ps|
    ensures forall q :: q in r <==> q in ps && g.InBounds(q)
    ensures Distinct(ps) ==> Distinct(r)
  {
    if |ps| == 0 then []
    else
      var rest := Clip(g, ps[..|ps| - 1]);
      var last := ps[|ps| - 1];
      assert forall q :: q in ps <==> q in ps[..|ps| - 1] || q == last;
      if g.InBounds(last) then rest + [last] else rest
  }

  /** The in-bounds neighbours of `p`, in the game's visiting order. */
  function Neighbours(g: Grid, p: Pos): (r: seq<Pos>)
    ensures |r| <= 8
    ensures Distinct(r)
    ensures forall q :: q in r <==> g.InBounds(q) && Adjacent(p, q)
  {
    Clip(g, Around(p))
  }

  /** The number of cells `c` of `s` with `Has(c, f)`. */
  function Count(s: seq<Cell>, f: Feature): (n: nat)
    ensures n <= |s|
  {
    if |s| == 0 then 0
    else Count(s[..|s| - 1], f) + (if Has(s[|s| - 1], f) then 1 else 0)
  }

  /** Replacing one cell changes the count by that cell's contribution only. */
  lemma {:induction false} CountPut(s: seq<Cell>, i: nat, c: Cell, f: Feature)
    requires i < |s|
    ensures Count(s[i := c], f) == Count(s, f) - (if Has(s[i], f) then 1 else 0) + (if Has(c, f) then 1 else 0)
  {
    var t := s[i := c];
    if i == |s| - 1 {
      assert t[..|t| - 1] == s[..|s| - 1];
    } else {
      assert t[..|t| - 1] == s[..|s| - 1][i := c];
      CountPut(s[..|s| - 1], i, c, f);
    }
  }

  /** One cell with feature `f` forces the count up; one without it forces it down. */
  lemma {:induction false} CountWitness(s: seq<Cell>, i: nat, f: Feature)
    requires i < |s|
    ensures Has(s[i], f) ==> Count(s, f) >= 1
    ensures !Has(s[i], f) ==> Count(s, f) <= |s| - 1
  {
    if i < |s| - 1 {
      CountWitness(s[..|s| - 1], i, f);
    }
  }
}
