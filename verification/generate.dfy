/** Board generation: choose distinct mine positions by rejection sampling,
    write MINE into them and count each mine into its neighbours. */
module Generate {
  import opened Board

  /** Two successive results of the random source, consumed in the game's
      order: the first picks the row, the second the column. */
  datatype Draw = Draw(ry: nat, rx: nat)

  /** The position a draw proposes (`rand() % ROWS`, `rand() % COLUMNS`). */
  function Candidate(g: Grid, d: Draw): (p: Pos)
    requires g.Valid()
    ensures g.InBounds(p)
  {
    Pos(d.rx % g.cols, d.ry % g.rows)
  }

  function Candidates(g: Grid, draws: seq<Draw>): (ps: seq<Pos>)
    requires g.Valid()
    ensures |ps| == |draws|
    ensures forall i :: 0 <= i < |ps| ==> ps[i] == Candidate(g, draws[i])
    ensures forall q :: q in ps ==> g.InBounds(q)
  {
    seq(|draws|, i requires 0 <= i < |draws| => Candidate(g, draws[i]))
  }

  /** Reference for rejection sampling: the elements of `s` in order of
      first occurrence, later repeats dropped. */
  function FirstDistinct(s: seq<Pos>): (r: seq<Pos>)
    ensures Distinct(r)
    ensures forall q :: q in r <==> q in s
  {
    if |s| == 0 then []
    else
      var d := FirstDistinct(s[..|s| - 1]);
      var last := s[|s| - 1];
      assert forall q :: q in s <==> q in s[..|s| - 1] || q == last;
      if last in d then d else d + [last]
  }

  /** Extending the input by one element extends the sample by that element
      exactly when it is new. */
  lemma FirstDistinctSnoc(s: seq<Pos>, q: Pos)
    ensures FirstDistinct(s + [q]) == if q in s then FirstDistinct(s) else FirstDistinct(s) + [q]
  {
    assert (s + [q])[..|s|] == s;
  }

  /** Sampling a prefix of the draws yields a prefix of the full sample. */
  lemma {:induction false} FirstDistinctPrefix(s: seq<Pos>, k: nat)
    requires k <= |s|
    ensures FirstDistinct(s[..k]) <= FirstDistinct(s)
    decreases |s| - k
  {
    if k < |s| {
      var s' := s[..|s| - 1];
      assert s'[..k] == s[..k];
      FirstDistinctPrefix(s', k);
    } else {
      assert s[..k] == s;
    }
  }

  /** Rejection sampling: draw candidates until `mineCount` distinct ones
      are found. None when the draws run out first (where the game would
      keep calling `rand()`). */
  method SampleMines(g: Grid, mineCount: nat, draws: seq<Draw>) returns (mines: Option<seq<Pos>>)
    requires g.Valid()
    ensures mines.Some? <==> |FirstDistinct(Candidates(g, draws))| >= mineCount
    ensures mines.Some? ==> mines.value == FirstDistinct(Candidates(g, draws))[..mineCount]
    ensures mines.Some? ==>
              && |mines.value| == mineCount
              && Distinct(mines.value)
              && forall i :: 0 <= i < |mines.value| ==> g.InBounds(mines.value[i])
  {
    ghost var cands := Candidates(g, draws);
    var found: seq<Pos> := [];
    var k := 0;
    while |found| < mineCount && k < |draws|
      invariant 0 <= k <= |draws|
      invariant found == FirstDistinct(cands[..k])
      invariant |found| <= mineCount
    {
      var y := draws[k].ry % g.rows;
      var x := draws[k].rx % g.cols;
      var foundNew := true;
      var i := 0;
      while i < |found|
        invariant 0 <= i <= |found|
        invariant foundNew
        invariant forall j :: 0 <= j < i ==> found[j] != Pos(x, y)
      {
        if found[i].x == x && found[i].y == y {
          foundNew := false;
          break;
        }
        i := i + 1;
      }
      assert cands[..k + 1] == cands[..k] + [Pos(x, y)];
      FirstDistinctSnoc(cands[..k], Pos(x, y));
      if foundNew {
        found := found + [Pos(x, y)];
      }
      k := k + 1;
    }
    FirstDistinctPrefix(cands, k);
    if |found| < mineCount {
      assert cands[..k] == cands;
      return None;
    }
    return Some(found);
  }

  /** How many elements of `ns` occur in `ms`. */
  function CountIn(ns: seq<Pos>, ms: seq<Pos>): (n: nat)
    ensures n <= |ns|
  {
    if |ns| == 0 then 0
    else CountIn(ns[..|ns| - 1], ms) + (if ns[|ns| - 1] in ms then 1 else 0)
  }

  lemma {:induction false} CountInNothing(ns: seq<Pos>)
    ensures CountIn(ns, []) == 0
  {
    if |ns| > 0 {
      CountInNothing(ns[..|ns| - 1]);
    }
  }

  /** Adding a new mine `m` adds one to the count of a distinct list exactly
      when the list contains `m`. */
  lemma {:induction false} CountInSnoc(ns: seq<Pos>, ms: seq<Pos>, m: Pos)
    requires Distinct(ns) && m !in ms
    ensures CountIn(ns, ms + [m]) == CountIn(ns, ms) + (if m in ns then 1 else 0)
  {
    if |ns| > 0 {
      var init := ns[..|ns| - 1];
      assert forall q :: q in ns <==> q in init || q == ns[|ns| - 1];
      CountInSnoc(init, ms, m);
    }
  }

  /** The cells of `b` at the positions `ns`. */
  function CellsAt(g: Grid, b: Board, ns: seq<Pos>): (cs: seq<Cell>)
    requires Fits(g, b)
    requires forall i :: 0 <= i < |ns| ==> g.InBounds(ns[i])
    ensures |cs| == |ns|
  {
    seq(|ns|, i requires 0 <= i < |ns| => At(g, b, ns[i]))
  }

  /** The number of mines among the in-bounds neighbours of `p`. */
  function MinesAround(g: Grid, b: Board, p: Pos): (n: nat)
    requires Fits(g, b)
    ensures n <= 8
  {
    Count(CellsAt(g, b, Neighbours(g, p)), Mined)
  }

  /** Every cell that is not a mine holds the number of its mine neighbours. */
  ghost predicate Consistent(g: Grid, b: Board)
    requires Fits(g, b)
  {
    forall p :: g.InBounds(p) && !IsMine(At(g, b, p)) ==> At(g, b, p).value == MinesAround(g, b, p)
  }

  /** Counting membership in `ms` agrees with counting mines on a board whose
      mines are exactly `ms`. */
  lemma {:induction false} CountInIsMinesAround(g: Grid, b: Board, ns: seq<Pos>, ms: seq<Pos>)
    requires Fits(g, b)
    requires forall i :: 0 <= i < |ns| ==> g.InBounds(ns[i])
    requires forall i :: 0 <= i < |ns| ==> (IsMine(At(g, b, ns[i])) <==> ns[i] in ms)
    ensures CountIn(ns, ms) == Count(CellsAt(g, b, ns), Mined)
  {
    if |ns| > 0 {
      var init := ns[..|ns| - 1];
      assert CellsAt(g, b, ns)[..|ns| - 1] == CellsAt(g, b, init);
      CountInIsMinesAround(g, b, init, ms);
    }
  }

  /** One step of the inner loop of generation: add one to every in-bounds
      neighbour of `m` that does not already hold MINE. */
  method IncrementAround(g: Grid, b: Board, m: Pos) returns (b': Board)
    requires Fits(g, b) && g.InBounds(m)
    requires forall p :: g.InBounds(p) ==> At(g, b, p).value >= MINE
    ensures Fits(g, b')
    ensures forall p :: g.InBounds(p) ==>
              At(g, b', p) == if Adjacent(m, p) && !IsMine(At(g, b, p))
                              then At(g, b, p).(value := At(g, b, p).value + 1)
                              else At(g, b, p)
    ensures Count(b', Mined) == Count(b, Mined)
  {
    var nbrs := Neighbours(g, m);
    b' := b;
    var k := 0;
    while k < |nbrs|
      invariant 0 <= k <= |nbrs|
      invariant Fits(g, b')
      invariant forall p :: g.InBounds(p) ==>
                  At(g, b', p) == if p in nbrs[..k] && !IsMine(At(g, b, p))
                                  then At(g, b, p).(value := At(g, b, p).value + 1)
                                  else At(g, b, p)
      invariant Count(b', Mined) == Count(b, Mined)
    {
      var n := nbrs[k];
      assert n !in nbrs[..k];
      assert nbrs[..k + 1] == nbrs[..k] + [n];
      var c := At(g, b', n);
      if c.value != MINE {
        var c' := c.(value := c.value + 1);
        CountPut(b', g.Index(n), c', Mined);
        b' := Put(g, b', n, c');
      }
      k := k + 1;
    }
    assert nbrs[..k] == nbrs;
  }

  lemma {:induction false} CountNone(s: seq<Cell>, f: Feature)
    requires forall i :: 0 <= i < |s| ==> !Has(s[i], f)
    ensures Count(s, f) == 0
  {
    if |s| > 0 {
      CountNone(s[..|s| - 1], f);
    }
  }

  /** After mine `m` is added to the mines `ms`, every other non-mine cell
      counts one more exactly when it is adjacent to `m`. */
  lemma MarkStepCounts(g: Grid, b: Board, b': Board, ms: seq<Pos>, m: Pos)
    requires Fits(g, b) && Fits(g, b') && g.InBounds(m) && m !in ms
    requires forall p :: g.InBounds(p) ==> (IsMine(At(g, b, p)) <==> p in ms)
    requires forall p :: g.InBounds(p) && p !in ms ==> At(g, b, p).value == CountIn(Neighbours(g, p), ms)
    requires forall p :: g.InBounds(p) && p != m ==>
               At(g, b', p).value == if Adjacent(m, p) && !IsMine(At(g, b, p))
                                     then At(g, b, p).value + 1
                                     else At(g, b, p).value
    ensures forall p :: g.InBounds(p) && p !in ms + [m] ==>
              At(g, b', p).value == CountIn(Neighbours(g, p), ms + [m])
  {
    forall p | g.InBounds(p) && p !in ms + [m]
      ensures At(g, b', p).value == CountIn(Neighbours(g, p), ms + [m])
    {
      assert Adjacent(m, p) <==> m in Neighbours(g, p);
      CountInSnoc(Neighbours(g, p), ms, m);
    }
  }

  /** The board after the mines `ms` have been marked: hidden everywhere,
      MINE exactly at `ms`, every other cell counting its neighbours in `ms`. */
  ghost predicate MarkInv(g: Grid, b: Board, ms: seq<Pos>)
    requires Fits(g, b)
  {
    && (forall p :: g.InBounds(p) ==> Hidden(At(g, b, p)) && At(g, b, p).value >= MINE)
    && (forall p :: g.InBounds(p) ==> (IsMine(At(g, b, p)) <==> p in ms))
    && (forall p :: g.InBounds(p) && p !in ms ==> At(g, b, p).value == CountIn(Neighbours(g, p), ms))
    && Count(b, Mined) == |ms|
  }

  /** Marking one more mine `m`: write MINE into it (giving `b1`), then
      count it into its neighbours (giving `b2`). */
  lemma MarkStep(g: Grid, b: Board, b1: Board, b2: Board, ms: seq<Pos>, m: Pos)
    requires Fits(g, b) && g.InBounds(m) && m !in ms
    requires MarkInv(g, b, ms)
    requires b1 == Put(g, b, m, At(g, b, m).(value := MINE))
    requires Fits(g, b2)
    requires forall p :: g.InBounds(p) ==>
               At(g, b2, p) == if Adjacent(m, p) && !IsMine(At(g, b1, p))
                               then At(g, b1, p).(value := At(g, b1, p).value + 1)
                               else At(g, b1, p)
    requires Count(b2, Mined) == Count(b1, Mined)
    ensures MarkInv(g, b2, ms + [m])
  {
    CountPut(b, g.Index(m), At(g, b, m).(value := MINE), Mined);
    forall p | g.InBounds(p)
      ensures Hidden(At(g, b2, p)) && At(g, b2, p).value >= MINE
      ensures IsMine(At(g, b2, p)) <==> p in ms + [m]
      ensures p != m ==> At(g, b2, p).value == if Adjacent(m, p) && !IsMine(At(g, b, p))
                                              then At(g, b, p).value + 1
                                              else At(g, b, p).value
    {
      if p != m {
        assert At(g, b1, p) == At(g, b, p);
      }
    }
    MarkStepCounts(g, b, b2, ms, m);
  }

  /** Write MINE into each position of `mines` on a fresh board and count
      every mine into its neighbours, in the order the mines were chosen. A
      later mine may be counted into before it is overwritten with MINE;
      the invariant shows the final board is consistent anyway. */
  method MarkMines(g: Grid, mines: seq<Pos>) returns (b: Board)
    requires Distinct(mines)
    requires forall i :: 0 <= i < |mines| ==> g.InBounds(mines[i])
    ensures Fits(g, b)
    ensures forall p :: g.InBounds(p) ==> (IsMine(At(g, b, p)) <==> p in mines)
    ensures Consistent(g, b)
    ensures forall p :: g.InBounds(p) ==> Hidden(At(g, b, p))
    ensures Count(b, Mined) == |mines|
  {
    b := EmptyBoard(g);
    CountNone(b, Mined);
    forall p | g.InBounds(p) {
      CountInNothing(Neighbours(g, p));
    }
    var i := 0;
    while i < |mines|
      invariant 0 <= i <= |mines|
      invariant Fits(g, b)
      invariant MarkInv(g, b, mines[..i])
    {
      var m := mines[i];
      assert m !in mines[..i];
      assert mines[..i + 1] == mines[..i] + [m];
      var b1 := Put(g, b, m, At(g, b, m).(value := MINE));
      var b2 := IncrementAround(g, b1, m);
      MarkStep(g, b, b1, b2, mines[..i], m);
      b := b2;
      i := i + 1;
    }
    assert mines[..i] == mines;
    forall p | g.InBounds(p) && !IsMine(At(g, b, p))
      ensures At(g, b, p).value == MinesAround(g, b, p)
    {
      var ns := Neighbours(g, p);
      CountInIsMinesAround(g, b, ns, mines);
    }
  }

  /** Generate a board: sample the mines, then mark them on the all-zero
      board. None only when the draws run out before enough distinct
      positions were proposed. */
  method InitGameData(g: Grid, mineCount: nat, draws: seq<Draw>) returns (r: Option<Board>)
    requires g.Valid()
    ensures r.None? <==> |FirstDistinct(Candidates(g, draws))| < mineCount
    ensures r.Some? ==>
              && Fits(g, r.value)
              && Count(r.value, Mined) == mineCount
              && (forall p :: g.InBounds(p) ==>
                    (IsMine(At(g, r.value, p)) <==> p in FirstDistinct(Candidates(g, draws))[..mineCount]))
              && Consistent(g, r.value)
              && (forall p :: g.InBounds(p) ==> Hidden(At(g, r.value, p)))
              && (forall p :: g.InBounds(p) ==> At(g, r.value, p).value == MINE || 0 <= At(g, r.value, p).value <= 8)
    ensures r.Some? ==> mineCount <= g.Size()
  {
    var mines := SampleMines(g, mineCount, draws);
    if mines.None? {
      return None;
    }
    var b := MarkMines(g, mines.value);
    return Some(b);
  }
}
