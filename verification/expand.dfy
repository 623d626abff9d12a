/** The zero flood fill run after a revealed cell turns out to be 0: an
    explicit stack of positions, each popped cell revealed and its
    unflagged neighbours revealed, zero-valued hidden neighbours pushed. */
module Expand {
  import opened Board
  import opened Actions

  /** A chain of positions starting at `origin` in which every later step is
      adjacent to the one before and lands on a cell that, on board `b`, was
      hidden and held 0. The origin itself is unconstrained. */
  ghost predicate ZeroPath(g: Grid, b: Board, origin: Pos, path: seq<Pos>)
    requires Fits(g, b)
  {
    && |path| > 0
    && path[0] == origin
    && g.InBounds(origin)
    && forall k :: 0 < k < |path| ==>
         && g.InBounds(path[k])
         && Adjacent(path[k - 1], path[k])
         && Hidden(At(g, b, path[k]))
         && At(g, b, path[k]).value == 0
  }

  /** `c` is revealed and so is each of its neighbours that is not flagged. */
  ghost predicate Cleared(g: Grid, r: Board, c: Pos)
    requires Fits(g, r) && g.InBounds(c)
  {
    && At(g, r, c).revealed
    && forall n :: g.InBounds(n) && Adjacent(c, n) && !At(g, r, n).flagged ==> At(g, r, n).revealed
  }

  /** `r` differs from `b` only in cells that went from unrevealed to revealed. */
  ghost predicate Grows(g: Grid, b: Board, r: Board)
    requires Fits(g, b) && Fits(g, r)
  {
    forall p :: g.InBounds(p) ==>
      && At(g, r, p).value == At(g, b, p).value
      && At(g, r, p).flagged == At(g, b, p).flagged
      && (At(g, b, p).revealed ==> At(g, r, p).revealed)
  }

  /** Every chain of hidden zeros from the origin ends inside any set that
      holds the origin and is closed under stepping to an adjacent hidden zero. */
  lemma {:induction false} ZeroPathStaysIn(g: Grid, b: Board, origin: Pos, s: set<Pos>, path: seq<Pos>)
    requires Fits(g, b)
    requires origin in s
    requires forall c, n :: c in s && g.InBounds(n) && Adjacent(c, n) && Hidden(At(g, b, n)) && At(g, b, n).value == 0 ==> n in s
    requires ZeroPath(g, b, origin, path)
    ensures path[|path| - 1] in s
    decreases |path|
  {
    if |path| > 1 {
      var init := path[..|path| - 1];
      assert ZeroPath(g, b, origin, init);
      ZeroPathStaysIn(g, b, origin, s, init);
    }
  }

  /** A chain of hidden zeros extended by an adjacent hidden zero. */
  lemma ZeroPathSnoc(g: Grid, b: Board, origin: Pos, path: seq<Pos>, n: Pos)
    requires Fits(g, b) && ZeroPath(g, b, origin, path)
    requires g.InBounds(n) && Adjacent(path[|path| - 1], n) && Hidden(At(g, b, n)) && At(g, b, n).value == 0
    ensures ZeroPath(g, b, origin, path + [n])
  {
    var path' := path + [n];
    forall k | 0 < k < |path'|
      ensures g.InBounds(path'[k]) && Adjacent(path'[k - 1], path'[k])
      ensures Hidden(At(g, b, path'[k])) && At(g, b, path'[k]).value == 0
    {
      if k < |path| {
        assert path'[k] == path[k] && path'[k - 1] == path[k - 1];
      }
    }
  }

  /** The inner loop's state after visiting the neighbours in `seen`. */
  ghost predicate Visiting(g: Grid, b: Board, seen: seq<Pos>, b': Board, pushed: seq<Pos>)
    requires Fits(g, b)
  {
    && Fits(g, b')
    && (forall p :: g.InBounds(p) ==>
          At(g, b', p) == if p in seen && !At(g, b, p).flagged
                          then At(g, b, p).(revealed := true)
                          else At(g, b, p))
    && (forall n :: n in pushed <==>
          n in seen && g.InBounds(n) && Hidden(At(g, b, n)) && At(g, b, n).value == 0)
    && Distinct(pushed)
    && Count(b', Revealed) >= Count(b, Revealed) + |pushed|
  }

  /** Visiting one more, not yet seen, neighbour `n`: push it if it is a
      hidden zero, then reveal it unless it is flagged. */
  lemma VisitOne(g: Grid, b: Board, seen: seq<Pos>, b': Board, pushed: seq<Pos>, n: Pos,
                  b'': Board, pushed': seq<Pos>)
    requires Fits(g, b) && Visiting(g, b, seen, b', pushed)
    requires g.InBounds(n) && n !in seen
    requires var c := At(g, b', n);
             && pushed' == (if Hidden(c) && c.value == 0 then pushed + [n] else pushed)
             && b'' == if !c.flagged then Put(g, b', n, c.(revealed := true)) else b'
    ensures Visiting(g, b, seen + [n], b'', pushed')
  {
    var c := At(g, b', n);
    assert c == At(g, b, n);
    if !c.flagged {
      CountPut(b', g.Index(n), c.(revealed := true), Revealed);
    }
  }

  /** The inner double loop of the flood fill for the popped cell `cur`:
      every in-bounds neighbour that is unflagged becomes revealed, and the
      ones that were hidden zeros are returned, in visiting order, to be
      pushed. */
  method VisitNeighbours(g: Grid, b: Board, cur: Pos) returns (b': Board, pushed: seq<Pos>)
    requires Fits(g, b) && g.InBounds(cur)
    ensures Fits(g, b')
    ensures forall p :: g.InBounds(p) ==>
              At(g, b', p) == if Adjacent(cur, p) && !At(g, b, p).flagged
                              then At(g, b, p).(revealed := true)
                              else At(g, b, p)
    ensures forall n :: n in pushed <==>
              g.InBounds(n) && Adjacent(cur, n) && Hidden(At(g, b, n)) && At(g, b, n).value == 0
    ensures Distinct(pushed)
    ensures Count(b', Revealed) >= Count(b, Revealed) + |pushed|
  {
    var nbrs := Neighbours(g, cur);
    b' := b;
    pushed := [];
    var k := 0;
    while k < |nbrs|
      invariant 0 <= k <= |nbrs|
      invariant Visiting(g, b, nbrs[..k], b', pushed)
    {
      var n := nbrs[k];
      ghost var b0, pushed0 := b', pushed;
      var c := At(g, b', n);
      if !c.revealed && !c.flagged && c.value == 0 {
        pushed := pushed + [n];
      }
      if !c.flagged {
        b' := Put(g, b', n, c.(revealed := true));
      }
      assert n !in nbrs[..k];
      VisitOne(g, b, nbrs[..k], b0, pushed0, n, b', pushed);
      assert nbrs[..k + 1] == nbrs[..k] + [n];
      k := k + 1;
    }
    assert nbrs[..k] == nbrs;
  }

  /** The ghost state of the flood fill between two pops: the board, the
      stack, every push so far, the cells already popped, and for each
      popped or pending cell a chain of hidden zeros that leads to it. */
  datatype Fill = Fill(r: Board, stack: seq<Pos>, pushes: seq<Pos>, done: set<Pos>, paths: map<Pos, seq<Pos>>)

  /** Shape: only `revealed` grows, the stack holds in-bounds positions that
      are revealed (bar the initial origin), and the origin is popped first. */
  ghost predicate ShapeInv(g: Grid, b: Board, origin: Pos, s: Fill)
    requires Fits(g, b)
  {
    && Fits(g, s.r)
    && Grows(g, b, s.r)
    && (origin in s.done || (s.stack == [origin] && s.pushes == [] && s.r == b))
    && forall i :: 0 <= i < |s.stack| ==>
         g.InBounds(s.stack[i]) && (s.stack[i] == origin || At(g, s.r, s.stack[i]).revealed)
  }

  /** The stack bound: the stack never holds more than one entry beyond the
      pushes so far, and every push paid for a newly revealed cell. */
  ghost predicate BoundInv(g: Grid, b: Board, origin: Pos, s: Fill)
    requires Fits(g, b) && Fits(g, s.r) && g.InBounds(origin)
  {
    && |s.stack| <= |s.pushes| + 1
    && |s.pushes| + Count(b, Revealed) + (if origin in s.done && !At(g, b, origin).revealed then 1 else 0)
       <= Count(s.r, Revealed)
    && |s.stack| <= g.Size()
  }

  /** Every push was a distinct hidden zero of `b`, other than the origin,
      and is revealed now. */
  ghost predicate PushInv(g: Grid, b: Board, origin: Pos, s: Fill)
    requires Fits(g, b) && Fits(g, s.r)
  {
    && Distinct(s.pushes)
    && forall i :: 0 <= i < |s.pushes| ==>
         && s.pushes[i] != origin
         && g.InBounds(s.pushes[i])
         && Hidden(At(g, b, s.pushes[i]))
         && At(g, b, s.pushes[i]).value == 0
         && At(g, s.r, s.pushes[i]).revealed
  }

  /** Popped cells are cleared, and a hidden zero of `b` that is revealed by
      now has been popped or is waiting on the stack. */
  ghost predicate ClosureInv(g: Grid, b: Board, s: Fill)
    requires Fits(g, b) && Fits(g, s.r)
  {
    && (forall c :: c in s.done ==> g.InBounds(c) && Cleared(g, s.r, c))
    && forall n :: g.InBounds(n) && Hidden(At(g, b, n)) && At(g, b, n).value == 0 && At(g, s.r, n).revealed ==>
         n in s.done || n in s.stack
  }

  /** Popped and pending cells are reachable from the origin through hidden
      zeros of `b`. */
  ghost predicate PathsInv(g: Grid, b: Board, origin: Pos, s: Fill)
    requires Fits(g, b)
  {
    forall c :: c in s.done || c in s.stack ==>
      c in s.paths && ZeroPath(g, b, origin, s.paths[c]) && s.paths[c][|s.paths[c]| - 1] == c
  }

  /** Every newly revealed cell other than the origin is an unflagged
      neighbour of a popped cell. */
  ghost predicate WitnessInv(g: Grid, b: Board, origin: Pos, s: Fill)
    requires Fits(g, b) && Fits(g, s.r)
  {
    forall p :: g.InBounds(p) && At(g, s.r, p).revealed && !At(g, b, p).revealed && p != origin ==>
      !At(g, b, p).flagged && exists c :: c in s.done && Adjacent(c, p)
  }

  ghost predicate FillInv(g: Grid, b: Board, origin: Pos, s: Fill)
    requires Fits(g, b) && g.InBounds(origin)
  {
    && ShapeInv(g, b, origin, s)
    && BoundInv(g, b, origin, s)
    && PushInv(g, b, origin, s)
    && ClosureInv(g, b, s)
    && PathsInv(g, b, origin, s)
    && WitnessInv(g, b, origin, s)
  }

  /** One iteration of the outer loop takes state `s` to state `t`: pop
      `cur`, reveal it (giving `r1`), visit its neighbours as VisitNeighbours
      promises, and push the hidden zeros among them. */
  ghost predicate Step(g: Grid, s: Fill, cur: Pos, r1: Board, pushed: seq<Pos>, t: Fill)
  {
    && Fits(g, s.r)
    && |s.stack| > 0
    && cur == s.stack[|s.stack| - 1]
    && g.InBounds(cur)
    && cur in s.paths
    && r1 == Put(g, s.r, cur, At(g, s.r, cur).(revealed := true))
    && Fits(g, t.r)
    && (forall p :: g.InBounds(p) ==>
          At(g, t.r, p) == if Adjacent(cur, p) && !At(g, r1, p).flagged
                           then At(g, r1, p).(revealed := true)
                           else At(g, r1, p))
    && (forall n :: n in pushed <==>
          g.InBounds(n) && Adjacent(cur, n) && Hidden(At(g, r1, n)) && At(g, r1, n).value == 0)
    && Distinct(pushed)
    && Count(t.r, Revealed) >= Count(r1, Revealed) + |pushed|
    && t.stack == s.stack[..|s.stack| - 1] + pushed
    && t.pushes == s.pushes + pushed
    && t.done == s.done + {cur}
    && t.paths == s.paths + map n | n in pushed :: s.paths[cur] + [n]
  }

  /** The same iteration described directly from `s.r` to `t.r`: a cell is
      revealed afterwards iff it was before, is `cur`, or is an unflagged
      neighbour of `cur`. */
  ghost predicate StepFacts(g: Grid, s: Fill, cur: Pos, pushed: seq<Pos>, t: Fill)
  {
    && Fits(g, s.r)
    && Fits(g, t.r)
    && g.InBounds(cur)
    && |s.stack| > 0
    && cur == s.stack[|s.stack| - 1]
    && (forall p :: g.InBounds(p) ==>
          && At(g, t.r, p).value == At(g, s.r, p).value
          && At(g, t.r, p).flagged == At(g, s.r, p).flagged
          && (At(g, t.r, p).revealed <==>
                At(g, s.r, p).revealed || p == cur || (Adjacent(cur, p) && !At(g, s.r, p).flagged)))
    && (forall n :: n in pushed <==>
          g.InBounds(n) && Adjacent(cur, n) && Hidden(At(g, s.r, n)) && At(g, s.r, n).value == 0)
    && Distinct(pushed)
    && Count(t.r, Revealed) >= Count(s.r, Revealed) + |pushed| + (if At(g, s.r, cur).revealed then 0 else 1)
    && cur in s.paths
    && t.stack == s.stack[..|s.stack| - 1] + pushed
    && t.pushes == s.pushes + pushed
    && t.done == s.done + {cur}
    && t.paths == s.paths + map n | n in pushed :: s.paths[cur] + [n]
  }

  lemma StepFactsHold(g: Grid, s: Fill, cur: Pos, r1: Board, pushed: seq<Pos>, t: Fill)
    requires Step(g, s, cur, r1, pushed, t)
    ensures StepFacts(g, s, cur, pushed, t)
  {
    CountPut(s.r, g.Index(cur), At(g, s.r, cur).(revealed := true), Revealed);
    forall p | g.InBounds(p) && p != cur
      ensures At(g, r1, p) == At(g, s.r, p)
    {
    }
  }

  lemma StepShape(g: Grid, b: Board, origin: Pos, s: Fill, cur: Pos, pushed: seq<Pos>, t: Fill)
    requires Fits(g, b) && StepFacts(g, s, cur, pushed, t)
    requires ShapeInv(g, b, origin, s)
    ensures ShapeInv(g, b, origin, t)
    ensures origin in t.done
  {
    forall i | 0 <= i < |t.stack|
      ensures g.InBounds(t.stack[i]) && (t.stack[i] == origin || At(g, t.r, t.stack[i]).revealed)
    {
      if i < |s.stack| - 1 {
        assert t.stack[i] == s.stack[i];
      } else {
        assert t.stack[i] in pushed;
      }
    }
  }

  lemma StepBound(g: Grid, b: Board, origin: Pos, s: Fill, cur: Pos, pushed: seq<Pos>, t: Fill)
    requires Fits(g, b) && g.InBounds(origin) && StepFacts(g, s, cur, pushed, t)
    requires ShapeInv(g, b, origin, s) && BoundInv(g, b, origin, s)
    requires origin in t.done
    ensures BoundInv(g, b, origin, t)
  {
    CountWitness(t.r, g.Index(origin), Revealed);
    CountWitness(b, g.Index(origin), Revealed);
  }

  lemma StepPushes(g: Grid, b: Board, origin: Pos, s: Fill, cur: Pos, pushed: seq<Pos>, t: Fill)
    requires Fits(g, b) && StepFacts(g, s, cur, pushed, t)
    requires ShapeInv(g, b, origin, s) && PushInv(g, b, origin, s)
    requires origin in s.done ==> g.InBounds(origin) && At(g, s.r, origin).revealed
    ensures PushInv(g, b, origin, t)
  {
    // earlier pushes are revealed in `s.r`, the new ones hidden there
    forall i, j | 0 <= i < |s.pushes| && 0 <= j < |pushed|
      ensures s.pushes[i] != pushed[j]
    {
      assert pushed[j] in pushed;
    }
    DistinctConcat(s.pushes, pushed);
    forall i | |s.pushes| <= i < |t.pushes|
      ensures t.pushes[i] != origin && g.InBounds(t.pushes[i])
      ensures Hidden(At(g, b, t.pushes[i])) && At(g, b, t.pushes[i]).value == 0
      ensures At(g, t.r, t.pushes[i]).revealed
    {
      assert t.pushes[i] in pushed;
    }
  }

  lemma StepClosure(g: Grid, b: Board, origin: Pos, s: Fill, cur: Pos, pushed: seq<Pos>, t: Fill)
    requires Fits(g, b) && StepFacts(g, s, cur, pushed, t)
    requires Grows(g, b, s.r) && ClosureInv(g, b, s)
    ensures ClosureInv(g, b, t)
  {
    forall c | c in t.done
      ensures g.InBounds(c) && Cleared(g, t.r, c)
    {
      if c != cur {
        assert Cleared(g, s.r, c);
      }
    }
    forall n | g.InBounds(n) && Hidden(At(g, b, n)) && At(g, b, n).value == 0 && At(g, t.r, n).revealed
      ensures n in t.done || n in t.stack
    {
      if At(g, s.r, n).revealed {
        assert n in s.done || n in s.stack;
      } else if n != cur {
        assert n in pushed;
      }
    }
  }

  /** Popped and pending cells keep a chain of hidden zeros from the origin
      when the popped cell's pushed neighbours extend its chain. */
  lemma StepPaths(g: Grid, b: Board, origin: Pos, s: Fill, cur: Pos, pushed: seq<Pos>, t: Fill)
    requires Fits(g, b) && PathsInv(g, b, origin, s)
    requires |s.stack| > 0 && cur == s.stack[|s.stack| - 1]
    requires forall n :: n in pushed ==>
               g.InBounds(n) && Adjacent(cur, n) && Hidden(At(g, b, n)) && At(g, b, n).value == 0
    requires t.stack == s.stack[..|s.stack| - 1] + pushed
    requires t.done == s.done + {cur}
    requires t.paths == s.paths + map n | n in pushed :: s.paths[cur] + [n]
    ensures PathsInv(g, b, origin, t)
  {
    assert s.stack == s.stack[..|s.stack| - 1] + [cur];
    forall c | c in t.done || c in t.stack
      ensures c in t.paths && ZeroPath(g, b, origin, t.paths[c]) && t.paths[c][|t.paths[c]| - 1] == c
    {
      if c in pushed {
        assert t.paths[c] == s.paths[cur] + [c];
        ZeroPathSnoc(g, b, origin, s.paths[cur], c);
      } else {
        assert c in s.done || c in s.stack;
      }
    }
  }

  /** A cell newly revealed by this iteration is an unflagged neighbour of
      the popped cell. */
  lemma StepWitness(g: Grid, b: Board, origin: Pos, s: Fill, cur: Pos, pushed: seq<Pos>, t: Fill)
    requires Fits(g, b) && StepFacts(g, s, cur, pushed, t)
    requires ShapeInv(g, b, origin, s)
    requires WitnessInv(g, b, origin, s)
    ensures WitnessInv(g, b, origin, t)
  {
    forall p | g.InBounds(p) && At(g, t.r, p).revealed && !At(g, b, p).revealed && p != origin
      ensures !At(g, b, p).flagged && exists c :: c in t.done && Adjacent(c, p)
    {
      if At(g, s.r, p).revealed {
        var c :| c in s.done && Adjacent(c, p);
        assert c in t.done;
      } else {
        assert p != cur;
        assert Adjacent(cur, p) && cur in t.done;
      }
    }
  }

  /** One iteration keeps the invariant. */
  lemma StepKeepsInv(g: Grid, b: Board, origin: Pos, s: Fill, cur: Pos, r1: Board, pushed: seq<Pos>, t: Fill)
    requires Fits(g, b) && g.InBounds(origin)
    requires FillInv(g, b, origin, s)
    requires Step(g, s, cur, r1, pushed, t)
    ensures FillInv(g, b, origin, t)
    ensures Count(t.r, Revealed) >= Count(s.r, Revealed) + |pushed|
  {
    StepFactsHold(g, s, cur, r1, pushed, t);
    StepShape(g, b, origin, s, cur, pushed, t);
    StepBound(g, b, origin, s, cur, pushed, t);
    StepPushes(g, b, origin, s, cur, pushed, t);
    StepClosure(g, b, origin, s, cur, pushed, t);
    StepPaths(g, b, origin, s, cur, pushed, t);
    StepWitness(g, b, origin, s, cur, pushed, t);
  }

  /** The initial state: only the origin on the stack, nothing popped. */
  lemma FillStart(g: Grid, b: Board, origin: Pos)
    requires Fits(g, b) && g.InBounds(origin)
    ensures FillInv(g, b, origin, Fill(b, [origin], [], {}, map[origin := [origin]]))
  {
  }

  /** The stack loop of the flood fill, run until the stack is empty; the
      ghost outputs are the popped cells and their chains from the origin. */
  method FloodLoop(g: Grid, b: Board, origin: Pos)
    returns (r: Board, pushes: seq<Pos>, peak: nat, ghost done: set<Pos>, ghost paths: map<Pos, seq<Pos>>)
    requires Fits(g, b) && g.InBounds(origin)
    ensures FillInv(g, b, origin, Fill(r, [], pushes, done, paths))
    ensures forall c :: c in done ==> c == origin || c in pushes
    ensures 1 <= peak <= g.Size() && peak <= |pushes| + 1
  {
    r := b;
    pushes := [];
    var stack := [origin];
    peak := 1;
    done := {};
    paths := map[origin := [origin]];
    FillStart(g, b, origin);
    while |stack| > 0
      invariant Fits(g, r)
      invariant FillInv(g, b, origin, Fill(r, stack, pushes, done, paths))
      invariant forall c :: c in done || c in stack ==> c == origin || c in pushes
      invariant 1 <= peak <= g.Size() && peak <= |pushes| + 1
      decreases |r| - Count(r, Revealed), |stack|
    {
      ghost var s := Fill(r, stack, pushes, done, paths);
      var cur := stack[|stack| - 1];
      var r1 := Put(g, r, cur, At(g, r, cur).(revealed := true));
      var r2, pushed := VisitNeighbours(g, r1, cur);
      stack := stack[..|stack| - 1] + pushed;
      pushes := pushes + pushed;
      done := done + {cur};
      paths := paths + map n | n in pushed :: paths[cur] + [n];
      r := r2;
      StepKeepsInv(g, b, origin, s, cur, r1, pushed, Fill(r, stack, pushes, done, paths));
      if |stack| > peak {
        peak := |stack|;
      }
    }
  }

  /** Flood fill from `origin`. Returns the new board, the positions in the
      order they were written to the stack after the initial `origin`, and
      the greatest number of entries the stack ever held. */
  method ExpandZeros(g: Grid, b: Board, origin: Pos) returns (r: Board, pushes: seq<Pos>, peak: nat)
    requires Fits(g, b) && g.InBounds(origin)
    ensures Fits(g, r)
    ensures Grows(g, b, r)
    ensures At(g, r, origin).revealed
    // flags block the fill: no flagged cell other than the origin is revealed
    ensures forall p :: g.InBounds(p) && p != origin && At(g, b, p).flagged ==> At(g, r, p) == At(g, b, p)
    ensures Exclusive(g, b) && !At(g, b, origin).flagged ==> Exclusive(g, r)
    // closure: the origin and every hidden zero reachable from it are cleared
    ensures forall path :: ZeroPath(g, b, origin, path) ==> Cleared(g, r, path[|path| - 1])
    // and nothing else is revealed: a newly revealed cell is the origin or an
    // unflagged neighbour of the end of such a chain
    ensures forall p :: g.InBounds(p) && At(g, r, p).revealed && !At(g, b, p).revealed && p != origin ==>
              && !At(g, b, p).flagged
              && exists path :: ZeroPath(g, b, origin, path) && Adjacent(path[|path| - 1], p)
    // the stack array of rows*cols entries is never overrun: the stack never
    // holds more than the origin and the pushes
    ensures 1 <= peak <= g.Size() && peak <= |pushes| + 1
    // the pushed cells are exactly the hidden zeros of `b`, other than the
    // origin, that the fill revealed; each is pushed once
    ensures forall n :: n in pushes <==>
              g.InBounds(n) && n != origin && Hidden(At(g, b, n)) && At(g, b, n).value == 0 && At(g, r, n).revealed
    ensures Distinct(pushes)
    ensures |pushes| < g.Size()
  {
    ghost var done, paths;
    r, pushes, peak, done, paths := FloodLoop(g, b, origin);
    FillDone(g, b, origin, Fill(r, [], pushes, done, paths));
  }

  /** What the invariant gives once the stack is empty. */
  lemma FillDone(g: Grid, b: Board, origin: Pos, s: Fill)
    requires Fits(g, b) && g.InBounds(origin)
    requires FillInv(g, b, origin, s) && s.stack == []
    requires forall c :: c in s.done ==> c == origin || c in s.pushes
    ensures At(g, s.r, origin).revealed
    ensures forall p :: g.InBounds(p) && p != origin && At(g, b, p).flagged ==> At(g, s.r, p) == At(g, b, p)
    ensures Exclusive(g, b) && !At(g, b, origin).flagged ==> Exclusive(g, s.r)
    ensures forall path :: ZeroPath(g, b, origin, path) ==> Cleared(g, s.r, path[|path| - 1])
    ensures forall p :: g.InBounds(p) && At(g, s.r, p).revealed && !At(g, b, p).revealed && p != origin ==>
              && !At(g, b, p).flagged
              && exists path :: ZeroPath(g, b, origin, path) && Adjacent(path[|path| - 1], p)
    ensures |s.pushes| < g.Size()
    ensures forall n :: n in s.pushes <==>
              g.InBounds(n) && n != origin && Hidden(At(g, b, n)) && At(g, b, n).value == 0 && At(g, s.r, n).revealed
  {
    CountWitness(b, g.Index(origin), Revealed);
    CountWitness(s.r, g.Index(origin), Revealed);
    forall path | ZeroPath(g, b, origin, path)
      ensures Cleared(g, s.r, path[|path| - 1])
    {
      ZeroPathStaysIn(g, b, origin, s.done, path);
    }
    forall p | g.InBounds(p) && At(g, s.r, p).revealed && !At(g, b, p).revealed && p != origin
      ensures exists path :: ZeroPath(g, b, origin, path) && Adjacent(path[|path| - 1], p)
    {
      var c :| c in s.done && Adjacent(c, p);
      assert ZeroPath(g, b, origin, s.paths[c]);
    }
  }
}
