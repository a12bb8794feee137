/** The flood fill of `SquareBoard.select` on values: the region it reaches from a
    cell, the tree of first visits that shows the region is the least closed one,
    the loop invariant of its queue, and its termination measure. */
module Flood {
  import opened Matrices
  import opened Board

  /** Every position of a `rows` by `cols` grid. */
  function Cells(rows: nat, cols: nat): (r: set<Pos>)
    ensures forall p :: p in r <==> InBounds(p, rows, cols)
  {
    var r := set i, j | 0 <= i < rows && 0 <= j < cols :: (i, j);
    assert forall p :: InBounds(p, rows, cols) ==> (p.0, p.1) in r;
    r
  }

  /** The open mask `open0` after selecting every cell of `s`: each unflagged one opens. */
  function Opened(open0: seq<seq<bool>>, flags: seq<seq<bool>>, s: set<Pos>, rows: nat, cols: nat): (m: seq<seq<bool>>)
    requires IsMatrix(open0, rows, cols) && IsMatrix(flags, rows, cols)
    ensures IsMatrix(m, rows, cols)
    ensures forall i, j :: 0 <= i < rows && 0 <= j < cols ==> m[i][j] == (open0[i][j] || ((i, j) in s && !flags[i][j]))
  {
    seq(rows, i requires 0 <= i < rows => seq(cols, j requires 0 <= j < cols => open0[i][j] || ((i, j) in s && !flags[i][j])))
  }

  /** Selecting no cell changes nothing. */
  lemma OpenedNone(open0: seq<seq<bool>>, flags: seq<seq<bool>>, rows: nat, cols: nat)
    requires IsMatrix(open0, rows, cols) && IsMatrix(flags, rows, cols)
    ensures Opened(open0, flags, {}, rows, cols) == open0
  {
    MatrixExt(Opened(open0, flags, {}, rows, cols), open0, rows, cols);
  }

  /** Selecting one more cell `p` (`open[p] = not flags[p]`) when no cell is both open
      and flagged adds it to the selected set `s`, giving `t`. */
  lemma OpenedSelect(open0: seq<seq<bool>>, flags: seq<seq<bool>>, s: set<Pos>, t: set<Pos>, p: Pos, rows: nat, cols: nat)
    requires IsMatrix(open0, rows, cols) && IsMatrix(flags, rows, cols) && InBounds(p, rows, cols)
    requires forall i, j :: 0 <= i < rows && 0 <= j < cols ==> !(open0[i][j] && flags[i][j])
    requires forall q :: q in t <==> q in s || q == p
    ensures SetEntry(Opened(open0, flags, s, rows, cols), rows, cols, p, !flags[p.0][p.1]) == Opened(open0, flags, t, rows, cols)
  {
    MatrixExt(SetEntry(Opened(open0, flags, s, rows, cols), rows, cols, p, !flags[p.0][p.1]), Opened(open0, flags, t, rows, cols), rows, cols);
  }

  /** No cell newly opened between `open0` and `open1`, other than `pos`, holds a mine. */
  predicate OpensNoMineBut(open0: seq<seq<bool>>, open1: seq<seq<bool>>, mines: seq<seq<bool>>, rows: nat, cols: nat, pos: Pos)
    requires IsMatrix(open0, rows, cols) && IsMatrix(open1, rows, cols) && IsMatrix(mines, rows, cols)
  {
    forall i, j :: 0 <= i < rows && 0 <= j < cols && open1[i][j] && !open0[i][j] && (i, j) != pos ==> !mines[i][j]
  }

  /** A flagged cell whose proximity is 0: the flood fill expands it every time it meets it. */
  ghost predicate FlaggedZero(flags: seq<seq<bool>>, prox: seq<seq<int>>, rows: nat, cols: nat, p: Pos)
    requires IsMatrix(flags, rows, cols) && IsMatrix(prox, rows, cols)
  {
    InBounds(p, rows, cols) && flags[p.0][p.1] && prox[p.0][p.1] == 0
  }

  /** No two touching cells are both flagged with proximity 0. Without this the flood
      fill of `SquareBoard.select` can run forever: each of two such cells puts the
      other back on the queue, and neither is ever opened. */
  ghost predicate NoFlaggedZeroPair(flags: seq<seq<bool>>, prox: seq<seq<int>>, rows: nat, cols: nat)
    requires IsMatrix(flags, rows, cols) && IsMatrix(prox, rows, cols)
  {
    forall p, q :: q in Adjacents(p, (rows, cols)) && FlaggedZero(flags, prox, rows, cols, p)
      ==> !FlaggedZero(flags, prox, rows, cols, q)
  }

  /** The flood fill started with `open0` as the open mask expands `e` (enqueues its
      neighbours) when propagation is on, `e` has proximity 0 and `e` was closed. */
  ghost predicate Expands(open0: seq<seq<bool>>, prox: seq<seq<int>>, rows: nat, cols: nat, propagate: bool, e: Pos)
    requires IsMatrix(open0, rows, cols) && IsMatrix(prox, rows, cols)
  {
    propagate && InBounds(e, rows, cols) && prox[e.0][e.1] == 0 && !open0[e.0][e.1]
  }

  /** `s` holds `pos` and every neighbour of each of its expanding cells. */
  ghost predicate ClosedRegion(s: set<Pos>, pos: Pos, open0: seq<seq<bool>>, prox: seq<seq<int>>, rows: nat, cols: nat, propagate: bool)
    requires IsMatrix(open0, rows, cols) && IsMatrix(prox, rows, cols)
  {
    pos in s
    && (forall q :: q in s ==> InBounds(q, rows, cols))
    && forall e, a :: e in s && Expands(open0, prox, rows, cols, propagate, e) && a in Adjacents(e, (rows, cols)) ==> a in s
  }

  /** `s` is the region the flood fill from `pos` reaches: the least closed region. */
  ghost predicate FloodRegion(s: set<Pos>, pos: Pos, open0: seq<seq<bool>>, prox: seq<seq<int>>, rows: nat, cols: nat, propagate: bool)
    requires IsMatrix(open0, rows, cols) && IsMatrix(prox, rows, cols)
  {
    ClosedRegion(s, pos, open0, prox, rows, cols, propagate)
    && forall t :: ClosedRegion(t, pos, open0, prox, rows, cols, propagate) ==> s <= t
  }

  /** A tree of first visits: every cell of `s` but `pos` was enqueued by an expanding
      parent, of smaller rank. */
  ghost predicate ParentTree(s: set<Pos>, pos: Pos, parent: map<Pos, Pos>, rank: map<Pos, nat>,
                             open0: seq<seq<bool>>, prox: seq<seq<int>>, rows: nat, cols: nat, propagate: bool)
    requires IsMatrix(open0, rows, cols) && IsMatrix(prox, rows, cols)
  {
    pos in rank
    && forall q :: q in s && q != pos ==>
         q in parent && q in rank && parent[q] in s && parent[q] in rank && rank[parent[q]] < rank[q]
         && Expands(open0, prox, rows, cols, propagate, parent[q]) && q in Adjacents(parent[q], (rows, cols))
  }

  /** A cell that does not expand is a closed region on its own, the root of its tree. */
  lemma SingleRegion(pos: Pos, open0: seq<seq<bool>>, prox: seq<seq<int>>, rows: nat, cols: nat, propagate: bool)
    requires IsMatrix(open0, rows, cols) && IsMatrix(prox, rows, cols) && InBounds(pos, rows, cols)
    requires !(propagate && prox[pos.0][pos.1] == 0)
    ensures ClosedRegion({pos}, pos, open0, prox, rows, cols, propagate)
    ensures ParentTree({pos}, pos, map[], map[pos := 0], open0, prox, rows, cols, propagate)
  {
  }

  lemma ParentTreeInClosed(q: Pos, s: set<Pos>, t: set<Pos>, pos: Pos, parent: map<Pos, Pos>, rank: map<Pos, nat>,
                           open0: seq<seq<bool>>, prox: seq<seq<int>>, rows: nat, cols: nat, propagate: bool)
    requires IsMatrix(open0, rows, cols) && IsMatrix(prox, rows, cols)
    requires ParentTree(s, pos, parent, rank, open0, prox, rows, cols, propagate)
    requires ClosedRegion(t, pos, open0, prox, rows, cols, propagate)
    requires q in s
    ensures q in t
    decreases if q in rank then rank[q] else 0
  {
    if q != pos {
      ParentTreeInClosed(parent[q], s, t, pos, parent, rank, open0, prox, rows, cols, propagate);
    }
  }

  /** A parent tree rooted at `pos` lies inside every closed region, so a closed region
      with a parent tree is the flood region. */
  lemma ParentTreeIsLeast(s: set<Pos>, pos: Pos, parent: map<Pos, Pos>, rank: map<Pos, nat>,
                          open0: seq<seq<bool>>, prox: seq<seq<int>>, rows: nat, cols: nat, propagate: bool)
    requires IsMatrix(open0, rows, cols) && IsMatrix(prox, rows, cols)
    requires ParentTree(s, pos, parent, rank, open0, prox, rows, cols, propagate)
    ensures forall t :: ClosedRegion(t, pos, open0, prox, rows, cols, propagate) ==> s <= t
  {
    forall t | ClosedRegion(t, pos, open0, prox, rows, cols, propagate)
      ensures s <= t
    {
      forall q | q in s
        ensures q in t
      {
        ParentTreeInClosed(q, s, t, pos, parent, rank, open0, prox, rows, cols, propagate);
      }
    }
  }

  /** Queue weight for the termination argument: a flagged zero cell weighs 9 (it puts
      up to 8 neighbours back on the queue), any other cell 1. */
  ghost function Weight(queue: seq<Pos>, flags: seq<seq<bool>>, prox: seq<seq<int>>, rows: nat, cols: nat): nat
    requires IsMatrix(flags, rows, cols) && IsMatrix(prox, rows, cols)
  {
    if |queue| == 0 then 0
    else (if FlaggedZero(flags, prox, rows, cols, queue[0]) then 9 else 1) + Weight(queue[1..], flags, prox, rows, cols)
  }

  lemma {:induction false} WeightConcat(a: seq<Pos>, b: seq<Pos>, flags: seq<seq<bool>>, prox: seq<seq<int>>, rows: nat, cols: nat)
    requires IsMatrix(flags, rows, cols) && IsMatrix(prox, rows, cols)
    ensures Weight(a + b, flags, prox, rows, cols) == Weight(a, flags, prox, rows, cols) + Weight(b, flags, prox, rows, cols)
  {
    if |a| > 0 {
      assert (a + b)[1..] == a[1..] + b;
      WeightConcat(a[1..], b, flags, prox, rows, cols);
    } else {
      assert a + b == b;
    }
  }

  lemma {:induction false} WeightOfPlain(a: seq<Pos>, flags: seq<seq<bool>>, prox: seq<seq<int>>, rows: nat, cols: nat)
    requires IsMatrix(flags, rows, cols) && IsMatrix(prox, rows, cols)
    requires forall q :: q in a ==> !FlaggedZero(flags, prox, rows, cols, q)
    ensures Weight(a, flags, prox, rows, cols) == |a|
  {
    if |a| > 0 {
      assert a[0] in a;
      assert forall q :: q in a[1..] ==> q in a;
      WeightOfPlain(a[1..], flags, prox, rows, cols);
    }
  }

  /** The closed, unflagged cells of proximity 0: the termination measure of the flood fill. */
  ghost function ClosedZero(open: seq<seq<bool>>, flags: seq<seq<bool>>, prox: seq<seq<int>>, rows: nat, cols: nat): set<Pos>
    requires IsMatrix(open, rows, cols) && IsMatrix(flags, rows, cols) && IsMatrix(prox, rows, cols)
  {
    set p | p in Cells(rows, cols) && InBounds(p, rows, cols) && !open[p.0][p.1] && !flags[p.0][p.1] && prox[p.0][p.1] == 0
  }

  /** Selecting one cell `c` (it may open, nothing else changes) never grows the measure,
      and opening a closed, unflagged zero cell shrinks it. */
  lemma ClosedZeroStep(open1: seq<seq<bool>>, open2: seq<seq<bool>>, flags: seq<seq<bool>>, prox: seq<seq<int>>, rows: nat, cols: nat, c: Pos)
    requires IsMatrix(open1, rows, cols) && IsMatrix(open2, rows, cols) && IsMatrix(flags, rows, cols) && IsMatrix(prox, rows, cols)
    requires InBounds(c, rows, cols)
    requires forall i, j :: 0 <= i < rows && 0 <= j < cols && (i, j) != c ==> open2[i][j] == open1[i][j]
    requires open1[c.0][c.1] ==> open2[c.0][c.1]
    ensures ClosedZero(open2, flags, prox, rows, cols) <= ClosedZero(open1, flags, prox, rows, cols)
    ensures !open1[c.0][c.1] && open2[c.0][c.1] && !flags[c.0][c.1] && prox[c.0][c.1] == 0
            ==> ClosedZero(open2, flags, prox, rows, cols) < ClosedZero(open1, flags, prox, rows, cols)
    ensures open2[c.0][c.1] == open1[c.0][c.1] || flags[c.0][c.1] || prox[c.0][c.1] != 0
            ==> ClosedZero(open2, flags, prox, rows, cols) == ClosedZero(open1, flags, prox, rows, cols)
  {
    var z1, z2 := ClosedZero(open1, flags, prox, rows, cols), ClosedZero(open2, flags, prox, rows, cols);
    if !open1[c.0][c.1] && open2[c.0][c.1] && !flags[c.0][c.1] && prox[c.0][c.1] == 0 {
      assert c in z1 && c !in z2;
    }
  }

  /** Expanding a flagged zero cell at the head of the queue: its neighbours are not
      flagged zero cells, so the queue loses 9 and gains at most 8. */
  lemma FlaggedZeroWeight(queue: seq<Pos>, next: Pos, flags: seq<seq<bool>>, prox: seq<seq<int>>, rows: nat, cols: nat)
    requires IsMatrix(flags, rows, cols) && IsMatrix(prox, rows, cols)
    requires NoFlaggedZeroPair(flags, prox, rows, cols)
    requires |queue| > 0 && queue[0] == next && FlaggedZero(flags, prox, rows, cols, next)
    ensures Weight(queue[1..] + Adjacents(next, (rows, cols)), flags, prox, rows, cols) < Weight(queue, flags, prox, rows, cols)
  {
    var adj := Adjacents(next, (rows, cols));
    assert forall a :: a in adj ==> !FlaggedZero(flags, prox, rows, cols, a);
    WeightOfPlain(adj, flags, prox, rows, cols);
    WeightConcat(queue[1..], adj, flags, prox, rows, cols);
  }

  /** Expanding `next` extends the tree of first visits to its neighbours not seen before. */
  lemma ParentTreeExtend(s: set<Pos>, pos: Pos, parent: map<Pos, Pos>, rank: map<Pos, nat>,
                         open0: seq<seq<bool>>, prox: seq<seq<int>>, rows: nat, cols: nat, next: Pos)
      returns (parent': map<Pos, Pos>, rank': map<Pos, nat>)
    requires IsMatrix(open0, rows, cols) && IsMatrix(prox, rows, cols)
    requires ParentTree(s, pos, parent, rank, open0, prox, rows, cols, true)
    requires pos in s && next in s && Expands(open0, prox, rows, cols, true, next)
    ensures ParentTree(s + (set a | a in Adjacents(next, (rows, cols))), pos, parent', rank', open0, prox, rows, cols, true)
  {
    var adj := Adjacents(next, (rows, cols));
    var added := set a | a in adj && a !in s;
    assert next in rank;
    parent' := map q | q in parent.Keys + added :: if q in added then next else parent[q];
    rank' := map q | q in rank.Keys + added :: if q in added then rank[next] + 1 else rank[q];
    var s' := s + (set a | a in adj);
    forall q | q in s' && q != pos
      ensures q in parent' && q in rank' && parent'[q] in s' && parent'[q] in rank' && rank'[parent'[q]] < rank'[q]
      ensures Expands(open0, prox, rows, cols, true, parent'[q]) && q in Adjacents(parent'[q], (rows, cols))
    {
      if q in added {
        assert parent'[q] == next && rank'[q] == rank[next] + 1;
      } else {
        assert q in s;
        assert parent'[q] == parent[q] && rank'[q] == rank[q];
        assert parent[q] !in added;
      }
    }
  }

  /** Every cell of a parent tree over the proximity of `mines`, but its root, touches
      a cell of proximity 0, so it is not a mine. */
  lemma ParentTreeSafe(s: set<Pos>, pos: Pos, parent: map<Pos, Pos>, rank: map<Pos, nat>,
                       open0: seq<seq<bool>>, prox: seq<seq<int>>, mines: seq<seq<bool>>, rows: nat, cols: nat, propagate: bool)
    requires IsMatrix(open0, rows, cols) && IsMatrix(mines, rows, cols) && prox == Neighbors(mines, rows, cols)
    requires ParentTree(s, pos, parent, rank, open0, prox, rows, cols, propagate)
    ensures forall q :: q in s && q != pos && InBounds(q, rows, cols) ==> !mines[q.0][q.1]
  {
    forall q | q in s && q != pos && InBounds(q, rows, cols)
      ensures !mines[q.0][q.1]
    {
      ZeroProximityIsSafe(mines, rows, cols, parent[q], q);
    }
  }

  /** `candidates.append` for each item in turn. */
  method AppendAll(queue: seq<Pos>, items: seq<Pos>) returns (r: seq<Pos>)
    ensures r == queue + items
  {
    r := queue;
    var k := 0;
    while k < |items|
      invariant 0 <= k <= |items|
      invariant r == queue + items[..k]
    {
      r := r + [items[k]];
      k := k + 1;
    }
    assert items[..k] == items;
  }

  /** The bookkeeping of the flood fill: the queue holds enqueued cells only, and every
      enqueued cell has been visited or is still queued. */
  ghost predicate QueueInv(queue: seq<Pos>, enqueued: set<Pos>, visited: set<Pos>)
  {
    (forall q :: q in queue ==> q in enqueued)
    && (forall q :: q in enqueued ==> q in visited || q in queue)
    && visited <= enqueued
  }

  /** Visiting the head of the queue and enqueueing `added` keeps the bookkeeping. */
  lemma QueueStep(queue: seq<Pos>, enqueued: set<Pos>, visited: set<Pos>, added: seq<Pos>)
    requires QueueInv(queue, enqueued, visited) && |queue| > 0
    ensures QueueInv(queue[1..] + added, enqueued + (set a | a in added), visited + {queue[0]})
  {
    assert queue == [queue[0]] + queue[1..];
    assert forall q :: q in queue ==> q == queue[0] || q in queue[1..];
  }

  /** Every neighbour of a visited expanding cell has been enqueued. */
  ghost predicate ClosureInv(visited: set<Pos>, enqueued: set<Pos>, open0: seq<seq<bool>>, prox: seq<seq<int>>, rows: nat, cols: nat)
    requires IsMatrix(open0, rows, cols) && IsMatrix(prox, rows, cols)
  {
    forall e, a :: e in visited && Expands(open0, prox, rows, cols, true, e) && a in Adjacents(e, (rows, cols)) ==> a in enqueued
  }

  /** Visiting `next` keeps the closure bookkeeping when an expanding cell met for the
      first time has its neighbours enqueued. */
  lemma ClosureStep(visited: set<Pos>, enqueued: set<Pos>, next: Pos, added: seq<Pos>,
                    open0: seq<seq<bool>>, prox: seq<seq<int>>, rows: nat, cols: nat)
    requires IsMatrix(open0, rows, cols) && IsMatrix(prox, rows, cols)
    requires ClosureInv(visited, enqueued, open0, prox, rows, cols)
    requires Expands(open0, prox, rows, cols, true, next) && next !in visited ==> added == Adjacents(next, (rows, cols))
    ensures ClosureInv(visited + {next}, enqueued + (set a | a in added), open0, prox, rows, cols)
  {
  }

  /** The invariant of the flood fill's queue loop, on the current open mask `open`:
      the bookkeeping of the queue, every enqueued cell in the grid, every neighbour of
      a visited expanding cell enqueued, the tree of first visits, and the open mask
      equal to the starting one plus every visited unflagged cell. */
  ghost predicate FloodState(open: seq<seq<bool>>, queue: seq<Pos>, enqueued: set<Pos>, visited: set<Pos>,
                             parent: map<Pos, Pos>, rank: map<Pos, nat>, pos: Pos,
                             open0: seq<seq<bool>>, flags0: seq<seq<bool>>, prox: seq<seq<int>>, rows: nat, cols: nat)
  {
    IsMatrix(open, rows, cols) && IsMatrix(open0, rows, cols) && IsMatrix(flags0, rows, cols) && IsMatrix(prox, rows, cols)
    && NoFlaggedZeroPair(flags0, prox, rows, cols)
    && (forall i, j :: 0 <= i < rows && 0 <= j < cols ==> !(open0[i][j] && flags0[i][j]))
    && QueueInv(queue, enqueued, visited)
    && (forall q :: q in enqueued ==> InBounds(q, rows, cols))
    && ClosureInv(visited, enqueued, open0, prox, rows, cols)
    && pos in enqueued
    && ParentTree(enqueued, pos, parent, rank, open0, prox, rows, cols, true)
    && forall i, j :: 0 <= i < rows && 0 <= j < cols ==> open[i][j] == (open0[i][j] || ((i, j) in visited && !flags0[i][j]))
  }

  /** The head of a nonempty queue is a cell of the grid. */
  lemma FloodStateHead(open: seq<seq<bool>>, queue: seq<Pos>, enqueued: set<Pos>, visited: set<Pos>,
                       parent: map<Pos, Pos>, rank: map<Pos, nat>, pos: Pos,
                       open0: seq<seq<bool>>, flags0: seq<seq<bool>>, prox: seq<seq<int>>, rows: nat, cols: nat)
    requires FloodState(open, queue, enqueued, visited, parent, rank, pos, open0, flags0, prox, rows, cols)
    requires |queue| > 0
    ensures InBounds(queue[0], rows, cols)
  {
    assert queue[0] in enqueued;
  }

  /** One turn of the queue loop: the head `next` is visited (expanded when `expand`,
      then selected, giving the open mask `open'`). The loop invariant is kept, with the
      neighbours of an expanded cell enqueued, and the measure decreases. */
  lemma FloodStep(open: seq<seq<bool>>, open': seq<seq<bool>>, queue: seq<Pos>, enqueued: set<Pos>, visited: set<Pos>,
                  parent: map<Pos, Pos>, rank: map<Pos, nat>, pos: Pos,
                  open0: seq<seq<bool>>, flags0: seq<seq<bool>>, prox: seq<seq<int>>, rows: nat, cols: nat, expand: bool)
      returns (enqueued': set<Pos>, visited': set<Pos>, parent': map<Pos, Pos>, rank': map<Pos, nat>)
    requires FloodState(open, queue, enqueued, visited, parent, rank, pos, open0, flags0, prox, rows, cols)
    requires |queue| > 0 && InBounds(queue[0], rows, cols)
    requires expand == (prox[queue[0].0][queue[0].1] == 0 && !open[queue[0].0][queue[0].1])
    requires IsMatrix(open', rows, cols)
    requires forall i, j :: 0 <= i < rows && 0 <= j < cols ==>
               open'[i][j] == if (i, j) == queue[0] then !flags0[i][j] else open[i][j]
    ensures var queue' := queue[1..] + (if expand then Adjacents(queue[0], (rows, cols)) else []);
            FloodState(open', queue', enqueued', visited', parent', rank', pos, open0, flags0, prox, rows, cols)
            && (ClosedZero(open', flags0, prox, rows, cols) < ClosedZero(open, flags0, prox, rows, cols)
                || (ClosedZero(open', flags0, prox, rows, cols) == ClosedZero(open, flags0, prox, rows, cols)
                    && Weight(queue', flags0, prox, rows, cols) < Weight(queue, flags0, prox, rows, cols)))
  {
    var next := queue[0];
    var added: seq<Pos> := if expand then Adjacents(next, (rows, cols)) else [];
    var queue' := queue[1..] + added;
    assert next in enqueued;
    if expand {
      assert Expands(open0, prox, rows, cols, true, next);
      parent', rank' := ParentTreeExtend(enqueued, pos, parent, rank, open0, prox, rows, cols, next);
      if flags0[next.0][next.1] {
        FlaggedZeroWeight(queue, next, flags0, prox, rows, cols);
      }
    } else {
      parent', rank' := parent, rank;
      assert queue' == queue[1..];
      assert enqueued + (set a | a in added) == enqueued;
    }
    enqueued' := enqueued + (set a | a in added);
    visited' := visited + {next};
    assert Expands(open0, prox, rows, cols, true, next) && next !in visited ==> expand;
    QueueStep(queue, enqueued, visited, added);
    ClosureStep(visited, enqueued, next, added, open0, prox, rows, cols);
    ClosedZeroStep(open, open', flags0, prox, rows, cols, next);
    forall i, j | 0 <= i < rows && 0 <= j < cols
      ensures open'[i][j] == (open0[i][j] || ((i, j) in visited' && !flags0[i][j]))
    {
      if (i, j) != next {
        assert (i, j) in visited' <==> (i, j) in visited;
      }
    }
    assert queue == [next] + queue[1..];
  }

  /** When the queue is empty every enqueued cell has been visited: the enqueued set is
      closed under expansion and the open mask gained exactly its unflagged cells. */
  lemma FloodStateDone(open: seq<seq<bool>>, queue: seq<Pos>, enqueued: set<Pos>, visited: set<Pos>,
                       parent: map<Pos, Pos>, rank: map<Pos, nat>, pos: Pos,
                       open0: seq<seq<bool>>, flags0: seq<seq<bool>>, prox: seq<seq<int>>, rows: nat, cols: nat)
    requires FloodState(open, queue, enqueued, visited, parent, rank, pos, open0, flags0, prox, rows, cols)
    requires |queue| == 0
    ensures ClosedRegion(enqueued, pos, open0, prox, rows, cols, true)
    ensures ParentTree(enqueued, pos, parent, rank, open0, prox, rows, cols, true)
    ensures open == Opened(open0, flags0, enqueued, rows, cols)
  {
    assert enqueued == visited;
    MatrixExt(open, Opened(open0, flags0, enqueued, rows, cols), rows, cols);
  }

  /** The cells every closed region of `pos` holds: the region `select` reaches. */
  ghost function Reach(pos: Pos, open0: seq<seq<bool>>, prox: seq<seq<int>>, rows: nat, cols: nat, propagate: bool): set<Pos>
    requires IsMatrix(open0, rows, cols) && IsMatrix(prox, rows, cols)
  {
    set p | p in Cells(rows, cols) && forall t :: ClosedRegion(t, pos, open0, prox, rows, cols, propagate) ==> p in t
  }

  /** The flood region of a cell is unique: it is its `Reach`. */
  lemma FloodRegionIsReach(s: set<Pos>, pos: Pos, open0: seq<seq<bool>>, prox: seq<seq<int>>, rows: nat, cols: nat, propagate: bool)
    requires IsMatrix(open0, rows, cols) && IsMatrix(prox, rows, cols)
    requires FloodRegion(s, pos, open0, prox, rows, cols, propagate)
    ensures s == Reach(pos, open0, prox, rows, cols, propagate)
  {
    var r := Reach(pos, open0, prox, rows, cols, propagate);
    forall p | p in s
      ensures p in r
    {
      assert InBounds(p, rows, cols);
    }
    forall p | p in r
      ensures p in s
    {
      assert ClosedRegion(s, pos, open0, prox, rows, cols, propagate);
    }
  }

  /** A cell that does not expand is its own flood region: `select` then touches only it. */
  lemma FloodRegionOfPlainCell(s: set<Pos>, pos: Pos, open0: seq<seq<bool>>, prox: seq<seq<int>>, rows: nat, cols: nat, propagate: bool)
    requires IsMatrix(open0, rows, cols) && IsMatrix(prox, rows, cols) && InBounds(pos, rows, cols)
    requires FloodRegion(s, pos, open0, prox, rows, cols, propagate)
    requires !Expands(open0, prox, rows, cols, propagate, pos)
    ensures s == {pos}
  {
    assert ClosedRegion({pos}, pos, open0, prox, rows, cols, propagate);
  }

  /** The open mask after `select(pos)` from the open mask `open0`: every unflagged cell
      of the flood region is opened, and nothing else changes. */
  ghost function SelectOpen(open0: seq<seq<bool>>, flags: seq<seq<bool>>, prox: seq<seq<int>>, rows: nat, cols: nat,
                            pos: Pos, propagate: bool): (m: seq<seq<bool>>)
    requires IsMatrix(open0, rows, cols) && IsMatrix(flags, rows, cols) && IsMatrix(prox, rows, cols)
    ensures IsMatrix(m, rows, cols)
    ensures forall i, j :: 0 <= i < rows && 0 <= j < cols && open0[i][j] ==> m[i][j]
    ensures forall i, j :: 0 <= i < rows && 0 <= j < cols && m[i][j] && !open0[i][j] ==> !flags[i][j]
  {
    Opened(open0, flags, Reach(pos, open0, prox, rows, cols, propagate), rows, cols)
  }

  /** `Reach` is itself a closed region: it is the least one. */
  lemma ReachIsClosed(pos: Pos, open0: seq<seq<bool>>, prox: seq<seq<int>>, rows: nat, cols: nat, propagate: bool)
    requires IsMatrix(open0, rows, cols) && IsMatrix(prox, rows, cols) && InBounds(pos, rows, cols)
    ensures ClosedRegion(Reach(pos, open0, prox, rows, cols, propagate), pos, open0, prox, rows, cols, propagate)
  {
    var r := Reach(pos, open0, prox, rows, cols, propagate);
    assert pos in Cells(rows, cols);
    forall e, a | e in r && Expands(open0, prox, rows, cols, propagate, e) && a in Adjacents(e, (rows, cols))
      ensures a in r
    {
      assert a in Cells(rows, cols);
    }
  }

  /** Every cell of `Reach` but `pos` touches an expanding cell of `Reach`: otherwise
      dropping it would leave a smaller closed region. */
  lemma ReachHasParent(q: Pos, pos: Pos, open0: seq<seq<bool>>, prox: seq<seq<int>>, rows: nat, cols: nat, propagate: bool)
      returns (e: Pos)
    requires IsMatrix(open0, rows, cols) && IsMatrix(prox, rows, cols) && InBounds(pos, rows, cols)
    requires q in Reach(pos, open0, prox, rows, cols, propagate) && q != pos
    ensures e in Reach(pos, open0, prox, rows, cols, propagate) && Expands(open0, prox, rows, cols, propagate, e)
    ensures q in Adjacents(e, (rows, cols))
  {
    var r := Reach(pos, open0, prox, rows, cols, propagate);
    ReachIsClosed(pos, open0, prox, rows, cols, propagate);
    if !exists e' :: e' in r && Expands(open0, prox, rows, cols, propagate, e') && q in Adjacents(e', (rows, cols)) {
      var t := r - {q};
      assert ClosedRegion(t, pos, open0, prox, rows, cols, propagate);
      assert false;
    }
    e :| e in r && Expands(open0, prox, rows, cols, propagate, e) && q in Adjacents(e, (rows, cols));
  }

  /** No cell `select(pos)` opens besides `pos` holds a mine: each touches a cell of
      proximity 0. */
  lemma SelectOpenSafe(pos: Pos, open0: seq<seq<bool>>, flags: seq<seq<bool>>, mines: seq<seq<bool>>,
                       rows: nat, cols: nat, propagate: bool)
    requires IsMatrix(open0, rows, cols) && IsMatrix(flags, rows, cols) && IsMatrix(mines, rows, cols)
    requires InBounds(pos, rows, cols)
    ensures var prox := Neighbors(mines, rows, cols);
            OpensNoMineBut(open0, SelectOpen(open0, flags, prox, rows, cols, pos, propagate), mines, rows, cols, pos)
  {
    var prox := Neighbors(mines, rows, cols);
    var m := SelectOpen(open0, flags, prox, rows, cols, pos, propagate);
    forall i, j | 0 <= i < rows && 0 <= j < cols && m[i][j] && !open0[i][j] && (i, j) != pos
      ensures !mines[i][j]
    {
      var e := ReachHasParent((i, j), pos, open0, prox, rows, cols, propagate);
      ZeroProximityIsSafe(mines, rows, cols, e, (i, j));
    }
  }

  /** What one `select` achieves, given the tree of first visits of the cells it
      selected: they form the flood region, the new open mask is `SelectOpen`, a cell
      that does not expand selects only itself, and no newly opened cell but `pos`
      holds a mine. */
  lemma SelectOutcome(s: set<Pos>, parent: map<Pos, Pos>, rank: map<Pos, nat>, pos: Pos,
                      open0: seq<seq<bool>>, flags: seq<seq<bool>>, mines: seq<seq<bool>>,
                      prox: seq<seq<int>>, rows: nat, cols: nat, propagate: bool)
    requires IsMatrix(open0, rows, cols) && IsMatrix(flags, rows, cols)
    requires IsMatrix(mines, rows, cols) && prox == Neighbors(mines, rows, cols) && InBounds(pos, rows, cols)
    requires ClosedRegion(s, pos, open0, prox, rows, cols, propagate)
    requires ParentTree(s, pos, parent, rank, open0, prox, rows, cols, propagate)
    ensures FloodRegion(s, pos, open0, prox, rows, cols, propagate)
    ensures Opened(open0, flags, s, rows, cols) == SelectOpen(open0, flags, prox, rows, cols, pos, propagate)
    ensures !Expands(open0, prox, rows, cols, propagate, pos) ==> s == {pos}
    ensures OpensNoMineBut(open0, Opened(open0, flags, s, rows, cols), mines, rows, cols, pos)
  {
    ParentTreeIsLeast(s, pos, parent, rank, open0, prox, rows, cols, propagate);
    ParentTreeSafe(s, pos, parent, rank, open0, prox, mines, rows, cols, propagate);
    FloodRegionIsReach(s, pos, open0, prox, rows, cols, propagate);
    if !Expands(open0, prox, rows, cols, propagate, pos) {
      FloodRegionOfPlainCell(s, pos, open0, prox, rows, cols, propagate);
    }
  }
}
