/**
 * The autopilot's path search: a breadth-first search over the 4-connected
 * board from the snake's head to the food, avoiding the snake's body.
 */
module Pathfinder {
  import opened Optional
  import opened Grid

  /** A queue entry of the search: a cell and the cells walked from the start to reach it. */
  datatype Entry = Entry(pos: Cell, path: seq<Cell>)

  /** Where a walk from `start` ends up. */
  function Last(start: Cell, w: seq<Cell>): Cell
  {
    if w == [] then start else w[|w| - 1]
  }

  /** The cell a walk from `start` stands on just before its step `i`. */
  function Before(start: Cell, w: seq<Cell>, i: nat): Cell
    requires i < |w|
  {
    if i == 0 then start else w[i - 1]
  }

  /**
   * `w` lists the cells after `start` of a walk by unit steps, each of them
   * on the board and not an obstacle (the start itself is exempt).
   */
  ghost predicate IsWalk(start: Cell, obstacles: seq<Cell>, w: seq<Cell>)
    decreases |w|
  {
    w == [] ||
    (IsWalk(start, obstacles, w[..|w| - 1])
     && Free(w[|w| - 1], obstacles)
     && Adjacent(Last(start, w[..|w| - 1]), w[|w| - 1]))
  }

  ghost predicate IsPathTo(start: Cell, target: Cell, obstacles: seq<Cell>, w: seq<Cell>)
  {
    IsWalk(start, obstacles, w) && Last(start, w) == target
  }

  /** No path from `start` to `target` has fewer than `n` steps. */
  ghost predicate NoShorter(start: Cell, target: Cell, obstacles: seq<Cell>, n: nat)
  {
    forall w :: IsPathTo(start, target, obstacles, w) ==> n <= |w|
  }

  ghost predicate IsShortestPath(start: Cell, target: Cell, obstacles: seq<Cell>, w: seq<Cell>)
  {
    IsPathTo(start, target, obstacles, w) && NoShorter(start, target, obstacles, |w|)
  }

  ghost predicate Reachable(start: Cell, target: Cell, obstacles: seq<Cell>)
  {
    exists w :: IsPathTo(start, target, obstacles, w)
  }

  /** One step of a walk: from `from` to the free cell `to` one unit away. */
  ghost predicate StepOk(from: Cell, to: Cell, obstacles: seq<Cell>)
  {
    Free(to, obstacles) && Adjacent(from, to)
  }

  /**
   * The walk condition stated step by step: every cell is free, the first is a
   * unit step from `start` and each next one a unit step from the one before.
   */
  ghost predicate StepwiseWalk(start: Cell, obstacles: seq<Cell>, w: seq<Cell>)
  {
    forall i :: 0 <= i < |w| ==> StepOk(Before(start, w, i), w[i], obstacles)
  }

  lemma StepwisePrefix(start: Cell, obstacles: seq<Cell>, w: seq<Cell>)
    requires w != [] && StepwiseWalk(start, obstacles, w)
    ensures StepwiseWalk(start, obstacles, w[..|w| - 1])
    ensures StepOk(Last(start, w[..|w| - 1]), w[|w| - 1], obstacles)
  {
    var prefix := w[..|w| - 1];
    assert Before(start, w, |w| - 1) == Last(start, prefix);
    forall i | 0 <= i < |prefix| ensures StepOk(Before(start, prefix, i), prefix[i], obstacles) {
      assert prefix[i] == w[i] && Before(start, prefix, i) == Before(start, w, i);
    }
  }

  lemma StepwiseExtend(start: Cell, obstacles: seq<Cell>, w: seq<Cell>)
    requires w != [] && StepwiseWalk(start, obstacles, w[..|w| - 1])
    requires StepOk(Last(start, w[..|w| - 1]), w[|w| - 1], obstacles)
    ensures StepwiseWalk(start, obstacles, w)
  {
    var prefix := w[..|w| - 1];
    forall i | 0 <= i < |w| ensures StepOk(Before(start, w, i), w[i], obstacles) {
      if i < |prefix| {
        assert prefix[i] == w[i] && Before(start, prefix, i) == Before(start, w, i);
      } else {
        assert Before(start, w, i) == Last(start, prefix);
      }
    }
  }

  /** The recursive walk predicate and the step-by-step one agree. */
  lemma {:induction false} WalkSteps(start: Cell, obstacles: seq<Cell>, w: seq<Cell>)
    ensures IsWalk(start, obstacles, w) <==> StepwiseWalk(start, obstacles, w)
    decreases |w|
  {
    if w != [] {
      WalkSteps(start, obstacles, w[..|w| - 1]);
      if StepwiseWalk(start, obstacles, w) {
        StepwisePrefix(start, obstacles, w);
      }
      if IsWalk(start, obstacles, w) {
        StepwiseExtend(start, obstacles, w);
      }
    }
  }

  lemma WalkExtend(start: Cell, obstacles: seq<Cell>, w: seq<Cell>, n: Cell)
    requires IsWalk(start, obstacles, w)
    requires Adjacent(Last(start, w), n) && Free(n, obstacles)
    ensures IsPathTo(start, n, obstacles, w + [n])
  {
    assert (w + [n])[..|w|] == w;
  }

  /**
   * The neighbours `ns` that the search newly enqueues, in order: those on the
   * board, not obstacles and not yet visited (each marked visited as it is found).
   */
  function Discover(ns: seq<Cell>, obstacles: seq<Cell>, visited: set<Cell>): (found: seq<Cell>)
    ensures |found| <= |ns|
    ensures forall i :: 0 <= i < |found| ==> InBounds(found[i]) && found[i] !in obstacles && found[i] !in visited
  {
    if ns == [] then []
    else if !InBounds(ns[0]) || ns[0] in obstacles || ns[0] in visited then
      Discover(ns[1..], obstacles, visited)
    else
      [ns[0]] + Discover(ns[1..], obstacles, visited + {ns[0]})
  }

  /**
   * The discovered cells are free, unvisited members of `ns`, none twice,
   * and every free member of `ns` is visited or discovered.
   */
  lemma {:induction false} DiscoverFacts(ns: seq<Cell>, obstacles: seq<Cell>, visited: set<Cell>)
    ensures var found := Discover(ns, obstacles, visited);
            && (forall i :: 0 <= i < |found| ==> found[i] in ns && Free(found[i], obstacles) && found[i] !in visited)
            && Distinct(found)
            && (forall n :: n in ns && Free(n, obstacles) ==> n in visited || n in found)
  {
    if ns != [] {
      if !InBounds(ns[0]) || ns[0] in obstacles || ns[0] in visited {
        DiscoverFacts(ns[1..], obstacles, visited);
      } else {
        DiscoverFacts(ns[1..], obstacles, visited + {ns[0]});
      }
    }
  }

  /** The queue entries pushed for the cells `found`, reached by extending `path`. */
  function Entries(path: seq<Cell>, found: seq<Cell>): (es: seq<Entry>)
    ensures |es| == |found|
    ensures forall i :: 0 <= i < |found| ==> es[i] == Entry(found[i], path + [found[i]])
  {
    seq(|found|, i requires 0 <= i < |found| => Entry(found[i], path + [found[i]]))
  }

  /**
   * The neighbour loop of the search as a fold over `ns`: the queue and the
   * visited set after trying each cell of `ns` in turn.
   */
  function Explore(ns: seq<Cell>, path: seq<Cell>, obstacles: seq<Cell>,
                   queue: seq<Entry>, visited: set<Cell>): (r: (seq<Entry>, set<Cell>))
    ensures queue <= r.0 && |r.0| <= |queue| + |ns|
    ensures visited <= r.1
  {
    if ns == [] then (queue, visited)
    else if !InBounds(ns[0]) || ns[0] in obstacles || ns[0] in visited then
      Explore(ns[1..], path, obstacles, queue, visited)
    else
      Explore(ns[1..], path, obstacles, queue + [Entry(ns[0], path + [ns[0]])], visited + {ns[0]})
  }

  /** One turn of the neighbour loop: what `Explore` does with `ns[k]`. */
  lemma ExploreAt(ns: seq<Cell>, k: nat, path: seq<Cell>, obstacles: seq<Cell>,
                  queue: seq<Entry>, visited: set<Cell>)
    requires k < |ns|
    ensures Explore(ns[k..], path, obstacles, queue, visited) ==
            if !InBounds(ns[k]) || ns[k] in obstacles || ns[k] in visited
            then Explore(ns[k + 1..], path, obstacles, queue, visited)
            else Explore(ns[k + 1..], path, obstacles, queue + [Entry(ns[k], path + [ns[k]])], visited + {ns[k]})
  {
    assert ns[k..][0] == ns[k] && ns[k..][1..] == ns[k + 1..];
  }

  /** The loop appends one entry per discovered cell and marks those cells visited. */
  lemma {:induction false} ExploreDiscovers(ns: seq<Cell>, path: seq<Cell>, obstacles: seq<Cell>,
                                            queue: seq<Entry>, visited: set<Cell>)
    ensures Explore(ns, path, obstacles, queue, visited) ==
            (queue + Entries(path, Discover(ns, obstacles, visited)),
             visited + Cells(Discover(ns, obstacles, visited)))
  {
    if ns != [] {
      var n := ns[0];
      if !InBounds(n) || n in obstacles || n in visited {
        ExploreDiscovers(ns[1..], path, obstacles, queue, visited);
        assert Discover(ns, obstacles, visited) == Discover(ns[1..], obstacles, visited);
      } else {
        var e := Entry(n, path + [n]);
        var rest := Discover(ns[1..], obstacles, visited + {n});
        ExploreDiscovers(ns[1..], path, obstacles, queue + [e], visited + {n});
        assert Discover(ns, obstacles, visited) == [n] + rest;
        assert Entries(path, [n] + rest) == [e] + Entries(path, rest);
        assert (queue + [e]) + Entries(path, rest) == queue + ([e] + Entries(path, rest));
        assert Cells([n] + rest) == {n} + Cells(rest);
        assert (visited + {n}) + Cells(rest) == visited + Cells([n] + rest);
      }
    } else {
      assert Entries(path, []) == [] && Cells([]) == {};
      assert queue + Entries(path, []) == queue && visited + Cells([]) == visited;
    }
  }

  function QueueCells(queue: seq<Entry>): set<Cell>
  {
    set i | 0 <= i < |queue| :: queue[i].pos
  }

  /**
   * The inner loop of the search: tries the four neighbours of `pos` in the
   * order UP, DOWN, LEFT, RIGHT, skipping those off the board, on an obstacle
   * or already visited, and marks and enqueues the others.
   */
  method ExpandNeighbours(pos: Cell, path: seq<Cell>, obstacles: seq<Cell>, queue: seq<Entry>, visited: set<Cell>)
    returns (queue': seq<Entry>, visited': set<Cell>)
    ensures queue' == queue + Entries(path, Discover(Neighbours(pos), obstacles, visited))
    ensures visited' == visited + Cells(Discover(Neighbours(pos), obstacles, visited))
  {
    var neighbours := Neighbours(pos);
    queue', visited' := queue, visited;
    for k := 0 to |neighbours|
      invariant Explore(neighbours[k..], path, obstacles, queue', visited') == Explore(neighbours, path, obstacles, queue, visited)
    {
      var neighbour := neighbours[k];
      ExploreAt(neighbours, k, path, obstacles, queue', visited');
      if neighbour.x < 0 || neighbour.x >= GRID_SIZE || neighbour.y < 0 || neighbour.y >= GRID_SIZE {
        continue;
      }
      if neighbour in obstacles {
        continue;
      }
      if neighbour !in visited' {
        visited' := visited' + {neighbour};
        queue' := queue' + [Entry(neighbour, path + [neighbour])];
      }
    }
    ExploreDiscovers(neighbours, path, obstacles, queue, visited);
  }

  /** A visited cell whose free neighbours have all been visited. */
  ghost predicate Closed(v: Cell, obstacles: seq<Cell>, visited: set<Cell>)
  {
    forall n :: Adjacent(v, n) && Free(n, obstacles) ==> n in visited
  }

  /** The visited cells are the expanded ones and the queued ones, apart. */
  ghost predicate Covered(start: Cell, queue: seq<Entry>, visited: set<Cell>, done: set<Cell>)
  {
    && start in visited
    && visited <= Board() + {start}
    && visited == done + QueueCells(queue)
    && done !! QueueCells(queue)
  }

  /**
   * No cell is queued twice, and path lengths along the queue never drop and
   * grow by at most one from front to back.
   */
  ghost predicate Layered(queue: seq<Entry>)
  {
    && (forall i, j :: 0 <= i < j < |queue| ==> queue[i].pos != queue[j].pos)
    && (forall i, j :: 0 <= i <= j < |queue| ==> |queue[i].path| <= |queue[j].path| <= |queue[i].path| + 1)
  }

  /** Every queued path is a shortest path to its cell. */
  ghost predicate QueuedShortest(start: Cell, obstacles: seq<Cell>, queue: seq<Entry>)
  {
    forall i :: 0 <= i < |queue| ==> IsShortestPath(start, queue[i].pos, obstacles, queue[i].path)
  }

  ghost predicate AllClosed(obstacles: seq<Cell>, visited: set<Cell>, done: set<Cell>)
  {
    forall v :: v in done ==> Closed(v, obstacles, visited)
  }

  /**
   * The state of the search between two dequeues. `done` holds the cells
   * already dequeued and expanded.
   */
  ghost predicate BfsInv(start: Cell, target: Cell, obstacles: seq<Cell>,
                         queue: seq<Entry>, visited: set<Cell>, done: set<Cell>)
  {
    && Covered(start, queue, visited, done)
    && target !in done
    && Layered(queue)
    && QueuedShortest(start, obstacles, queue)
    && AllClosed(obstacles, visited, done)
  }

  /** The cells one expansion of `pos` enqueues: fresh free neighbours. */
  ghost predicate FreshNeighbours(pos: Cell, obstacles: seq<Cell>, visited: set<Cell>, found: seq<Cell>)
  {
    && Distinct(found)
    && (forall i :: 0 <= i < |found| ==> Adjacent(pos, found[i]) && Free(found[i], obstacles) && found[i] !in visited)
    && (forall n :: Adjacent(pos, n) && Free(n, obstacles) ==> n in visited || n in found)
  }

  lemma DiscoverNeighbours(pos: Cell, obstacles: seq<Cell>, visited: set<Cell>)
    ensures FreshNeighbours(pos, obstacles, visited, Discover(Neighbours(pos), obstacles, visited))
  {
    DiscoverFacts(Neighbours(pos), obstacles, visited);
  }

  /**
   * Every cell that a walk of at most `bound` steps reaches is visited, when
   * no queued cell is reachable in fewer than `bound` steps.
   */
  lemma {:induction false} VisitedReach(start: Cell, obstacles: seq<Cell>, queue: seq<Entry>,
                                        visited: set<Cell>, done: set<Cell>, bound: nat, w: seq<Cell>)
    requires visited == done + QueueCells(queue) && start in visited
    requires AllClosed(obstacles, visited, done)
    requires forall i :: 0 <= i < |queue| ==> bound <= |queue[i].path|
    requires QueuedShortest(start, obstacles, queue)
    requires IsWalk(start, obstacles, w) && |w| <= bound
    ensures Last(start, w) in visited
    decreases |w|
  {
    if w != [] {
      var w' := w[..|w| - 1];
      VisitedReach(start, obstacles, queue, visited, done, bound, w');
      var p := Last(start, w');
      forall i | 0 <= i < |queue| ensures queue[i].pos != p {
        assert !IsPathTo(start, queue[i].pos, obstacles, w');
      }
      assert p in done;
    }
  }

  lemma QueueCellsSingle(e: Entry)
    ensures QueueCells([e]) == {e.pos}
  {
    assert [e][0].pos == e.pos;
  }

  lemma QueueCellsSplit(queue: seq<Entry>, path: seq<Cell>, found: seq<Cell>)
    requires queue != []
    ensures QueueCells(queue) == {queue[0].pos} + QueueCells(queue[1..])
    ensures QueueCells(queue[1..] + Entries(path, found)) == QueueCells(queue[1..]) + Cells(found)
  {
    var rest := queue[1..];
    var q2 := rest + Entries(path, found);
    forall c ensures c in QueueCells(queue) <==> c == queue[0].pos || c in QueueCells(rest) {
      if c in QueueCells(queue) && c != queue[0].pos {
        var i :| 0 <= i < |queue| && queue[i].pos == c;
        assert rest[i - 1].pos == c;
      }
      if c in QueueCells(rest) {
        var i :| 0 <= i < |rest| && rest[i].pos == c;
        assert queue[i + 1].pos == c;
      }
    }
    forall c ensures c in QueueCells(q2) <==> c in QueueCells(rest) || c in found {
      if c in QueueCells(q2) {
        var i :| 0 <= i < |q2| && q2[i].pos == c;
        if i >= |rest| {
          assert found[i - |rest|] == c;
        }
      }
      if c in found {
        var i :| 0 <= i < |found| && found[i] == c;
        assert q2[|rest| + i].pos == c;
      }
      if c in QueueCells(rest) {
        var i :| 0 <= i < |rest| && rest[i].pos == c;
        assert q2[i].pos == c;
      }
    }
  }

  /** A cell first found from the front of the queue gets a shortest path. */
  lemma NewEntryShortest(start: Cell, target: Cell, obstacles: seq<Cell>, queue: seq<Entry>,
                         visited: set<Cell>, done: set<Cell>, n: Cell)
    requires BfsInv(start, target, obstacles, queue, visited, done)
    requires queue != []
    requires Adjacent(queue[0].pos, n) && Free(n, obstacles) && n !in visited
    ensures IsShortestPath(start, n, obstacles, queue[0].path + [n])
  {
    var e := queue[0];
    WalkExtend(start, obstacles, e.path, n);
    forall w | IsWalk(start, obstacles, w) && |w| <= |e.path|
      ensures Last(start, w) != n
    {
      VisitedReach(start, obstacles, queue, visited, done, |e.path|, w);
    }
  }

  lemma StepShortest(start: Cell, target: Cell, obstacles: seq<Cell>, queue: seq<Entry>,
                     visited: set<Cell>, done: set<Cell>, found: seq<Cell>)
    requires BfsInv(start, target, obstacles, queue, visited, done)
    requires queue != []
    requires FreshNeighbours(queue[0].pos, obstacles, visited, found)
    ensures QueuedShortest(start, obstacles, queue[1..] + Entries(queue[0].path, found))
  {
    var rest := queue[1..];
    var q2 := rest + Entries(queue[0].path, found);
    forall i | 0 <= i < |q2|
      ensures IsShortestPath(start, q2[i].pos, obstacles, q2[i].path)
    {
      if i < |rest| {
        assert q2[i] == queue[i + 1];
      } else {
        var n := found[i - |rest|];
        assert q2[i] == Entry(n, queue[0].path + [n]);
        NewEntryShortest(start, target, obstacles, queue, visited, done, n);
      }
    }
  }

  lemma StepLayered(queue: seq<Entry>, visited: set<Cell>, found: seq<Cell>)
    requires Layered(queue) && queue != []
    requires QueueCells(queue) <= visited
    requires Distinct(found) && forall i :: 0 <= i < |found| ==> found[i] !in visited
    ensures Layered(queue[1..] + Entries(queue[0].path, found))
  {
    var e := queue[0];
    var rest := queue[1..];
    var q2 := rest + Entries(e.path, found);
    forall i | 0 <= i < |q2|
      ensures |e.path| <= |q2[i].path| <= |e.path| + 1
    {
      if i < |rest| {
        assert q2[i] == queue[i + 1];
      } else {
        assert q2[i] == Entry(found[i - |rest|], e.path + [found[i - |rest|]]);
      }
    }
    forall i, j | 0 <= i <= j < |q2|
      ensures |q2[i].path| <= |q2[j].path| <= |q2[i].path| + 1
    {
      if j < |rest| {
        assert q2[i] == queue[i + 1] && q2[j] == queue[j + 1];
      } else if i >= |rest| {
        assert |q2[i].path| == |e.path| + 1 == |q2[j].path|;
      }
    }
    forall i, j | 0 <= i < j < |q2|
      ensures q2[i].pos != q2[j].pos
    {
      if j < |rest| {
        assert q2[i] == queue[i + 1] && q2[j] == queue[j + 1];
      } else if i < |rest| {
        assert q2[i].pos in QueueCells(queue);
        assert q2[j].pos == found[j - |rest|];
      } else {
        assert q2[i].pos == found[i - |rest|] && q2[j].pos == found[j - |rest|];
      }
    }
  }

  lemma StepCovered(start: Cell, obstacles: seq<Cell>, queue: seq<Entry>,
                    visited: set<Cell>, done: set<Cell>, found: seq<Cell>)
    requires Covered(start, queue, visited, done) && Layered(queue) && queue != []
    requires FreshNeighbours(queue[0].pos, obstacles, visited, found)
    ensures Covered(start, queue[1..] + Entries(queue[0].path, found), visited + Cells(found), done + {queue[0].pos})
  {
    QueueCellsSplit(queue, queue[0].path, found);
    forall i | 0 <= i < |queue[1..]| ensures queue[1..][i].pos != queue[0].pos {
      assert queue[1..][i] == queue[i + 1];
    }
  }

  /** One dequeue and expansion of a non-target cell keeps the search state. */
  lemma BfsStep(start: Cell, target: Cell, obstacles: seq<Cell>,
                queue: seq<Entry>, visited: set<Cell>, done: set<Cell>, found: seq<Cell>)
    requires BfsInv(start, target, obstacles, queue, visited, done)
    requires queue != [] && queue[0].pos != target
    requires FreshNeighbours(queue[0].pos, obstacles, visited, found)
    ensures BfsInv(start, target, obstacles, queue[1..] + Entries(queue[0].path, found),
                   visited + Cells(found), done + {queue[0].pos})
  {
    StepCovered(start, obstacles, queue, visited, done, found);
    StepLayered(queue, visited, found);
    StepShortest(start, target, obstacles, queue, visited, done, found);
    assert Closed(queue[0].pos, obstacles, visited + Cells(found));
  }

  /**
   * An expansion either visits a new board cell or enqueues nothing: the
   * measure of the search loop goes down.
   */
  lemma ExpansionProgress(visited: set<Cell>, path: seq<Cell>, found: seq<Cell>)
    requires forall i :: 0 <= i < |found| ==> InBounds(found[i]) && found[i] !in visited
    ensures found == [] ==> Entries(path, found) == [] && visited + Cells(found) == visited
    ensures found != [] ==> |Board() - (visited + Cells(found))| < |Board() - visited|
  {
    if found != [] {
      var before := Board() - visited;
      var after := Board() - (visited + Cells(found));
      assert after <= before - {found[0]};
      SubsetSize(after, before - {found[0]});
    }
  }

  /**
   * One turn of the search loop on a non-target front cell, in terms of the
   * cells its expansion discovers: the search state is kept, one more cell is
   * expanded, and the loop measure goes down.
   */
  lemma BfsAdvance(start: Cell, target: Cell, obstacles: seq<Cell>,
                   queue: seq<Entry>, visited: set<Cell>, done: set<Cell>)
    requires BfsInv(start, target, obstacles, queue, visited, done)
    requires queue != [] && queue[0].pos != target
    ensures var found := Discover(Neighbours(queue[0].pos), obstacles, visited);
            var queue' := queue[1..] + Entries(queue[0].path, found);
            var visited' := visited + Cells(found);
            && BfsInv(start, target, obstacles, queue', visited', done + {queue[0].pos})
            && |done + {queue[0].pos}| == |done| + 1
            && (|Board() - visited'| < |Board() - visited| || (visited' == visited && |queue'| < |queue|))
  {
    var found := Discover(Neighbours(queue[0].pos), obstacles, visited);
    DiscoverNeighbours(queue[0].pos, obstacles, visited);
    BfsStep(start, target, obstacles, queue, visited, done, found);
    ExpansionProgress(visited, queue[0].path, found);
    assert queue[0].pos in QueueCells(queue);
  }

  /** Dequeuing the target: its queued path is a shortest path. */
  lemma BfsFound(start: Cell, target: Cell, obstacles: seq<Cell>,
                 queue: seq<Entry>, visited: set<Cell>, done: set<Cell>)
    requires BfsInv(start, target, obstacles, queue, visited, done)
    requires queue != [] && queue[0].pos == target
    ensures IsShortestPath(start, target, obstacles, queue[0].path)
    ensures start == target ==> queue[0].path == []
    ensures InBounds(start) ==> |done| + 1 <= GRID_SIZE * GRID_SIZE
  {
    assert start == target ==> IsPathTo(start, target, obstacles, []);
    assert queue[0].pos in QueueCells(queue);
    BoardSize();
    SubsetSize(done + {queue[0].pos}, Board() + {start});
  }

  /** An empty queue: the target is unreachable. */
  lemma BfsExhausted(start: Cell, target: Cell, obstacles: seq<Cell>,
                     visited: set<Cell>, done: set<Cell>)
    requires BfsInv(start, target, obstacles, [], visited, done)
    ensures !Reachable(start, target, obstacles)
    ensures InBounds(start) ==> |done| <= GRID_SIZE * GRID_SIZE
  {
    forall w | IsWalk(start, obstacles, w)
      ensures Last(start, w) != target
    {
      VisitedReach(start, obstacles, [], visited, done, |w|, w);
    }
    BoardSize();
    SubsetSize(done, Board() + {start});
  }

  /**
   * A target whose every neighbour is an obstacle or off the board cannot be
   * reached from a start that is neither the target nor next to it.
   */
  lemma EnclosedUnreachable(start: Cell, target: Cell, obstacles: seq<Cell>)
    requires start != target && !Adjacent(start, target)
    requires forall n :: Adjacent(target, n) ==> !Free(n, obstacles)
    ensures !Reachable(start, target, obstacles)
  {
    forall w | IsWalk(start, obstacles, w) && w != []
      ensures Last(start, w) != target
    {
      var prefix := w[..|w| - 1];
      var p := Last(start, prefix);
      assert Adjacent(p, w[|w| - 1]);
      if prefix != [] {
        assert IsWalk(start, obstacles, prefix);
        assert prefix[..|prefix| - 1] + [p] == prefix;
      }
      assert p == start || Free(p, obstacles);
    }
  }

  /**
   * Breadth-first search from `start` to `target` over the board, never
   * entering a cell of `obstacles` (the start cell itself is not checked).
   * Returns the cells after `start` up to and including `target`, or None when
   * `target` cannot be reached. `dequeues` counts the cells taken off the queue.
   */
  method ShortestPath(start: Cell, target: Cell, obstacles: seq<Cell>)
    returns (r: Option<seq<Cell>>, ghost dequeues: nat)
    ensures r.Some? ==> IsShortestPath(start, target, obstacles, r.value)
    ensures r.Some? <==> Reachable(start, target, obstacles)
    ensures start == target ==> r == Some([])
    ensures InBounds(start) ==> dequeues <= GRID_SIZE * GRID_SIZE
  {
    var queue := [Entry(start, [])];
    var visited := {start};
    ghost var done: set<Cell> := {};
    dequeues := 0;
    QueueCellsSingle(Entry(start, []));
    while |queue| > 0
      invariant BfsInv(start, target, obstacles, queue, visited, done)
      invariant dequeues == |done|
      decreases |Board() - visited|, |queue|
    {
      ghost var queue0 := queue;
      var e := queue[0];
      queue := queue[1..];
      dequeues := dequeues + 1;
      if e.pos == target {
        BfsFound(start, target, obstacles, queue0, visited, done);
        return Some(e.path), dequeues;
      }
      BfsAdvance(start, target, obstacles, queue0, visited, done);
      queue, visited := ExpandNeighbours(e.pos, e.path, obstacles, queue, visited);
      done := done + {e.pos};
    }
    BfsExhausted(start, target, obstacles, visited, done);
    return None, dequeues;
  }
}
