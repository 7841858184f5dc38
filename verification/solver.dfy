/**
 * The breadth-first solver `solve_maze` (main.py:33-48), a resumable
 * generator, modelled as a state machine whose `Step` runs the generator to
 * its next `yield`. A ghost map `depth` records, for every discovered cell,
 * the number of edges on its `came_from` chain back to `start`; the
 * invariant shows it is the length of a shortest walk.
 */
module Bfs {
  import opened Grid
  import opened Neighbors
  import opened Walks
  import opened Sets

  /** What one `next(solver)` produces. */
  datatype Event =
    | Discovered(cameFrom: map<nat, Option<nat>>, current: nat, neighbor: nat)  // `yield came_from, current, neighbor`
    | Final(cameFrom: map<nat, Option<nat>>, reached: bool)                     // `yield came_from, None, None`
    | Exhausted                                                                // `StopIteration`

  /** The cell sequence obtained by following `cameFrom` back from `v`, at most `fuel` times, oldest first. */
  function Trace(cameFrom: map<nat, Option<nat>>, v: nat, fuel: nat): (r: seq<nat>)
    ensures 1 <= |r| <= fuel + 1 && r[|r| - 1] == v
    decreases fuel
  {
    if fuel > 0 && v in cameFrom && cameFrom[v].Some? then Trace(cameFrom, cameFrom[v].value, fuel - 1) + [v]
    else [v]
  }

  /** A map whose keys are all below `n` has at most `n` keys. */
  lemma KeysBound(cameFrom: map<nat, Option<nat>>, n: nat)
    requires forall v :: v in cameFrom ==> v < n
    ensures |cameFrom.Keys| <= n
  {
    SubsetCard(cameFrom.Keys, Range(0, n));
  }

  /**
   * The predecessor map is a tree rooted at `start`: `start` has no
   * predecessor, every other discovered cell has a discovered predecessor
   * with an open wall toward it, one level shallower.
   */
  ghost predicate Parents(cells: seq<Cell>, start: nat, cameFrom: map<nat, Option<nat>>, depth: map<nat, nat>) {
    Rooted(cells, start, cameFrom, depth) && TreeEdges(cells, start, cameFrom, depth)
  }

  /** The root and the bounds: depths are known exactly for the discovered cells, and stay below their count. */
  ghost predicate Rooted(cells: seq<Cell>, start: nat, cameFrom: map<nat, Option<nat>>, depth: map<nat, nat>) {
    && start < |cells|
    && depth.Keys == cameFrom.Keys
    && start in cameFrom && cameFrom[start] == None && depth[start] == 0
    && (forall v :: v in cameFrom ==> v < |cells| && depth[v] < |cameFrom.Keys|)
  }

  /** Every discovered cell other than `start` hangs from a discovered predecessor by an open edge. */
  ghost predicate TreeEdges(cells: seq<Cell>, start: nat, cameFrom: map<nat, Option<nat>>, depth: map<nat, nat>)
    requires depth.Keys == cameFrom.Keys
  {
    forall v {:trigger cameFrom[v]} :: v in cameFrom && v != start ==>
      && cameFrom[v].Some? && cameFrom[v].value in cameFrom
      && Open(cells, cameFrom[v].value, v)
      && depth[v] == depth[cameFrom[v].value] + 1
  }

  /** The queue holds discovered cells in order of depth, at the current level or the next. */
  ghost predicate Levels(queue: seq<nat>, cameFrom: map<nat, Option<nat>>, current: nat, depth: map<nat, nat>)
    requires depth.Keys == cameFrom.Keys
  {
    && current in cameFrom
    && (forall k :: 0 <= k < |queue| ==> queue[k] in cameFrom)
    && (forall k :: 0 <= k < |queue| ==> depth[current] <= depth[queue[k]] <= depth[current] + 1)
    && (forall i, j :: 0 <= i <= j < |queue| ==> depth[queue[i]] <= depth[queue[j]])
    && (forall v :: v in cameFrom ==> depth[v] <= depth[current] + 1)
  }

  /**
   * The frontier: an open wall from a discovered cell to an undiscovered one
   * is still to be looked at, either because the cell is queued or because
   * it is `current` and the other cell is among the neighbours not yet
   * processed. Discovered depths never drop by more than one along an edge.
   */
  ghost predicate Frontier(cells: seq<Cell>, queue: seq<nat>, cameFrom: map<nat, Option<nat>>, current: nat,
                           neighbors: seq<nat>, pos: nat, depth: map<nat, nat>)
    requires depth.Keys == cameFrom.Keys
  {
    && pos <= |neighbors|
    && (forall k :: pos <= k < |neighbors| ==> Open(cells, current, neighbors[k]))
    && (forall u, w {:trigger Open(cells, u, w)} :: u in cameFrom && w !in cameFrom && Open(cells, u, w) ==>
          u in queue || (u == current && w in neighbors[pos..]))
    && (forall u, w {:trigger Open(cells, u, w)} :: u in cameFrom && w in cameFrom && Open(cells, u, w) ==>
          depth[w] <= depth[u] + 1)
  }

  /** The invariant of `solve_maze` at every `yield` and every turn of its loops. */
  ghost predicate SearchInv(cells: seq<Cell>, start: nat, queue: seq<nat>, cameFrom: map<nat, Option<nat>>,
                            current: nat, neighbors: seq<nat>, pos: nat, depth: map<nat, nat>, dequeues: nat) {
    && Parents(cells, start, cameFrom, depth)
    && Levels(queue, cameFrom, current, depth)
    && Frontier(cells, queue, cameFrom, current, neighbors, pos, depth)
    && dequeues + |queue| == |cameFrom.Keys|
  }

  /**
   * What the search has established when it stops: `end` was discovered
   * exactly when a walk leads to it from `start`, and then the `cameFrom`
   * chain from `end` is a walk from `start` no longer than any other.
   */
  ghost predicate FinalFacts(cells: seq<Cell>, start: nat, end: nat, cameFrom: map<nat, Option<nat>>) {
    && (end in cameFrom <==> Reachable(cells, start, end))
    && (end in cameFrom ==>
          && WalkFrom(cells, Trace(cameFrom, end, |cameFrom.Keys|), start, end)
          && forall p {:trigger WalkFrom(cells, p, start, end)} :: WalkFrom(cells, p, start, end) ==> |Trace(cameFrom, end, |cameFrom.Keys|)| <= |p|)
  }

  /** The start of `solve_maze` (main.py:34-35): the queue and `came_from` hold only `start`. */
  lemma InitInv(cells: seq<Cell>, start: nat)
    requires start < |cells|
    ensures SearchInv(cells, start, [start], map[start := None], start, [], 0, map[start := 0], 0)
  {
  }

  lemma SkipFrontier(cells: seq<Cell>, queue: seq<nat>, cameFrom: map<nat, Option<nat>>, current: nat,
                     neighbors: seq<nat>, pos: nat, depth: map<nat, nat>)
    requires depth.Keys == cameFrom.Keys && Frontier(cells, queue, cameFrom, current, neighbors, pos, depth)
    requires pos < |neighbors| && neighbors[pos] in cameFrom
    ensures Frontier(cells, queue, cameFrom, current, neighbors, pos + 1, depth)
  {
    forall u, w | u in cameFrom && w !in cameFrom && Open(cells, u, w)
      ensures u in queue || (u == current && w in neighbors[pos + 1..])
    {
      if u !in queue {
        assert w in neighbors[pos..];
        assert neighbors[pos..] == [neighbors[pos]] + neighbors[pos + 1..];
      }
    }
  }

  /** A neighbour already in `came_from` is passed over. */
  lemma SkipInv(cells: seq<Cell>, start: nat, queue: seq<nat>, cameFrom: map<nat, Option<nat>>,
                current: nat, neighbors: seq<nat>, pos: nat, depth: map<nat, nat>, dequeues: nat)
    requires SearchInv(cells, start, queue, cameFrom, current, neighbors, pos, depth, dequeues)
    requires pos < |neighbors| && neighbors[pos] in cameFrom
    ensures SearchInv(cells, start, queue, cameFrom, current, neighbors, pos + 1, depth, dequeues)
  {
    SkipFrontier(cells, queue, cameFrom, current, neighbors, pos, depth);
  }

  /** Recording a new cell keeps the root and the depth bounds. */
  lemma DiscoverRooted(cells: seq<Cell>, start: nat, cameFrom: map<nat, Option<nat>>, depth: map<nat, nat>,
                       current: nat, w: nat)
    requires Rooted(cells, start, cameFrom, depth) && current in cameFrom && w !in cameFrom && w < |cells|
    ensures Rooted(cells, start, cameFrom[w := Some(current)], depth[w := depth[current] + 1])
  {
    var cf, dp := cameFrom[w := Some(current)], depth[w := depth[current] + 1];
    assert cf.Keys == cameFrom.Keys + {w};
    assert |cf.Keys| == |cameFrom.Keys| + 1;
    forall v | v in cf ensures v < |cells| && dp[v] < |cf.Keys| {
      if v != w {
        assert dp[v] == depth[v];
      }
    }
  }

  /** Recording `w` with predecessor `current` across an open wall keeps every tree edge. */
  lemma DiscoverEdges(cells: seq<Cell>, start: nat, cameFrom: map<nat, Option<nat>>, depth: map<nat, nat>,
                      current: nat, w: nat)
    requires depth.Keys == cameFrom.Keys && TreeEdges(cells, start, cameFrom, depth)
    requires current in cameFrom && w !in cameFrom && Open(cells, current, w)
    ensures TreeEdges(cells, start, cameFrom[w := Some(current)], depth[w := depth[current] + 1])
  {
    var cf, dp := cameFrom[w := Some(current)], depth[w := depth[current] + 1];
    forall v | v in cf && v != start
      ensures cf[v].Some? && cf[v].value in cf && Open(cells, cf[v].value, v) && dp[v] == dp[cf[v].value] + 1
    {
      if v != w {
        var u := cameFrom[v].value;
        assert cf[v] == cameFrom[v] && u in cameFrom;
        assert dp[v] == depth[v] && dp[u] == depth[u];
      }
    }
  }

  /** Discovering `w` from `current` hangs `w` in the tree one level below `current`. */
  lemma DiscoverParents(cells: seq<Cell>, start: nat, cameFrom: map<nat, Option<nat>>, depth: map<nat, nat>,
                        current: nat, w: nat)
    requires Parents(cells, start, cameFrom, depth) && current in cameFrom && w !in cameFrom
    requires Open(cells, current, w)
    ensures Parents(cells, start, cameFrom[w := Some(current)], depth[w := depth[current] + 1])
  {
    DiscoverRooted(cells, start, cameFrom, depth, current, w);
    DiscoverEdges(cells, start, cameFrom, depth, current, w);
  }

  lemma DiscoverLevels(queue: seq<nat>, cameFrom: map<nat, Option<nat>>, current: nat, depth: map<nat, nat>, w: nat)
    requires depth.Keys == cameFrom.Keys && Levels(queue, cameFrom, current, depth) && w !in cameFrom
    ensures Levels(queue + [w], cameFrom[w := Some(current)], current, depth[w := depth[current] + 1])
  {
  }

  lemma DiscoverFrontier(cells: seq<Cell>, queue: seq<nat>, cameFrom: map<nat, Option<nat>>, current: nat,
                         neighbors: seq<nat>, pos: nat, depth: map<nat, nat>)
    requires depth.Keys == cameFrom.Keys && Levels(queue, cameFrom, current, depth)
    requires Frontier(cells, queue, cameFrom, current, neighbors, pos, depth)
    requires pos < |neighbors| && neighbors[pos] !in cameFrom
    ensures Frontier(cells, queue + [neighbors[pos]], cameFrom[neighbors[pos] := Some(current)], current,
                     neighbors, pos + 1, depth[neighbors[pos] := depth[current] + 1])
  {
    var w := neighbors[pos];
    var q, cf, dp := queue + [w], cameFrom[w := Some(current)], depth[w := depth[current] + 1];
    forall u, x | u in cf && x !in cf && Open(cells, u, x)
      ensures u in q || (u == current && x in neighbors[pos + 1..])
    {
      if u != w && u !in queue {
        assert x in neighbors[pos..];
        assert neighbors[pos..] == [w] + neighbors[pos + 1..];
      }
    }
    forall u, x | u in cf && x in cf && Open(cells, u, x) ensures dp[x] <= dp[u] + 1 {
      if x == w && u != w && u in queue {
        var k :| 0 <= k < |queue| && queue[k] == u;
      }
    }
  }

  /** A new neighbour is queued and recorded with `current` as its predecessor, one level deeper. */
  lemma DiscoverInv(cells: seq<Cell>, start: nat, queue: seq<nat>, cameFrom: map<nat, Option<nat>>,
                    current: nat, neighbors: seq<nat>, pos: nat, depth: map<nat, nat>, dequeues: nat)
    requires SearchInv(cells, start, queue, cameFrom, current, neighbors, pos, depth, dequeues)
    requires pos < |neighbors| && neighbors[pos] !in cameFrom
    ensures SearchInv(cells, start, queue + [neighbors[pos]], cameFrom[neighbors[pos] := Some(current)],
                      current, neighbors, pos + 1, depth[neighbors[pos] := depth[current] + 1], dequeues)
  {
    var w := neighbors[pos];
    assert (cameFrom[w := Some(current)]).Keys == cameFrom.Keys + {w};
    DiscoverParents(cells, start, cameFrom, depth, current, w);
    DiscoverLevels(queue, cameFrom, current, depth, w);
    DiscoverFrontier(cells, queue, cameFrom, current, neighbors, pos, depth);
  }

  /** The for loop is done: the next queued cell becomes `current`, and its open neighbours are listed. */
  lemma DequeueInv(cells: seq<Cell>, start: nat, queue: seq<nat>, cameFrom: map<nat, Option<nat>>,
                   current: nat, neighbors: seq<nat>, pos: nat, depth: map<nat, nat>, dequeues: nat)
    requires SearchInv(cells, start, queue, cameFrom, current, neighbors, pos, depth, dequeues)
    requires pos == |neighbors| && queue != []
    ensures SearchInv(cells, start, queue[1..], cameFrom, queue[0],
                      GetNeighbors(cells, cells[queue[0]]), 0, depth, dequeues + 1)
  {
    var c := queue[0];
    var ns := GetNeighbors(cells, cells[c]);
    GetNeighborsSpec(cells, c);
    assert Levels(queue[1..], cameFrom, c, depth) by {
      forall k | 0 <= k < |queue| - 1 ensures depth[c] <= depth[queue[1..][k]] {
        assert queue[1..][k] == queue[k + 1];
      }
    }
    forall u, w | u in cameFrom && w !in cameFrom && Open(cells, u, w)
      ensures u in queue[1..] || (u == c && w in ns[0..])
    {
      assert ns[0..] == ns;
      if u != c {
        assert queue == [c] + queue[1..];
      }
    }
  }

  /**
   * The search between two cells: every cell reached by an open wall from a
   * discovered cell is discovered too, unless that cell is still queued, and
   * the head of the queue is at the smallest depth in it.
   */
  ghost predicate Explored(cells: seq<Cell>, start: nat, queue: seq<nat>, cameFrom: map<nat, Option<nat>>,
                           depth: map<nat, nat>) {
    && depth.Keys == cameFrom.Keys && start in cameFrom && depth[start] == 0
    && (forall k :: 0 <= k < |queue| ==> queue[k] in cameFrom)
    && (forall k :: 0 <= k < |queue| ==> depth[queue[0]] <= depth[queue[k]])
    && (forall u, w {:trigger Open(cells, u, w)} :: u in cameFrom && w !in cameFrom && Open(cells, u, w) ==>
          u in queue)
    && (forall u, w {:trigger Open(cells, u, w)} :: u in cameFrom && w in cameFrom && Open(cells, u, w) ==>
          depth[w] <= depth[u] + 1)
  }

  lemma ExploredOfSearch(cells: seq<Cell>, start: nat, queue: seq<nat>, cameFrom: map<nat, Option<nat>>,
                         current: nat, neighbors: seq<nat>, depth: map<nat, nat>, dequeues: nat)
    requires SearchInv(cells, start, queue, cameFrom, current, neighbors, |neighbors|, depth, dequeues)
    ensures Explored(cells, start, queue, cameFrom, depth)
  {
    forall u, w | u in cameFrom && w !in cameFrom && Open(cells, u, w) ensures u in queue {
      assert neighbors[|neighbors|..] == [];
    }
  }

  /**
   * Along any walk from `start`, the `j`-th cell is discovered at depth at
   * most `j`, unless the head of the queue is itself at depth at most `j`.
   */
  lemma {:induction false} WalkDepth(cells: seq<Cell>, start: nat, queue: seq<nat>, cameFrom: map<nat, Option<nat>>,
                                     depth: map<nat, nat>, p: seq<nat>, j: nat)
    requires Explored(cells, start, queue, cameFrom, depth)
    requires IsWalk(cells, p) && p[0] == start && j < |p|
    ensures (p[j] in cameFrom && depth[p[j]] <= j) || (queue != [] && depth[queue[0]] <= j)
  {
    if j > 0 {
      WalkDepth(cells, start, queue, cameFrom, depth, p, j - 1);
      assert StepOk(cells, p, j - 1);
      if p[j - 1] in cameFrom && depth[p[j - 1]] <= j - 1 && p[j] !in cameFrom {
        assert p[j - 1] in queue;
        var k :| 0 <= k < |queue| && queue[k] == p[j - 1];
      }
    }
  }

  /** Following `cameFrom` back from a discovered cell gives a walk from `start` with `depth + 1` cells. */
  lemma {:induction false} TraceWalk(cells: seq<Cell>, start: nat, cameFrom: map<nat, Option<nat>>,
                                     depth: map<nat, nat>, v: nat, fuel: nat)
    requires Parents(cells, start, cameFrom, depth) && v in cameFrom && depth[v] <= fuel
    ensures WalkFrom(cells, Trace(cameFrom, v, fuel), start, v)
    ensures |Trace(cameFrom, v, fuel)| == depth[v] + 1
    decreases fuel
  {
    if v == start {
      assert WalkFrom(cells, [start], start, start);
    } else {
      var u := cameFrom[v].value;
      TraceWalk(cells, start, cameFrom, depth, u, fuel - 1);
      WalkExtend(cells, Trace(cameFrom, u, fuel - 1), v);
    }
  }

  /** When nothing queued lies shallower than a discovered `end`, no walk reaches `end` in fewer steps than its depth. */
  lemma NoShorterWalk(cells: seq<Cell>, start: nat, end: nat, queue: seq<nat>, cameFrom: map<nat, Option<nat>>,
                      depth: map<nat, nat>)
    requires Explored(cells, start, queue, cameFrom, depth)
    requires end in cameFrom && (queue == [] || queue[0] == end)
    ensures forall p {:trigger WalkFrom(cells, p, start, end)} :: WalkFrom(cells, p, start, end) ==> depth[end] < |p|
  {
    forall p | WalkFrom(cells, p, start, end) ensures depth[end] < |p| {
      WalkDepth(cells, start, queue, cameFrom, depth, p, |p| - 1);
    }
  }

  /** When `end` is discovered and nothing queued lies shallower, its `came_from` chain is a shortest walk. */
  lemma FinalShortest(cells: seq<Cell>, start: nat, end: nat, queue: seq<nat>, cameFrom: map<nat, Option<nat>>,
                      depth: map<nat, nat>)
    requires Parents(cells, start, cameFrom, depth) && Explored(cells, start, queue, cameFrom, depth)
    requires end in cameFrom && (queue == [] || queue[0] == end)
    ensures FinalFacts(cells, start, end, cameFrom)
  {
    var t := Trace(cameFrom, end, |cameFrom.Keys|);
    TraceWalk(cells, start, cameFrom, depth, end, |cameFrom.Keys|);
    NoShorterWalk(cells, start, end, queue, cameFrom, depth);
    assert WalkFrom(cells, t, start, end);
  }

  /**
   * The loop stopped because `end` was dequeued: `end` is reachable and the
   * `came_from` chain from it is a shortest walk.
   */
  lemma FinalOnEnd(cells: seq<Cell>, start: nat, end: nat, queue: seq<nat>, cameFrom: map<nat, Option<nat>>,
                   current: nat, neighbors: seq<nat>, depth: map<nat, nat>, dequeues: nat)
    requires SearchInv(cells, start, queue, cameFrom, current, neighbors, |neighbors|, depth, dequeues)
    requires queue != [] && queue[0] == end
    ensures end in cameFrom && FinalFacts(cells, start, end, cameFrom)
  {
    ExploredOfSearch(cells, start, queue, cameFrom, current, neighbors, depth, dequeues);
    FinalShortest(cells, start, end, queue, cameFrom, depth);
  }

  /**
   * The loop stopped because the queue ran empty: every cell a walk reaches
   * from `start` has been discovered, so `end` is in `came_from` exactly
   * when it is reachable.
   */
  lemma FinalOnEmpty(cells: seq<Cell>, start: nat, end: nat, cameFrom: map<nat, Option<nat>>,
                     current: nat, neighbors: seq<nat>, depth: map<nat, nat>, dequeues: nat)
    requires SearchInv(cells, start, [], cameFrom, current, neighbors, |neighbors|, depth, dequeues)
    ensures FinalFacts(cells, start, end, cameFrom)
  {
    ExploredOfSearch(cells, start, [], cameFrom, current, neighbors, depth, dequeues);
    if end in cameFrom {
      FinalShortest(cells, start, end, [], cameFrom, depth);
    } else if Reachable(cells, start, end) {
      var p :| WalkFrom(cells, p, start, end);
      WalkDepth(cells, start, [], cameFrom, depth, p, |p| - 1);
    }
  }

  /**
   * The frame of the `solve_maze` generator: its local variables while it is
   * suspended (at a `yield`, or before its first loop test), or only the
   * predecessor map once the final event has been produced.
   */
  datatype Frame =
    | Suspended(queue: seq<nat>, cameFrom: map<nat, Option<nat>>, current: nat, neighbors: seq<nat>, pos: nat)
    | Closed(cameFrom: map<nat, Option<nat>>)

  /** A `solve_maze` generator object. */
  class Solver {
    const cells: seq<Cell>
    const start: nat
    const end: nat
    /** `pos` is the index of the next entry of `neighbors` the for loop looks at. */
    var frame: Frame
    ghost var depth: map<nat, nat>
    /** The number of `popleft` calls so far. */
    ghost var dequeues: nat

    ghost predicate Valid()
      reads this
    {
      match frame
      case Suspended(queue, cameFrom, current, neighbors, pos) =>
        SearchInv(cells, start, queue, cameFrom, current, neighbors, pos, depth, dequeues)
      case Closed(cameFrom) =>
        && FinalFacts(cells, start, end, cameFrom)
        && (forall v :: v in cameFrom ==> v < |cells|)
        && dequeues <= |cameFrom.Keys|
    }

    /** An upper bound on the number of events still to come before `Exhausted`. */
    ghost function Budget(): nat
      reads this
      requires Valid()
    {
      KeysBound(frame.cameFrom, |cells|);
      if frame.Closed? then 0 else |cells| + 1 - |frame.cameFrom.Keys|
    }

    /** A new `solve_maze` generator (main.py:134), run up to its first loop test. */
    constructor (cells: seq<Cell>, start: nat, end: nat)
      requires start < |cells| && end < |cells|
      ensures this.cells == cells && this.start == start && this.end == end
      ensures Valid() && Budget() == |cells|
      ensures frame == Suspended([start], map[start := None], start, [], 0) && dequeues == 0
    {
      this.cells, this.start, this.end := cells, start, end;
      frame := Suspended([start], map[start := None], start, [], 0);
      depth, dequeues := map[start := 0], 0;
      InitInv(cells, start);
    }

    /** `next(solver)`: run to the next `yield`, or report that the generator is exhausted. */
    method Step() returns (r: Event)
      requires Valid()
      modifies this
      ensures Valid()
      ensures old(frame).Closed? <==> r.Exhausted?
      ensures r.Exhausted? ==> unchanged(this)
      ensures r.Discovered? ==>
        && frame.Suspended?
        && r.neighbor !in old(frame.cameFrom)
        && frame.cameFrom == old(frame.cameFrom)[r.neighbor := Some(r.current)]
        && r.cameFrom == frame.cameFrom
        && Open(cells, r.current, r.neighbor)
      ensures r.Final? ==>
        && frame.Closed?
        && frame.cameFrom == old(frame.cameFrom) && r.cameFrom == frame.cameFrom
        && (r.reached <==> end in frame.cameFrom)
        && (r.reached <==> Reachable(cells, start, end))
        && FinalFacts(cells, start, end, r.cameFrom)
      ensures !r.Exhausted? ==> Budget() < old(Budget())
      ensures dequeues <= |frame.cameFrom.Keys| <= |cells|
    {
      if frame.Closed? {
        KeysBound(frame.cameFrom, |cells|);
        return Exhausted;
      }
      var q: seq<nat>, cf: map<nat, Option<nat>>, cur: nat := frame.queue, frame.cameFrom, frame.current;
      var ns: seq<nat>, i: nat := frame.neighbors, frame.pos;
      ghost var dp: map<nat, nat>, dq: nat := depth, dequeues;
      while true
        invariant cf == old(frame.cameFrom)
        invariant SearchInv(cells, start, q, cf, cur, ns, i, dp, dq)
        decreases |q|, |ns| - i
      {
        if i < |ns| {
          var neighbor := ns[i];
          if neighbor !in cf {
            DiscoverInv(cells, start, q, cf, cur, ns, i, dp, dq);
            KeysBound(cf[neighbor := Some(cur)], |cells|);
            frame := Suspended(q + [neighbor], cf[neighbor := Some(cur)], cur, ns, i + 1);
            depth, dequeues := dp[neighbor := dp[cur] + 1], dq;
            return Discovered(frame.cameFrom, cur, neighbor);
          }
          SkipInv(cells, start, q, cf, cur, ns, i, dp, dq);
          i := i + 1;
        } else if q != [] {
          if q[0] == end {
            FinalOnEnd(cells, start, end, q, cf, cur, ns, dp, dq);
            dq := dq + 1;
            break;
          }
          DequeueInv(cells, start, q, cf, cur, ns, i, dp, dq);
          cur, q, dq := q[0], q[1..], dq + 1;
          ns, i := GetNeighbors(cells, cells[cur]), 0;
        } else {
          FinalOnEmpty(cells, start, end, cf, cur, ns, dp, dq);
          break;
        }
      }
      KeysBound(cf, |cells|);
      frame, dequeues := Closed(cf), dq;
      return Final(cf, end in cf);
    }
  }
}
