/**
 * Walks in the maze graph, whose nodes are the cells and whose edges are
 * the `Open` steps that `get_neighbors` follows.
 */
module Walks {
  import opened Grid
  import opened Passages
  import opened Neighbors

  ghost predicate StepOk(cells: seq<Cell>, p: seq<nat>, i: nat)
    requires i + 1 < |p|
  {
    Open(cells, p[i], p[i + 1])
  }

  /** `p` is a non-empty walk: every entry is a cell and consecutive entries are joined by an edge. */
  ghost predicate IsWalk(cells: seq<Cell>, p: seq<nat>) {
    && |p| >= 1
    && (forall i :: 0 <= i < |p| ==> p[i] < |cells|)
    && (forall i :: 0 <= i < |p| - 1 ==> StepOk(cells, p, i))
  }

  ghost predicate WalkFrom(cells: seq<Cell>, p: seq<nat>, a: nat, b: nat) {
    IsWalk(cells, p) && p[0] == a && p[|p| - 1] == b
  }

  ghost predicate Reachable(cells: seq<Cell>, a: nat, b: nat) {
    exists p :: WalkFrom(cells, p, a, b)
  }

  /** `c2` has the cells of `c1` on the same tiles, with every wall that is down in `c1` still down. */
  ghost predicate Widened(c1: seq<Cell>, c2: seq<Cell>) {
    && SameTiles(c1, c2)
    && forall i, d :: 0 <= i < |c1| && !WallAt(c1[i].walls, d) ==> !WallAt(c2[i].walls, d)
  }

  lemma WidenedTrans(c1: seq<Cell>, c2: seq<Cell>, c3: seq<Cell>)
    requires Widened(c1, c2) && Widened(c2, c3)
    ensures Widened(c1, c3)
  {
  }

  lemma OpenWidened(c1: seq<Cell>, c2: seq<Cell>, u: nat, w: nat)
    requires Widened(c1, c2) && Open(c1, u, w)
    ensures Open(c2, u, w)
  {
    var d :| OpenToward(c1[u], c1[w], d);
    assert OpenToward(c2[u], c2[w], d);
  }

  /** Taking walls down keeps every walk a walk. */
  lemma WalkWidened(c1: seq<Cell>, c2: seq<Cell>, p: seq<nat>)
    requires Widened(c1, c2) && IsWalk(c1, p)
    ensures IsWalk(c2, p)
  {
    forall i | 0 <= i < |p| - 1 ensures StepOk(c2, p, i) {
      assert StepOk(c1, p, i);
      OpenWidened(c1, c2, p[i], p[i + 1]);
    }
  }

  lemma WalkExtend(cells: seq<Cell>, p: seq<nat>, w: nat)
    requires IsWalk(cells, p) && Open(cells, p[|p| - 1], w)
    ensures IsWalk(cells, p + [w])
  {
    var q := p + [w];
    forall i | 0 <= i < |q| - 1 ensures StepOk(cells, q, i) {
      if i < |p| - 1 {
        assert StepOk(cells, p, i);
      }
    }
  }

  /** With symmetric walls every edge can be walked both ways. */
  lemma OpenSymmetric(cells: seq<Cell>, u: nat, w: nat)
    requires Symmetric(cells) && Open(cells, u, w)
    ensures Open(cells, w, u)
  {
    var d :| OpenToward(cells[u], cells[w], d);
    LiesOpposite(cells[u], cells[w], d);
    assert OpenToward(cells[w], cells[u], Opposite(d));
  }

  function Reverse(p: seq<nat>): (r: seq<nat>)
    ensures |r| == |p|
    ensures forall i :: 0 <= i < |p| ==> r[i] == p[|p| - 1 - i]
  {
    seq(|p|, i requires 0 <= i < |p| => p[|p| - 1 - i])
  }

  lemma WalkReverse(cells: seq<Cell>, p: seq<nat>)
    requires Symmetric(cells) && IsWalk(cells, p)
    ensures IsWalk(cells, Reverse(p))
  {
    var r := Reverse(p);
    forall i | 0 <= i < |r| - 1 ensures StepOk(cells, r, i) {
      var j := |p| - 2 - i;
      assert StepOk(cells, p, j);
      OpenSymmetric(cells, p[j], p[j + 1]);
    }
  }

  lemma WalkJoin(cells: seq<Cell>, p: seq<nat>, q: seq<nat>)
    requires IsWalk(cells, p) && IsWalk(cells, q) && p[|p| - 1] == q[0]
    ensures IsWalk(cells, p + q[1..])
  {
    var r := p + q[1..];
    forall i | 0 <= i < |r| - 1 ensures StepOk(cells, r, i) {
      if i < |p| - 1 {
        assert StepOk(cells, p, i);
      } else {
        assert StepOk(cells, q, i - |p| + 1);
      }
    }
  }

  /**
   * With symmetric walls, a graph in which every cell is reachable from one
   * root is connected: every cell is reachable from every other.
   */
  lemma ConnectedFromRoot(cells: seq<Cell>, root: nat)
    requires Symmetric(cells)
    requires forall v :: 0 <= v < |cells| ==> Reachable(cells, root, v)
    ensures forall a, b :: 0 <= a < |cells| && 0 <= b < |cells| ==> Reachable(cells, a, b)
  {
    forall a, b | 0 <= a < |cells| && 0 <= b < |cells| ensures Reachable(cells, a, b) {
      assert Reachable(cells, root, a) && Reachable(cells, root, b);
      var p :| WalkFrom(cells, p, root, a);
      var q :| WalkFrom(cells, q, root, b);
      WalkReverse(cells, p);
      WalkJoin(cells, Reverse(p), q);
      assert WalkFrom(cells, Reverse(p) + q[1..], a, b);
    }
  }
}
