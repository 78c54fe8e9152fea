/** The incremental Merkle tree and the full one it stands for. The digest of a pair is a
    parameter `h`; nothing is assumed about it. */
module Merkle {
  import opened Bits

  // ----- The full tree -----

  /** One level up: neighbours are combined, an odd last node with itself. */
  function PairUp<D>(h: (D, D) -> D, ids: seq<D>): (r: seq<D>)
    ensures |r| == (|ids| + 1) / 2
  {
    seq((|ids| + 1) / 2, i requires 0 <= i < (|ids| + 1) / 2 =>
      h(ids[2 * i], if 2 * i + 1 < |ids| then ids[2 * i + 1] else ids[2 * i]))
  }

  function Root<D>(h: (D, D) -> D, ids: seq<D>): D
    requires ids != []
    decreases |ids|
  {
    if |ids| == 1 then ids[0] else Root(h, PairUp(h, ids))
  }

  /** One round of the source's loop: pad to an even length, combine neighbours in place, cut. */
  method PairLevel<D>(h: (D, D) -> D, level: seq<D>) returns (ids: seq<D>)
    requires |level| > 1
    ensures ids == PairUp(h, level)
  {
    ids := level;
    if |ids| % 2 == 1 {
      ids := ids + [ids[|ids| - 1]];
    }
    ghost var padded := ids;
    var half := |ids| / 2;
    for i := 0 to half
      invariant |ids| == |padded|
      invariant forall j :: 0 <= j < i ==> ids[j] == PairUp(h, level)[j]
      invariant forall j :: i <= j < |ids| ==> ids[j] == padded[j]
    {
      ids := ids[i := h(ids[2 * i], ids[2 * i + 1])];
    }
    ids := ids[..half];
  }

  /** The loop over the levels computes the root. */
  method FullMerkle<D>(h: (D, D) -> D, zero: D, leaves: seq<D>) returns (root: D)
    ensures root == if leaves == [] then zero else Root(h, leaves)
  {
    if |leaves| == 0 { return zero; }
    var ids := leaves;
    while |ids| > 1
      invariant |ids| > 0 && Root(h, ids) == Root(h, leaves)
      decreases |ids|
    {
      ids := PairLevel(h, ids);
    }
    root := ids[0];
  }

  // ----- The tree of a list and one more leaf -----

  /** Neighbours combined, an odd last node left out: the nodes that no later leaf can change. */
  function FullPairs<D>(h: (D, D) -> D, full: seq<D>): (r: seq<D>)
    ensures |r| == |full| / 2
  {
    seq(|full| / 2, i requires 0 <= i < |full| / 2 => h(full[2 * i], full[2 * i + 1]))
  }

  /** The node above `top`, which stands to the right of `full`. */
  function Above<D>(h: (D, D) -> D, full: seq<D>, top: D): D
  {
    if |full| % 2 == 0 then h(top, top) else h(full[|full| - 1], top)
  }

  lemma PairUpAppend<D>(h: (D, D) -> D, full: seq<D>, top: D)
    ensures PairUp(h, full + [top]) == FullPairs(h, full) + [Above(h, full, top)]
  {
    var a, b := PairUp(h, full + [top]), FullPairs(h, full) + [Above(h, full, top)];
    assert |a| == |b|;
    forall i | 0 <= i < |a| ensures a[i] == b[i] {
      if i < |full| / 2 {
        assert (full + [top])[2 * i] == full[2 * i] && (full + [top])[2 * i + 1] == full[2 * i + 1];
      }
    }
  }

  lemma RootAppend<D>(h: (D, D) -> D, full: seq<D>, top: D)
    ensures full == [] ==> Root(h, full + [top]) == top
    ensures full != [] ==> Root(h, full + [top]) == Root(h, FullPairs(h, full) + [Above(h, full, top)])
  {
    PairUpAppend(h, full, top);
  }

  /** The left siblings that appending a leaf after `full` meets on its way up. */
  function Lefts<D>(h: (D, D) -> D, full: seq<D>): (r: seq<D>)
    decreases |full|
  {
    if full == [] then []
    else (if |full| % 2 == 1 then [full[|full| - 1]] else []) + Lefts(h, FullPairs(h, full))
  }

  /** What a level keeps for later appends. */
  function KeptAt<D>(full: seq<D>, top: D, partial: bool): seq<D>
    requires full != []
  {
    if |full| % 2 == 0 then (if partial then [] else [top]) else (if partial then [full[|full| - 1]] else [])
  }

  /** The active nodes that appending `top` after `full` leaves; `partial` says that `top` already
      has an implied right half. */
  function ActiveAfter<D>(h: (D, D) -> D, full: seq<D>, top: D, partial: bool): (r: seq<D>)
    decreases |full|
  {
    if full == [] then [top]
    else KeptAt(full, top, partial)
         + ActiveAfter(h, FullPairs(h, full), Above(h, full, top), partial || |full| % 2 == 0)
  }

  /** Once a partial node has been met, every left sibling is kept and the root comes last. */
  lemma {:induction false} PartialKeepsLefts<D>(h: (D, D) -> D, full: seq<D>, top: D)
    ensures ActiveAfter(h, full, top, true) == Lefts(h, full) + [Root(h, full + [top])]
    decreases |full|
  {
    RootAppend(h, full, top);
    if full != [] {
      PartialKeepsLefts(h, FullPairs(h, full), Above(h, full, top));
    }
  }

  lemma FullPairsAppend<D>(h: (D, D) -> D, full: seq<D>, top: D)
    ensures FullPairs(h, full + [top]) ==
              FullPairs(h, full) + if |full| % 2 == 0 then [] else [Above(h, full, top)]
  {
    var a := FullPairs(h, full + [top]);
    var b := FullPairs(h, full) + if |full| % 2 == 0 then [] else [Above(h, full, top)];
    assert |a| == |b|;
    forall i | 0 <= i < |a| ensures a[i] == b[i] {
      if i < |full| / 2 {
        assert (full + [top])[2 * i] == full[2 * i] && (full + [top])[2 * i + 1] == full[2 * i + 1];
      }
    }
  }

  lemma LeftsUnfold<D>(h: (D, D) -> D, full: seq<D>)
    requires full != []
    ensures |full| % 2 == 0 ==> Lefts(h, full) == Lefts(h, FullPairs(h, full))
    ensures |full| % 2 == 1 ==> Lefts(h, full) == [full[|full| - 1]] + Lefts(h, FullPairs(h, full))
  {
    assert [] + Lefts(h, FullPairs(h, full)) == Lefts(h, FullPairs(h, full));
  }

  lemma LeftsAppend<D>(h: (D, D) -> D, full: seq<D>, top: D)
    ensures |full| % 2 == 0 ==> Lefts(h, full + [top]) == [top] + Lefts(h, FullPairs(h, full))
    ensures |full| % 2 == 1 ==>
              Lefts(h, full + [top]) == Lefts(h, FullPairs(h, full) + [Above(h, full, top)])
  {
    FullPairsAppend(h, full, top);
    var longer, pairs := full + [top], FullPairs(h, full);
    assert |longer| == |full| + 1 && longer[|full|] == top;
    LeftsUnfold(h, longer);
    if |full| % 2 == 0 {
      assert FullPairs(h, longer) == pairs + [] == pairs;
    }
  }

  /** What an append leaves starts with the left siblings the next one needs and ends with the
      root. */
  lemma {:induction false} ActiveReady<D>(h: (D, D) -> D, full: seq<D>, top: D)
    ensures var r := ActiveAfter(h, full, top, false);
            && Lefts(h, full + [top]) <= r
            && r != [] && r[|r| - 1] == Root(h, full + [top])
    decreases |full|
  {
    RootAppend(h, full, top);
    if full == [] {
      LeftsAppend(h, full, top);
    } else if |full| % 2 == 0 {
      LeftsAppend(h, full, top);
      PartialKeepsLefts(h, FullPairs(h, full), Above(h, full, top));
    } else {
      LeftsAppend(h, full, top);
      ActiveReady(h, FullPairs(h, full), Above(h, full, top));
    }
  }

  // ----- Depth -----

  /** An append leaves no more nodes than there are levels, and the root. */
  lemma {:induction false} FewActive<D>(h: (D, D) -> D, full: seq<D>, top: D, partial: bool)
    ensures |ActiveAfter(h, full, top, partial)| <= Levels(|full|) + 1
    decreases |full|
  {
    if full != [] {
      FewActive(h, FullPairs(h, full), Above(h, full, top), partial || |full| % 2 == 0);
    }
  }

  /** One level of the climb. `rest` is what has not been consumed of the old active nodes. */
  lemma ClimbStep<D>(h: (D, D) -> D, full: seq<D>, top: D, partial: bool, updated: seq<D>, rest: seq<D>)
    requires full != [] && Lefts(h, full) <= rest
    ensures (if KeptAt(full, top, partial) == [] then updated else updated + KeptAt(full, top, partial))
            + ActiveAfter(h, FullPairs(h, full), Above(h, full, top), partial || |full| % 2 == 0)
            == updated + ActiveAfter(h, full, top, partial)
    ensures |full| % 2 == 0 ==> Lefts(h, FullPairs(h, full)) <= rest
    ensures |full| % 2 == 1 ==>
              rest != [] && rest[0] == full[|full| - 1] && Lefts(h, FullPairs(h, full)) <= rest[1..]
  {
    LeftsUnfold(h, full);
    var later := ActiveAfter(h, FullPairs(h, full), Above(h, full, top), partial || |full| % 2 == 0);
    assert ActiveAfter(h, full, top, partial) == KeptAt(full, top, partial) + later;
    assert updated + KeptAt(full, top, partial) + later == updated + (KeptAt(full, top, partial) + later);
    assert [] + later == later;
  }

  // ----- The incremental tree -----

  method LevelsToClimb(count: nat) returns (depth: int)
    requires count < TWO_64
    ensures depth == Levels(count)
  {
    DepthIsLevels(count);
    depth := MaxDepth(count + 1) - 1;
  }

  /** The climb from the new leaf to the root, reading left siblings off the old active nodes and
      collecting the new ones. */
  method Climb<D>(h: (D, D) -> D, count: nat, levels: int, active: seq<D>, digest: D, ghost leaves: seq<D>)
    returns (updated: seq<D>)
    requires count == |leaves| && levels == Levels(count) && Lefts(h, leaves) <= active
    ensures updated == ActiveAfter(h, leaves, digest, false)
  {
    var partial := false;
    var depth := levels;
    var index := count;
    var top := digest;
    var next := 0;
    updated := [];
    ghost var full := leaves;
    while depth > 0
      invariant depth == Levels(index) && index == |full|
      invariant 0 <= next <= |active| && Lefts(h, full) <= active[next..]
      invariant updated + ActiveAfter(h, full, top, partial) == ActiveAfter(h, leaves, digest, false)
      decreases depth
    {
      ClimbStep(h, full, top, partial, updated, active[next..]);
      ghost var higher := FullPairs(h, full);
      if index % 2 == 0 {
        if !partial { updated := updated + [top]; }
        top := h(top, top);
        partial := true;
      } else {
        var left := active[next];
        assert active[next..][1..] == active[next + 1..];
        next := next + 1;
        if partial { updated := updated + [left]; }
        top := h(left, top);
      }
      full := higher;
      depth := depth - 1;
      index := index / 2;
    }
    updated := updated + [top];
  }

  /** Keeps the node count and the active nodes; everything else is recomputed on the way up. */
  class IncrementalMerkle<D> {
    const h: (D, D) -> D
    const zero: D
    var nodeCount: nat
    var activeNodes: seq<D>

    /** The object stands for the tree over `leaves`, with no more nodes than the tree has levels and
        one more. */
    ghost predicate StandsFor(leaves: seq<D>)
      reads this
    {
      && nodeCount == |leaves| < TWO_64
      && Lefts(h, leaves) <= activeNodes
      && (leaves != [] ==> activeNodes != [] && activeNodes[|activeNodes| - 1] == Root(h, leaves))
      && |activeNodes| <= Levels(|leaves|) + 1
    }

    constructor (h: (D, D) -> D, zero: D)
      ensures this.h == h && this.zero == zero && StandsFor([])
    {
      this.h, this.zero, this.nodeCount, this.activeNodes := h, zero, 0, [];
    }

    /** Appending a leaf costs one pass up the tree and gives the tree over one more leaf. */
    method Append(digest: D, ghost leaves: seq<D>) returns (root: D)
      requires StandsFor(leaves) && nodeCount + 1 < TWO_64
      modifies this
      ensures StandsFor(leaves + [digest])
      ensures root == Root(h, leaves + [digest])
    {
      var depth := LevelsToClimb(nodeCount);
      var updated := Climb(h, nodeCount, depth, activeNodes, digest, leaves);
      ActiveReady(h, leaves, digest);
      FewActive(h, leaves, digest, false);
      LevelsGrow(|leaves|);
      activeNodes := updated;
      nodeCount := nodeCount + 1;
      root := activeNodes[|activeNodes| - 1];
    }

    method GetRoot(ghost leaves: seq<D>) returns (root: D)
      requires StandsFor(leaves)
      ensures root == if leaves == [] then zero else Root(h, leaves)
    {
      root := if nodeCount > 0 then activeNodes[|activeNodes| - 1] else zero;
    }
  }

  /** Appending the leaves one by one gives the root of the full tree, for any number of leaves
      that the 64-bit counter can hold. */
  method IncrementalRoot<D>(h: (D, D) -> D, zero: D, leaves: seq<D>) returns (root: D)
    requires |leaves| < TWO_64
    ensures root == if leaves == [] then zero else Root(h, leaves)
  {
    var tree := new IncrementalMerkle(h, zero);
    ghost var done: seq<D> := [];
    for i := 0 to |leaves|
      invariant tree.h == h && tree.zero == zero && tree.StandsFor(done)
      invariant done == leaves[..i]
    {
      var _ := tree.Append(leaves[i], done);
      done := done + [leaves[i]];
    }
    assert done == leaves;
    root := tree.GetRoot(done);
  }
}
