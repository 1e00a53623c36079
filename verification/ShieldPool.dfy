/** Client of the Kusama Shield pool (web/src/shieldpool.ts): a note keeps the left
    half of its Merkle path from the day it was inserted, and rebuilds the right half
    from the leaves inserted since.  */
module ShieldPool {
  import opened Poseidon
  import opened Powers
  import opened LeanImt
  import opened Wrappers

  /** Levels of the pool's tree. */
  const DEPTH: nat := 128

  datatype Note = Note(nullifier: nat, secret: nat, value: nat, asset: Option<nat>)
  {
    /** An omitted asset is native. */
    function AssetOf(): nat {
      if asset.Some? then asset.value else 0
    }

    function Commitment(): Field {
      Node(Node(Num(value), Num(AssetOf())), Node(Num(nullifier), Num(secret)))
    }
  }

  /** Two asset fields that mean one asset: an omitted one is native, and so is 0. */
  ghost predicate SameAsset(a: Option<nat>, b: Option<nat>) {
    a == b || {a, b} == {None, Some(0)}
  }

  ghost predicate SameNote(a: Note, b: Note) {
    a.value == b.value && SameAsset(a.asset, b.asset) && a.nullifier == b.nullifier && a.secret == b.secret
  }

  /** A commitment binds value, asset, nullifier and secret, and nothing else. */
  lemma CommitmentBinds(a: Note, b: Note)
    ensures a.Commitment() == b.Commitment() <==> SameNote(a, b)
  {
    assert a.AssetOf() == b.AssetOf() <==> SameAsset(a.asset, b.asset) by {
      if a.asset != b.asset && a.AssetOf() == b.AssetOf() {
        assert {a.asset, b.asset} == {None, Some(0)};
      }
      if {a.asset, b.asset} == {None, Some(0)} {
        assert a.asset in {None, Some(0)} && b.asset in {None, Some(0)};
      }
    }
  }

  /** Where the four stand in the leaf. */
  lemma CommitmentOf(value: nat, asset: nat, nullifier: nat, secret: nat)
    ensures Note(nullifier, secret, value, Some(asset)).Commitment()
         == Node(Node(Num(value), Num(asset)), Node(Num(nullifier), Num(secret)))
  {
  }

  /** Where a note sits: its leaf index and the side nodes at the set bits of that index. */
  datatype NotePath = NotePath(index: nat, leftSnapshot: map<nat, Field>)

  /** First slot of the block to the right of index's block at level `lv`. */
  function RightStart(index: nat, lv: nat): nat {
    (index / Pow2(lv) + 1) * Pow2(lv)
  }

  // ---- left half: snapshots -----------------------------------------------

  ghost function LeftSnapshot(index: nat, side: seq<Field>): map<nat, Field> {
    map lv | 0 <= lv < |side| && Bit(index, lv) :: side[lv]
  }

  /** The capture loop, run over side nodes read from the pool. */
  method CaptureSnapshot(index: nat, side: seq<Field>) returns (snapshot: map<nat, Field>)
    ensures snapshot == LeftSnapshot(index, side)
    ensures forall lv :: lv in snapshot <==> 0 <= lv < |side| && Bit(index, lv)
    ensures forall lv :: lv in snapshot ==> snapshot[lv] == side[lv]
  {
    snapshot := map[];
    for lv := 0 to |side|
      invariant snapshot == map l | 0 <= l < lv && Bit(index, l) :: side[l]
    {
      if Bit(index, lv) {
        snapshot := snapshot[lv := side[lv]];
      }
    }
  }

  /** The replay of one pool insert, in place on the side nodes. */
  method InsertLeaf(side: array<Field>, index: nat, leaf: Field) returns (node: Field)
    modifies side
    ensures side[..] == Insert(index, old(side[..]), leaf)
    ensures node == Climb(index, old(side[..]), leaf, side.Length)
  {
    node := leaf;
    ghost var was := side[..];
    for lv := 0 to side.Length
      invariant node == Climb(index, was, leaf, lv)
      invariant forall l :: 0 <= l < lv ==> side[l] == Insert(index, was, leaf)[l]
      invariant forall l :: lv <= l < side.Length ==> side[l] == was[l]
    {
      if Bit(index, lv) {
        if side[lv] != ZERO {
          node := Node(side[lv], node);
        }
      } else {
        side[lv] := node;
      }
    }
  }

  /** Side nodes after inserting `cs` at `start`, `start + 1`, ... */
  ghost function BatchSide(start: nat, side: seq<Field>, cs: seq<Field>): (side': seq<Field>)
    ensures |side'| == |side|
    decreases |cs|
  {
    if cs == [] then side else BatchSide(start + 1, Insert(start, side, cs[0]), cs[1..])
  }

  /** The path of every batch member: each snapshot is taken from the side nodes as they
      stand when its turn comes. */
  ghost function BatchPaths(start: nat, side: seq<Field>, cs: seq<Field>): (paths: seq<NotePath>)
    ensures |paths| == |cs|
    decreases |cs|
  {
    if cs == [] then []
    else [NotePath(start, LeftSnapshot(start, side))] + BatchPaths(start + 1, Insert(start, side, cs[0]), cs[1..])
  }

  /** Side nodes from a published record, absent levels read as 0. */
  ghost function SideOf(published: map<nat, Field>): seq<Field> {
    seq(DEPTH, lv => if lv in published then published[lv] else ZERO)
  }

  lemma {:induction false} BatchNone(start: nat, side: seq<Field>)
    ensures BatchSide(start, side, []) == side && BatchPaths(start, side, []) == []
  {
  }

  method BatchNotePaths(startIndex: nat, preSideNodes: map<nat, Field>, commitments: seq<Field>)
    returns (paths: seq<NotePath>)
    ensures paths == BatchPaths(startIndex, SideOf(preSideNodes), commitments)
  {
    hide BatchSide, BatchPaths, Insert, Climb, LeftSnapshot;
    var side := new Field[DEPTH](lv => if lv in preSideNodes then preSideNodes[lv] else ZERO);
    ghost var pre := SideOf(preSideNodes);
    assert side[..] == pre;
    BatchNone(startIndex, pre);
    assert commitments[..0] == [];
    paths := [];
    for k := 0 to |commitments|
      invariant side[..] == BatchSide(startIndex, pre, commitments[..k])
      invariant paths == BatchPaths(startIndex, pre, commitments[..k])
    {
      var index := startIndex + k;
      BatchStep(startIndex, pre, commitments, k);
      var leftSnapshot := CaptureSnapshot(index, side[..]);
      var _ := InsertLeaf(side, index, commitments[k]);
      paths := paths + [NotePath(index, leftSnapshot)];
    }
    assert commitments[..|commitments|] == commitments;
  }

  lemma {:induction false} BatchStep(start: nat, side: seq<Field>, cs: seq<Field>, k: nat)
    requires k < |cs|
    ensures BatchSide(start, side, cs[..k + 1]) == Insert(start + k, BatchSide(start, side, cs[..k]), cs[k])
    ensures BatchPaths(start, side, cs[..k + 1])
         == BatchPaths(start, side, cs[..k]) + [NotePath(start + k, LeftSnapshot(start + k, BatchSide(start, side, cs[..k])))]
  {
    BatchSplits(start, side, cs[..k], [cs[k]]);
    assert cs[..k] + [cs[k]] == cs[..k + 1];
    var before := BatchSide(start, side, cs[..k]);
    assert BatchSide(start + k, before, [cs[k]]) == Insert(start + k, before, cs[k]);
    assert BatchPaths(start + k, before, [cs[k]]) == [NotePath(start + k, LeftSnapshot(start + k, before))];
  }

  /** Replaying a ++ b is replaying a, then b from the side nodes a leaves behind. */
  lemma {:induction false} BatchSplits(start: nat, side: seq<Field>, a: seq<Field>, b: seq<Field>)
    ensures BatchSide(start, side, a + b) == BatchSide(start + |a|, BatchSide(start, side, a), b)
    ensures BatchPaths(start, side, a + b)
         == BatchPaths(start, side, a) + BatchPaths(start + |a|, BatchSide(start, side, a), b)
    decreases |a|
  {
    if a == [] {
      assert a + b == b;
    } else {
      hide Insert, LeftSnapshot, Climb;
      assert (a + b)[1..] == a[1..] + b;
      BatchSplits(start + 1, Insert(start, side, a[0]), a[1..], b);
    }
  }

  /** A member's path comes from the side nodes as the members before it left them. */
  lemma {:induction false} BatchMember(start: nat, side: seq<Field>, cs: seq<Field>, k: nat)
    requires k < |cs|
    ensures BatchPaths(start, side, cs)[k]
         == NotePath(start + k, LeftSnapshot(start + k, BatchSide(start, side, cs[..k])))
  {
    BatchStep(start, side, cs, k);
    BatchSplits(start, side, cs[..k + 1], cs[k + 1..]);
    assert cs[..k + 1] + cs[k + 1..] == cs;
  }

  /** Replaying a batch over the pool's own side nodes follows the pool. */
  lemma {:induction false} BatchFollowsPool(depth: nat, leaves: seq<Field>, cs: seq<Field>)
    ensures BatchSide(|leaves|, SideAfter(depth, leaves), cs) == SideAfter(depth, leaves + cs)
    decreases |cs|
  {
    if cs == [] {
      assert leaves + cs == leaves;
    } else {
      var next := leaves + [cs[0]];
      assert next[..|leaves|] == leaves;
      BatchFollowsPool(depth, next, cs[1..]);
      assert next + cs[1..] == leaves + cs;
    }
  }

  /** `path` locates the leaf that was inserted right after `before`. */
  ghost predicate Located(depth: nat, path: NotePath, before: seq<Field>) {
    path.index == |before| && path.leftSnapshot == LeftSnapshot(|before|, SideAfter(depth, before))
  }

  /** Reading the side nodes after one's own deposit, or for a change note that is the last
      leaf, gives the path of that leaf. */
  lemma {:induction false} OwnReadLocated(depth: nat, before: seq<Field>, leaf: Field)
    ensures Located(depth, NotePath(|before|, LeftSnapshot(|before|, SideAfter(depth, before + [leaf]))), before)
  {
    var side := SideAfter(depth, before);
    assert (before + [leaf])[..|before|] == before;
    assert SideAfter(depth, before + [leaf]) == Insert(|before|, side, leaf);
  }

  /** Replaying a batch from the side nodes before it gives every member that same path. */
  lemma {:induction false} BatchLocated(depth: nat, before: seq<Field>, cs: seq<Field>, k: nat)
    requires k < |cs|
    ensures Located(depth, BatchPaths(|before|, SideAfter(depth, before), cs)[k], before + cs[..k])
  {
    ghost var soFar := cs[..k];
    BatchMember(|before|, SideAfter(depth, before), cs, k);
    BatchFollowsPool(depth, before, soFar);
    assert |before + soFar| == |before| + k;
  }

  /** A record of the pool's side nodes: every node that is not 0 is there, and nothing else
      but zeros. */
  ghost predicate Publishes(published: map<nat, Field>, side: seq<Field>) {
    forall lv :: 0 <= lv < |side| ==>
      (if side[lv] != ZERO then lv in published && published[lv] == side[lv] else lv in published ==> published[lv] == ZERO)
  }

  /** From a published record of the side nodes before a batch, every member gets the path
      it would have got by itself. */
  lemma {:induction false} PublishedLocated(before: seq<Field>, published: map<nat, Field>, cs: seq<Field>, k: nat)
    requires k < |cs| && Publishes(published, SideAfter(DEPTH, before))
    ensures Located(DEPTH, BatchPaths(|before|, SideOf(published), cs)[k], before + cs[..k])
  {
    assert SideOf(published) == SideAfter(DEPTH, before);
    BatchLocated(DEPTH, before, cs, k);
  }

  /** The first member's snapshot, read straight off the record. */
  lemma {:induction false} FirstOfBatch(start: nat, published: map<nat, Field>, cs: seq<Field>, lv: nat)
    requires cs != [] && lv < DEPTH && Bit(start, lv)
    ensures var snapshot := BatchPaths(start, SideOf(published), cs)[0].leftSnapshot;
      lv in snapshot && snapshot[lv] == if lv in published then published[lv] else ZERO
  {
  }

  /** The storage slot behind a captured value is reused: no insert from `i` up to `m - 1`
      writes level `lv` exactly while `m` has not passed the end of i's block. */
  lemma SlotKeptExactly(i: nat, lv: nat, m: nat)
    requires Bit(i, lv) && i <= m
    ensures (forall j :: i <= j < m ==> Bit(j, lv)) <==> m <= RightStart(i, lv)
  {
    BlockEnds(i, lv);
    if m <= RightStart(i, lv) {
      forall j | i <= j < m ensures Bit(j, lv) {
        SameBlock(i, j, lv);
      }
    } else {
      ClearAt(Pow2(lv), i / Pow2(lv) + 1, lv);
      assert i <= RightStart(i, lv) < m && !Bit(RightStart(i, lv), lv);
    }
  }

  lemma {:induction false} BlockEnds(i: nat, lv: nat)
    ensures i / Pow2(lv) * Pow2(lv) <= i < RightStart(i, lv)
  {
  }

  lemma SameBlock(i: nat, j: nat, lv: nat)
    requires i <= j < RightStart(i, lv)
    ensures Bit(j, lv) == Bit(i, lv)
  {
    BlockEnds(i, lv);
    DivUnique(j, Pow2(lv), i / Pow2(lv));
  }

  lemma {:induction false} ClearAt(d: nat, q: nat, lv: nat)
    requires d == Pow2(lv) && q % 2 == 0
    ensures !Bit(q * d, lv)
  {
    MulMono(q, q + 1, d);
    assert (q + 1) * d == q * d + d;
    DivUnique(q * d, d, q);
  }

  /** Leaves a, b, c: the note at index 1 captured side node 0 as `a`; it now reads `c`. */
  lemma {:induction false} SlotIsReused(depth: nat, a: Field, b: Field, c: Field)
    requires depth > 0
    ensures LeftSnapshot(1, SideAfter(depth, [a, b])) == LeftSnapshot(1, SideAfter(depth, [a]))
    ensures Bit(1, 0) && SideAfter(depth, [a, b])[0] == a && SideAfter(depth, [a, b, c])[0] == c
  {
    var s1, s2 := SideAfter(depth, [a]), SideAfter(depth, [a, b]);
    assert [a, b][..1] == [a] && [a, b, c][..2] == [a, b] && [a][..0] == [];
    assert Bit(1, 0) && !Bit(0, 0) && !Bit(2, 0);
    assert s2 == Insert(1, s1, b) && SideAfter(depth, [a, b, c]) == Insert(2, s2, c);
  }

  // ---- right half: later leaves -------------------------------------------

  /** Root of slots [start, start + 2^lv) of a sparse leaf map, None when empty. */
  function SubtreeRoot(leaves: map<nat, Field>, lv: nat, start: nat, maxIdx: int): Option<Field> {
    if start > maxIdx then None
    else if lv == 0 then
      if start in leaves then Some(leaves[start]) else None
    else
      var half := Pow2(lv - 1);
      var l := SubtreeRoot(leaves, lv - 1, start, maxIdx);
      var r := SubtreeRoot(leaves, lv - 1, start + half, maxIdx);
      if l.Some? && r.Some? then Some(Node(l.value, r.value))
      else if l.Some? then l
      else None
  }

  /** A subtree is found exactly when its first slot is known and not past the last leaf: a
      lone right child is not promoted. */
  lemma {:induction false} SubtreeFound(leaves: map<nat, Field>, lv: nat, start: nat, maxIdx: int)
    ensures SubtreeRoot(leaves, lv, start, maxIdx).Some? <==> start <= maxIdx && start in leaves
  {
    if lv > 0 {
      SubtreeFound(leaves, lv - 1, start, maxIdx);
    }
  }

  function OrZero(o: Option<Field>): Field {
    if o.Some? then o.value else ZERO
  }

  function SiblingAt(index: nat, leftSnapshot: map<nat, Field>, right: map<nat, Field>, maxIdx: int, lv: nat): Field {
    if Bit(index, lv) then
      if lv in leftSnapshot then leftSnapshot[lv] else ZERO
    else OrZero(SubtreeRoot(right, lv, RightStart(index, lv), maxIdx))
  }

  ghost function PathOf(depth: nat, index: nat, leftSnapshot: map<nat, Field>, right: map<nat, Field>, maxIdx: int): (path: seq<Field>)
    ensures |path| == depth
  {
    seq(depth, lv requires 0 <= lv => SiblingAt(index, leftSnapshot, right, maxIdx, lv))
  }

  method AuthPath(index: nat, leftSnapshot: map<nat, Field>, rightLeaves: map<nat, Field>, maxIdx: int)
    returns (siblings: seq<Field>)
    ensures siblings == PathOf(DEPTH, index, leftSnapshot, rightLeaves, maxIdx) && |siblings| == 128
    ensures forall lv :: 0 <= lv < DEPTH && Bit(index, lv) && lv !in leftSnapshot ==> siblings[lv] == ZERO
  {
    siblings := [];
    for lv := 0 to DEPTH
      invariant siblings == PathOf(lv, index, leftSnapshot, rightLeaves, maxIdx)
    {
      if Bit(index, lv) {
        siblings := siblings + [if lv in leftSnapshot then leftSnapshot[lv] else ZERO];
      } else {
        var start := (index / Pow2(lv) + 1) * Pow2(lv);
        var r := SubtreeRoot(rightLeaves, lv, start, maxIdx);
        siblings := siblings + [if r.None? then ZERO else r.value];
      }
    }
  }

  /** Slots [base, base + 2^lv) of a leaf sequence. */
  function Block(all: seq<Field>, base: nat, lv: nat): (s: seq<Field>)
    requires base <= |all|
    ensures |s| <= Pow2(lv) && (base < |all| ==> s != [])
  {
    if base + Pow2(lv) <= |all| then all[base..base + Pow2(lv)] else all[base..]
  }

  ghost predicate KnowsFrom(right: map<nat, Field>, all: seq<Field>, i: nat) {
    forall j :: i <= j < |all| ==> j in right && right[j] == all[j]
  }

  lemma BlockHalves(all: seq<Field>, base: nat, lv: nat)
    requires lv > 0 && base < |all|
    ensures base + Pow2(lv - 1) < |all| ==>
      && Pow2(lv - 1) < |Block(all, base, lv)|
      && Block(all, base, lv - 1) == Block(all, base, lv)[..Pow2(lv - 1)]
      && Block(all, base + Pow2(lv - 1), lv - 1) == Block(all, base, lv)[Pow2(lv - 1)..]
    ensures base + Pow2(lv - 1) >= |all| ==>
      |Block(all, base, lv)| <= Pow2(lv - 1) && Block(all, base, lv - 1) == Block(all, base, lv)
  {
  }

  lemma {:induction false} SubtreeStep(leaves: map<nat, Field>, lv: nat, start: nat, maxIdx: int)
    requires lv > 0 && start <= maxIdx
    ensures var l, r := SubtreeRoot(leaves, lv - 1, start, maxIdx), SubtreeRoot(leaves, lv - 1, start + Pow2(lv - 1), maxIdx);
      SubtreeRoot(leaves, lv, start, maxIdx)
      == if l.Some? && r.Some? then Some(Node(l.value, r.value)) else if l.Some? then l else None
  {
  }

  lemma {:induction false} SubtreeEnds(right: map<nat, Field>, all: seq<Field>, i: nat, lv: nat, start: nat)
    requires KnowsFrom(right, all, i) && i <= start
    ensures start >= |all| ==> SubtreeRoot(right, lv, start, |all| - 1) == None
    ensures start < |all| ==> SubtreeRoot(right, 0, start, |all| - 1) == Some(Root(0, Block(all, start, 0)))
  {
  }

  lemma {:induction false} SubtreeInner(right: map<nat, Field>, all: seq<Field>, lv: nat, start: nat)
    requires lv > 0 && start < |all|
    requires SubtreeRoot(right, lv - 1, start, |all| - 1) == Some(Root(lv - 1, Block(all, start, lv - 1)))
    requires SubtreeRoot(right, lv - 1, start + Pow2(lv - 1), |all| - 1)
          == if start + Pow2(lv - 1) >= |all| then None
             else Some(Root(lv - 1, Block(all, start + Pow2(lv - 1), lv - 1)))
    ensures SubtreeRoot(right, lv, start, |all| - 1) == Some(Root(lv, Block(all, start, lv)))
  {
    hide SubtreeRoot, Root, Block, Pow2;
    BlockHalves(all, start, lv);
    SubtreeStep(right, lv, start, |all| - 1);
    RootStep(lv, Block(all, start, lv));
  }

  /** The sparse recursion gives the tree's own root of a block. */
  lemma {:induction false} SubtreeRootIsRoot(right: map<nat, Field>, all: seq<Field>, i: nat, lv: nat, start: nat)
    requires KnowsFrom(right, all, i) && i <= start
    ensures SubtreeRoot(right, lv, start, |all| - 1)
         == if start >= |all| then None else Some(Root(lv, Block(all, start, lv)))
  {
    hide SubtreeRoot, Root, KnowsFrom, Block, Pow2;
    if start >= |all| || lv == 0 {
      SubtreeEnds(right, all, i, lv, start);
    } else {
      SubtreeRootIsRoot(right, all, i, lv - 1, start);
      SubtreeRootIsRoot(right, all, i, lv - 1, start + Pow2(lv - 1));
      SubtreeInner(right, all, lv, start);
    }
  }

  lemma {:induction false} RightStartInBlock(i: nat, base: nat, m: nat, lv: nat)
    requires base == m * Pow2(lv) && base <= i < base + Pow2(lv)
    ensures RightStart(i, lv) == base + Pow2(lv)
  {
    DivUnique(i, Pow2(lv), m);
  }

  lemma {:induction false} BlockBits(i: nat, base: nat, k: nat, lv: nat)
    requires base == k * Pow2(lv) && base <= i
    ensures SameBits(i, i - base, lv)
  {
    forall l | 0 <= l < lv ensures Bit(i, l) == Bit(i - base, l) {
      LowBit(i - base, k, lv, l);
    }
  }

  lemma HalfBase(k: nat, lv: nat)
    requires lv > 0
    ensures k * Pow2(lv) == (2 * k) * Pow2(lv - 1)
    ensures k * Pow2(lv) + Pow2(lv - 1) == (2 * k + 1) * Pow2(lv - 1)
  {
    var half := Pow2(lv - 1);
    assert k * (2 * half) == (2 * k) * half;
    assert (2 * k + 1) * half == (2 * k) * half + half;
  }

  /** At clear bits of `i` the siblings rebuilt from later leaves are the given ones. */
  ghost predicate RebuiltRight(right: map<nat, Field>, n: nat, i: nat, siblings: seq<Field>) {
    forall l :: 0 <= l < |siblings| && !Bit(i, l) ==>
      OrZero(SubtreeRoot(right, l, RightStart(i, l), n - 1)) == siblings[l]
  }

  lemma {:induction false} GrowRebuilt(right: map<nat, Field>, n: nat, i: nat, lower: seq<Field>, top: Field)
    requires RebuiltRight(right, n, i, lower)
    requires Bit(i, |lower|) || OrZero(SubtreeRoot(right, |lower|, RightStart(i, |lower|), n - 1)) == top
    ensures RebuiltRight(right, n, i, lower + [top])
  {
  }

  /** Going down one level from an aligned block that holds `i`. */
  lemma Descend(i: nat, lv: nat, base: nat, k: nat)
    requires lv > 0 && base == k * Pow2(lv) && base <= i < base + Pow2(lv)
    ensures base == (2 * k) * Pow2(lv - 1) && base + Pow2(lv - 1) == (2 * k + 1) * Pow2(lv - 1)
    ensures Bit(i, lv - 1) <==> i - base >= Pow2(lv - 1)
    ensures i - base < Pow2(lv - 1) ==> RightStart(i, lv - 1) == base + Pow2(lv - 1)
  {
    BlockBits(i, base, k, lv);
    HalfBits(i, i - base, lv);
    HalfBase(k, lv);
    if i - base < Pow2(lv - 1) {
      RightStartInBlock(i, base, 2 * k, lv - 1);
    }
  }

  lemma HighHalf(right: map<nat, Field>, all: seq<Field>, i: nat, lv: nat, base: nat)
    requires lv > 0 && base + Pow2(lv - 1) <= i < |all| && i < base + Pow2(lv) && Bit(i, lv - 1)
    requires RebuiltRight(right, |all|, i,
               Siblings(lv - 1, Block(all, base + Pow2(lv - 1), lv - 1), i - base - Pow2(lv - 1)))
    ensures RebuiltRight(right, |all|, i, Siblings(lv, Block(all, base, lv), i - base))
  {
    var half, s, r := Pow2(lv - 1), Block(all, base, lv), i - base;
    BlockHalves(all, base, lv);
    GrowRebuilt(right, |all|, i, Siblings(lv - 1, s[half..], r - half), Root(lv - 1, s[..half]));
  }

  lemma {:induction false} LowHalf(right: map<nat, Field>, all: seq<Field>, i: nat, lv: nat, base: nat)
    requires lv > 0 && base <= i < |all| && i < base + Pow2(lv - 1) && KnowsFrom(right, all, i)
    requires RightStart(i, lv - 1) == base + Pow2(lv - 1)
    requires RebuiltRight(right, |all|, i, Siblings(lv - 1, Block(all, base, lv - 1), i - base))
    ensures RebuiltRight(right, |all|, i, Siblings(lv, Block(all, base, lv), i - base))
  {
    hide Siblings, SubtreeRoot, Root, RebuiltRight, KnowsFrom, RightStart;
    var half, s, lower := Pow2(lv - 1), Block(all, base, lv), Siblings(lv - 1, Block(all, base, lv - 1), i - base);
    BlockHalves(all, base, lv);
    SiblingsStep(lv, s, i - base);
    SubtreeRootIsRoot(right, all, i, lv - 1, base + half);
    GrowRebuilt(right, |all|, i, lower, if |s| > half then Root(lv - 1, s[half..]) else ZERO);
  }

  lemma {:induction false} RightSiblings(right: map<nat, Field>, all: seq<Field>, i: nat, lv: nat, base: nat, k: nat)
    requires i < |all| && KnowsFrom(right, all, i)
    requires base == k * Pow2(lv) && base <= i < base + Pow2(lv)
    ensures RebuiltRight(right, |all|, i, Siblings(lv, Block(all, base, lv), i - base))
  {
    if lv > 0 {
      Descend(i, lv, base, k);
      if i - base >= Pow2(lv - 1) {
        RightSiblings(right, all, i, lv - 1, base + Pow2(lv - 1), 2 * k + 1);
        HighHalf(right, all, i, lv, base);
      } else {
        RightSiblings(right, all, i, lv - 1, base, 2 * k);
        LowHalf(right, all, i, lv, base);
      }
    }
  }

  /** Stitching: a path captured at insertion plus the leaves from it on give the leaf's
      siblings in the tree of all leaves, whatever was inserted since. */
  lemma {:induction false} StitchedPath(depth: nat, all: seq<Field>, path: NotePath, right: map<nat, Field>)
    requires NonZero(all) && path.index < |all| <= Pow2(depth)
    requires Located(depth, path, all[..path.index]) && KnowsFrom(right, all, path.index)
    ensures PathOf(depth, path.index, path.leftSnapshot, right, |all| - 1) == Siblings(depth, all, path.index)
  {
    var i := path.index;
    var side := SideAfter(depth, all[..i]);
    SideInvariant(depth, all[..i]);
    CapturedForever(depth, side, all, i, i);
    RightSiblings(right, all, i, depth, 0, 0);
    assert Block(all, 0, depth) == all;
  }

  /** ... and they fold to the root the pool publishes: a snapshot is valid forever. */
  lemma {:induction false} SnapshotValidForever(depth: nat, all: seq<Field>, path: NotePath, right: map<nat, Field>)
    requires NonZero(all) && path.index < |all| <= Pow2(depth)
    requires Located(depth, path, all[..path.index]) && KnowsFrom(right, all, path.index)
    ensures Fold(all[path.index], path.index, PathOf(depth, path.index, path.leftSnapshot, right, |all| - 1), depth)
         == LiveRoot(depth, all) == Root(depth, all)
  {
    StitchedPath(depth, all, path, right);
    FoldSiblings(depth, all, path.index, path.index);
    LiveRootIsRoot(depth, all);
  }

  /** A recipient who replays a batch from published side nodes holds a path that stays
      valid: with the leaves from the member's own on it folds to the root the pool
      publishes, whatever was inserted since. */
  lemma {:induction false} PublishedValidForever(before: seq<Field>, published: map<nat, Field>, cs: seq<Field>, k: nat,
                              since: seq<Field>, right: map<nat, Field>)
    requires k < |cs| && Publishes(published, SideAfter(DEPTH, before))
    requires NonZero(before + cs + since) && |before + cs + since| <= Pow2(DEPTH)
    requires KnowsFrom(right, before + cs + since, |before| + k)
    ensures var path := BatchPaths(|before|, SideOf(published), cs)[k];
      var all := before + cs + since;
      path.index == |before| + k &&
      Fold(cs[k], path.index, PathOf(DEPTH, path.index, path.leftSnapshot, right, |all| - 1), DEPTH) == LiveRoot(DEPTH, all)
  {
    hide Root, Fold, LiveRoot, PathOf, LeftSnapshot, BatchPaths, SideOf, Publishes;
    var all := before + cs + since;
    PublishedLocated(before, published, cs, k);
    assert |before + cs[..k]| == |before| + k;
    assert all[..|before| + k] == before + cs[..k] && all[|before| + k] == cs[k];
    SnapshotValidForever(DEPTH, all, BatchPaths(|before|, SideOf(published), cs)[k], right);
  }
}
