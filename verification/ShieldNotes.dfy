/** The shield-note tree (web/src/shieldnote.ts): a sparse, memoised mirror of the
    vault's zero-padded tree of 2^16 leaves.  */
module ShieldNotes {
  import opened Poseidon
  import opened Powers
  import opened Wrappers

  const NOTE_DEPTH: nat := 16

  // ---- the plain full tree ------------------------------------------------

  /** Node `index` of level `level` in the tree over all slots, empty slots 0. */
  ghost function Full(leaves: seq<Field>, level: nat, index: nat): Field {
    if level == 0 then
      if index < |leaves| then leaves[index] else ZERO
    else Node(Full(leaves, level - 1, 2 * index), Full(leaves, level - 1, 2 * index + 1))
  }

  /** Leaves hash left to right, with 0 in empty slots. */
  lemma {:induction false} SmallFull(a: Field, b: Field, c: Field)
    ensures Full([a, b], 1, 0) == Node(a, b)
    ensures Full([a, b, c], 2, 0) == Node(Node(a, b), Node(c, ZERO))
  {
    assert Full([a, b, c], 1, 0) == Node(a, b) && Full([a, b, c], 1, 1) == Node(c, ZERO);
  }

  function ZeroHash(level: nat): Field {
    if level == 0 then ZERO else Node(ZeroHash(level - 1), ZeroHash(level - 1))
  }

  method ZeroHashes(depth: nat) returns (z: seq<Field>)
    ensures |z| == depth + 1
    ensures forall l :: 0 <= l <= depth ==> z[l] == ZeroHash(l)
  {
    z := [ZERO];
    for i := 1 to depth + 1
      invariant |z| == i
      invariant forall l :: 0 <= l < i ==> z[l] == ZeroHash(l)
    {
      z := z + [Node(z[i - 1], z[i - 1])];
    }
  }

  lemma HalfWidth(level: nat, index: nat)
    requires level > 0
    ensures (2 * index) * Pow2(level - 1) == index * Pow2(level)
    ensures (2 * index + 1) * Pow2(level - 1) == index * Pow2(level) + Pow2(level - 1)
  {
    var p := Pow2(level - 1);
    assert (2 * index) * p == index * (2 * p);
    assert (2 * index + 1) * p == (2 * index) * p + p;
  }

  lemma {:induction false} FullLeaf(leaves: seq<Field>, index: nat)
    requires index < |leaves|
    ensures Full(leaves, 0, index) == leaves[index]
  {
  }

  /** The short cut: a subtree past the last leaf is the zero subtree of its level. */
  lemma {:induction false} EmptySubtree(leaves: seq<Field>, level: nat, index: nat)
    requires index * Pow2(level) >= |leaves|
    ensures Full(leaves, level, index) == ZeroHash(level)
  {
    if level > 0 {
      HalfWidth(level, index);
      EmptySubtree(leaves, level - 1, 2 * index);
      EmptySubtree(leaves, level - 1, 2 * index + 1);
    }
  }

  // ---- how many nodes are not empty ---------------------------------------

  /** Non-empty nodes of level `l` over `n` leaves: ceil(n / 2^l). */
  function Nodes(n: nat, l: nat): nat {
    if l == 0 then n else (Nodes(n, l - 1) + 1) / 2
  }

  function NodesUpTo(n: nat, l: nat): nat {
    if l == 0 then 0 else NodesUpTo(n, l - 1) + Nodes(n, l)
  }

  lemma {:induction false} NonEmpty(n: nat, l: nat, i: nat)
    ensures i * Pow2(l) < n <==> i < Nodes(n, l)
  {
    if l > 0 {
      HalfWidth(l, i);
      NonEmpty(n, l - 1, 2 * i);
    }
  }

  lemma {:induction false} NodesBound(n: nat, l: nat)
    ensures NodesUpTo(n, l) + Nodes(n, l) <= n + l
  {
    if l > 0 {
      NodesBound(n, l - 1);
    }
  }

  lemma {:induction false} LevelSize(ks: set<(nat, nat)>, l: nat, m: nat)
    requires forall k :: k in ks ==> k.0 == l && k.1 < m
    ensures |ks| <= m
  {
    if m == 0 {
      assert ks == {};
    } else {
      LevelSize(ks - {(l, m - 1)}, l, m - 1);
    }
  }

  /** Keys of distinct non-empty internal nodes of levels 1..l. */
  ghost predicate Internal(n: nat, l: nat, ks: set<(nat, nat)>) {
    forall k :: k in ks ==> 1 <= k.0 <= l && k.1 * Pow2(k.0) < n
  }

  lemma {:induction false} InternalCount(n: nat, l: nat, ks: set<(nat, nat)>)
    requires Internal(n, l, ks)
    ensures |ks| <= NodesUpTo(n, l) <= n + l
  {
    NodesBound(n, l);
    if l == 0 {
      assert ks == {};
    } else {
      var top := set k | k in ks && k.0 == l;
      forall k | k in top ensures k.1 < Nodes(n, l) {
        NonEmpty(n, l, k.1);
      }
      LevelSize(top, l, Nodes(n, l));
      NodesBound(n, l - 1);
      InternalCount(n, l - 1, ks - top);
      assert ks == (ks - top) + top;
    }
  }

  // ---- the memo -----------------------------------------------------------

  /** Every entry is a non-empty internal node and holds its value in the full tree. */
  ghost predicate MemoRight(leaves: seq<Field>, memo: map<(nat, nat), Field>) {
    && Internal(|leaves|, NOTE_DEPTH, memo.Keys)
    && forall k :: k in memo ==> memo[k] == Full(leaves, k.0, k.1)
  }

  lemma MemoGrows(leaves: seq<Field>, memo: map<(nat, nat), Field>, level: nat, index: nat, l: Field, r: Field)
    requires MemoRight(leaves, memo) && (level, index) !in memo
    requires 1 <= level <= NOTE_DEPTH && index * Pow2(level) < |leaves|
    requires l == Full(leaves, level - 1, 2 * index) && r == Full(leaves, level - 1, 2 * index + 1)
    ensures MemoRight(leaves, memo[(level, index) := Node(l, r)])
    ensures |memo[(level, index) := Node(l, r)]| == |memo| + 1
    ensures Full(leaves, level, index) == Node(l, r)
  {
  }

  lemma {:induction false} MemoBound(leaves: seq<Field>, memo: map<(nat, nat), Field>)
    requires MemoRight(leaves, memo)
    ensures |memo| <= NodesUpTo(|leaves|, NOTE_DEPTH) <= |leaves| + NOTE_DEPTH
  {
    InternalCount(|leaves|, NOTE_DEPTH, memo.Keys);
    assert |memo.Keys| == |memo|;
  }

  // ---- paths --------------------------------------------------------------

  /** The ancestor of `index` at level `l`. */
  function Up(index: nat, l: nat): nat {
    if l == 0 then index else Up(index, l - 1) / 2
  }

  function SiblingOf(idx: nat): nat {
    if idx % 2 == 0 then idx + 1 else idx - 1
  }

  datatype Path = Path(elements: seq<Field>, indices: seq<nat>)

  ghost predicate IsPath(leaves: seq<Field>, index: nat, p: Path, l: nat) {
    && |p.elements| == |p.indices| == l
    && forall k :: 0 <= k < l ==>
      p.elements[k] == Full(leaves, k, SiblingOf(Up(index, k))) && p.indices[k] == Up(index, k) % 2
  }

  /** The circuit's fold: at a 0 bit the running value is the left child. */
  function FoldPath(leaf: Field, elements: seq<Field>, indices: seq<nat>, l: nat): Field
    requires l <= |elements| && l <= |indices|
  {
    if l == 0 then leaf
    else
      var cur := FoldPath(leaf, elements, indices, l - 1);
      if indices[l - 1] == 0 then Node(cur, elements[l - 1]) else Node(elements[l - 1], cur)
  }

  /** The tree, with a counter of the Poseidon calls its lookups make. */
  class NoteTree {
    const leaves: seq<Field>
    const zeros: seq<Field>
    var memo: map<(nat, nat), Field>
    var hashes: nat

    ghost predicate Valid()
      reads this
    {
      && |zeros| == NOTE_DEPTH + 1
      && (forall l :: 0 <= l <= NOTE_DEPTH ==> zeros[l] == ZeroHash(l))
      && MemoRight(leaves, memo)
      && hashes == |memo|
    }

    constructor (leaves: seq<Field>)
      ensures Valid() && this.leaves == leaves && hashes == 0
    {
      this.leaves := leaves;
      var z := ZeroHashes(NOTE_DEPTH);
      zeros := z;
      memo := map[];
      hashes := 0;
    }

    method NodeAt(level: nat, index: nat) returns (v: Field)
      requires Valid() && level <= NOTE_DEPTH
      modifies this`memo, this`hashes
      ensures Valid()
      ensures v == Full(leaves, level, index)
      ensures old(memo.Keys) <= memo.Keys
      ensures forall k :: k in memo && k !in old(memo) ==> k.0 <= level
      decreases level
    {
      hide Full, ZeroHash, Internal;
      if index * Pow2(level) >= |leaves| {
        EmptySubtree(leaves, level, index);
        return zeros[level];
      }
      if level == 0 {
        FullLeaf(leaves, index);
        return leaves[index];
      }
      if (level, index) in memo {
        return memo[(level, index)];
      }
      var l := NodeAt(level - 1, 2 * index);
      var r := NodeAt(level - 1, 2 * index + 1);
      v := Node(l, r);
      hashes := hashes + 1;
      MemoGrows(leaves, memo, level, index, l, r);
      memo := memo[(level, index) := v];
    }

    method Root() returns (v: Field)
      requires Valid()
      modifies this`memo, this`hashes
      ensures Valid()
      ensures v == Full(leaves, NOTE_DEPTH, 0)
      ensures hashes <= NodesUpTo(|leaves|, NOTE_DEPTH) <= |leaves| + NOTE_DEPTH
    {
      hide Full, ZeroHash, Internal, NodesUpTo;
      v := NodeAt(NOTE_DEPTH, 0);
      MemoBound(leaves, memo);
    }

    method PathTo(index: nat) returns (p: Path)
      requires Valid()
      modifies this`memo, this`hashes
      ensures Valid()
      ensures IsPath(leaves, index, p, NOTE_DEPTH)
      ensures hashes <= NodesUpTo(|leaves|, NOTE_DEPTH) <= |leaves| + NOTE_DEPTH
    {
      hide Full, ZeroHash, Internal, NodesUpTo, MemoRight;
      var elements: seq<Field>, indices: seq<nat> := [], [];
      var idx := index;
      for lv := 0 to NOTE_DEPTH
        invariant Valid() && idx == Up(index, lv)
        invariant IsPath(leaves, index, Path(elements, indices), lv)
      {
        var e := NodeAt(lv, if idx % 2 == 0 then idx + 1 else idx - 1);
        elements := elements + [e];
        indices := indices + [idx % 2];
        idx := idx / 2;
      }
      p := Path(elements, indices);
      MemoBound(leaves, memo);
    }
  }

  // ---- membership and binding ---------------------------------------------

  /** A path folds its leaf to the ancestor, for every index, empty slots included. */
  lemma {:induction false} PathFolds(leaves: seq<Field>, index: nat, p: Path, l: nat)
    requires l <= |p.elements| && IsPath(leaves, index, p, |p.elements|)
    ensures FoldPath(Full(leaves, 0, index), p.elements, p.indices, l) == Full(leaves, l, Up(index, l))
  {
    if l > 0 {
      PathFolds(leaves, index, p, l - 1);
    }
  }

  /** Any value and any siblings that fold to the same node along the same index bits are
      the leaf and the path themselves. */
  lemma {:induction false} FoldBinds(a: Field, xs: seq<Field>, b: Field, ys: seq<Field>, indices: seq<nat>, l: nat)
    requires l <= |xs| && l <= |ys| && l <= |indices|
    requires FoldPath(a, xs, indices, l) == FoldPath(b, ys, indices, l)
    ensures a == b && xs[..l] == ys[..l]
  {
    if l > 0 {
      FoldBinds(a, xs, b, ys, indices, l - 1);
      assert xs[..l] == xs[..l - 1] + [xs[l - 1]];
      assert ys[..l] == ys[..l - 1] + [ys[l - 1]];
    }
  }

  lemma {:induction false} UpDivides(index: nat, l: nat)
    ensures Up(index, l) == index / Pow2(l)
  {
    if l > 0 {
      UpDivides(index, l - 1);
      HalfOfQuotient(index, Pow2(l - 1));
    }
  }

  lemma HalfBounds(n: nat, d: nat, q: nat, h: nat)
    requires d > 0 && q * d <= n < (q + 1) * d && 2 * h <= q <= 2 * h + 1
    ensures h * (2 * d) <= n < (h + 1) * (2 * d)
  {
    MulMono(2 * h, q, d);
    MulMono(q + 1, 2 * (h + 1), d);
    SwapTwo(h, d);
    SwapTwo(h + 1, d);
  }

  lemma SwapTwo(h: nat, d: nat)
    ensures h * (2 * d) == (2 * h) * d
  {
  }

  lemma HalfOfQuotient(n: nat, d: nat)
    requires d > 0
    ensures n / d / 2 == n / (2 * d)
  {
    QuotientBounds(n, d);
    HalfBounds(n, d, n / d, n / d / 2);
    DivUnique(n, 2 * d, n / d / 2);
  }

  /** For an index of the tree the fold is the root. */
  lemma {:induction false} PathProvesRoot(leaves: seq<Field>, index: nat, p: Path)
    requires index < Pow2(NOTE_DEPTH) && IsPath(leaves, index, p, NOTE_DEPTH)
    ensures FoldPath(Full(leaves, 0, index), p.elements, p.indices, NOTE_DEPTH) == Full(leaves, NOTE_DEPTH, 0)
  {
    PathFolds(leaves, index, p, NOTE_DEPTH);
    UpDivides(index, NOTE_DEPTH);
    DivUnique(index, Pow2(NOTE_DEPTH), 0);
  }

  /** ... and the root binds the leaf and every sibling. */
  lemma {:induction false} RootBinds(leaves: seq<Field>, index: nat, p: Path, value: Field, elements: seq<Field>)
    requires index < Pow2(NOTE_DEPTH) && IsPath(leaves, index, p, NOTE_DEPTH) && |elements| == NOTE_DEPTH
    ensures FoldPath(value, elements, p.indices, NOTE_DEPTH) == Full(leaves, NOTE_DEPTH, 0)
        <==> value == Full(leaves, 0, index) && elements == p.elements
  {
    PathProvesRoot(leaves, index, p);
    if FoldPath(value, elements, p.indices, NOTE_DEPTH) == Full(leaves, NOTE_DEPTH, 0) {
      FoldBinds(value, elements, Full(leaves, 0, index), p.elements, p.indices, NOTE_DEPTH);
      assert elements[..NOTE_DEPTH] == elements && p.elements[..NOTE_DEPTH] == p.elements;
    }
  }

  // ---- proving a spend ----------------------------------------------------

  datatype Witness = Witness(index: nat, path: Path, root: Field)

  ghost predicate FirstAt(leaves: seq<Field>, commitment: Field, index: nat) {
    index < |leaves| && leaves[index] == commitment && commitment !in leaves[..index]
  }

  /** The tree part of `proveSpend`: look the note up, then take its path and the root. */
  method ProveSpend(leaves: seq<Field>, commitment: Field) returns (w: Option<Witness>)
    ensures w.None? <==> commitment !in leaves
    ensures w.Some? ==>
      && FirstAt(leaves, commitment, w.value.index)
      && IsPath(leaves, w.value.index, w.value.path, NOTE_DEPTH)
      && w.value.root == Full(leaves, NOTE_DEPTH, 0)
      && |w.value.path.elements| == |w.value.path.indices| == 16
  {
    hide Full, ZeroHash, NodesUpTo;
    var index := 0;
    while index < |leaves| && leaves[index] != commitment
      invariant index <= |leaves| && commitment !in leaves[..index]
    {
      index := index + 1;
    }
    if index == |leaves| {
      assert leaves[..index] == leaves;
      return None;
    }
    var tree := new NoteTree(leaves);
    var path := tree.PathTo(index);
    var root := tree.Root();
    return Some(Witness(index, path, root));
  }

  /** The turns below level `depth` depend on the low bits alone. */
  lemma SameTurns(j: nat, q: nat, depth: nat, k: nat)
    requires k < depth
    ensures Up(j + q * Pow2(depth), k) % 2 == Up(j, k) % 2
  {
    UpDivides(j + q * Pow2(depth), k);
    UpDivides(j, k);
    LowBit(j, q, depth, k);
  }

  lemma PathExists(leaves: seq<Field>, index: nat, l: nat) returns (p: Path)
    ensures IsPath(leaves, index, p, l)
  {
    p := Path(seq(l, k requires 0 <= k => Full(leaves, k, SiblingOf(Up(index, k)))), seq(l, k requires 0 <= k => Up(index, k) % 2));
  }

  lemma {:induction false} LateWitness(leaves: seq<Field>, commitment: Field, index: nat, p: Path)
    requires Pow2(NOTE_DEPTH) <= index < |leaves| && IsPath(leaves, index, p, NOTE_DEPTH)
    requires FoldPath(commitment, p.elements, p.indices, NOTE_DEPTH) == Full(leaves, NOTE_DEPTH, 0)
    ensures commitment in leaves[..index]
  {
    hide Full, FoldPath, Pow2, Up;
    var j, turns := index % Pow2(NOTE_DEPTH), index / Pow2(NOTE_DEPTH);
    var q := PathExists(leaves, j, NOTE_DEPTH);
    assert index == j + turns * Pow2(NOTE_DEPTH);
    forall k | 0 <= k < NOTE_DEPTH ensures p.indices[k] == q.indices[k] {
      SameTurns(j, turns, NOTE_DEPTH, k);
    }
    assert p.indices == q.indices;
    PathProvesRoot(leaves, j, q);
    FoldBinds(commitment, p.elements, Full(leaves, 0, j), q.elements, p.indices, NOTE_DEPTH);
    FullLeaf(leaves, j);
    assert leaves[..index][j] == commitment;
  }

  /** The spend's witness satisfies the circuit exactly when the note lies in the first
      2^16 leaves: a note past them can never be proved, however its path is taken. */
  lemma {:induction false} WitnessExact(leaves: seq<Field>, commitment: Field, index: nat, p: Path)
    requires FirstAt(leaves, commitment, index) && IsPath(leaves, index, p, NOTE_DEPTH)
    ensures FoldPath(commitment, p.elements, p.indices, NOTE_DEPTH) == Full(leaves, NOTE_DEPTH, 0)
        <==> index < Pow2(NOTE_DEPTH)
  {
    hide Full, FoldPath, Pow2, Up;
    if index < Pow2(NOTE_DEPTH) {
      FullLeaf(leaves, index);
      PathProvesRoot(leaves, index, p);
    } else if FoldPath(commitment, p.elements, p.indices, NOTE_DEPTH) == Full(leaves, NOTE_DEPTH, 0) {
      LateWitness(leaves, commitment, index, p);
    }
  }
}
